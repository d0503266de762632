/** The whole service as a state machine: the host's bytes drive the parser, commands act
    on the worker, and answers, callbacks and statistics are told to the host. */
module ServiceSpec {
  import opened Bytes
  import opened DeviceFrames
  import opened WorkerSpec
  import P = CommandParser
  import Ring = IpcRing
  import RxLoop

  const MAX_PAYLOAD_REPORTED: u16 := 511
  const SCAN_MAGIC: u32 := 0xFFFF_FFFF
  const STATS_PERIOD_MS := 10000

  // ----- CONFIG bodies -----

  /** What a CONFIG body asks for. */
  datatype ConfigRequest = SweepRequest(params: ScanParams) | TuneRequest(config: Config)

  function ReadConfig(body: seq<byte>): ConfigRequest
    requires |body| >= 15
  {
    var freq, bandwidth, sync := FromLe32(body[0..4]), FromLe32(body[4..8]), FromLe32(body[10..14]);
    var rate, power, role := body[8], body[9], body[14];
    if freq == SCAN_MAGIC then
      SweepRequest(ScanParams(sync, bandwidth, Min(if rate == 0 then 27 else rate, 64), Max(power as int * 100, 50)))
    else
      TuneRequest(Config(freq, RxLoop.I8(power), role))
  }

  function Max(a: int, b: int): int {
    if a < b then b else a
  }

  /** A CONFIG body as a host lays it out; `extra` is empty or the two v2 selectors. */
  function ConfigBody(freq: u32, bandwidth: u32, rate: byte, power: int, sync: u32, role: byte,
                      extra: seq<byte>): seq<byte>
    requires -128 <= power < 128 && (|extra| == 0 || |extra| == 2)
  {
    Le32(freq) + Le32(bandwidth) + [rate, power % 256] + Le32(sync) + [role] + extra
  }

  /** Reading a laid-out body gives back its fields; the v2 selectors are ignored. */
  lemma ConfigRoundTrip(freq: u32, bandwidth: u32, rate: byte, power: int, sync: u32, role: byte,
                        extra: seq<byte>)
    requires -128 <= power < 128 && (|extra| == 0 || |extra| == 2)
    ensures ReadConfig(ConfigBody(freq, bandwidth, rate, power, sync, role, extra)) ==
            if freq != SCAN_MAGIC then TuneRequest(Config(freq, power, role))
            else SweepRequest(ScanParams(sync, bandwidth, if rate == 0 then 27 else if rate > 64 then 64 else rate,
                                  if power == 0 then 50 else 100 * (power % 256)))
  {
    hide Le32, FromLe32;
    var b := ConfigBody(freq, bandwidth, rate, power, sync, role, extra);
    assert b[0..4] == Le32(freq) && b[4..8] == Le32(bandwidth) && b[10..14] == Le32(sync);
    Le32RoundTrip(freq);
    Le32RoundTrip(bandwidth);
    Le32RoundTrip(sync);
  }

  /** Whatever a host sends, a requested sweep has 1 to 64 channels, and its dwell is far
      below the 2^31 ms that the wrapped deadline test can tell. */
  lemma SweepsAreBounded(body: seq<byte>)
    requires |body| >= 15 && ReadConfig(body).SweepRequest?
    ensures var p := ReadConfig(body).params;
            1 <= p.count <= 64 && 50 <= p.dwellMs <= 25500
  {
  }

  // ----- answers -----

  const TEXT_BUSY: seq<byte> := [0x74, 0x78, 0x20, 0x71, 0x75, 0x65, 0x75, 0x65, 0x20, 0x66, 0x75, 0x6C, 0x6C]
  const TEXT_TX_LEN: seq<byte> := [0x62, 0x61, 0x64, 0x20, 0x74, 0x78, 0x20, 0x6C, 0x65, 0x6E]
  const TEXT_LEN: seq<byte> := [0x62, 0x61, 0x64, 0x20, 0x6C, 0x65, 0x6E]
  const TEXT_ABORTED: seq<byte> := [0x74, 0x78, 0x20, 0x61, 0x62, 0x6F, 0x72, 0x74, 0x65, 0x64]
  const TEXT_DROPPED: seq<byte> := [0x74, 0x78, 0x20, 0x64, 0x72, 0x6F, 0x70, 0x70, 0x65, 0x64]
  const TEXT_NO_RADIO: seq<byte> :=
    [0x72, 0x61, 0x64, 0x69, 0x6F, 0x20, 0x69, 0x6E, 0x69, 0x74, 0x20, 0x66, 0x61, 0x69, 0x6C, 0x65, 0x64]
  const TEXT_NO_TUNE: seq<byte> :=
    [0x73, 0x65, 0x74, 0x20, 0x66, 0x72, 0x65, 0x71, 0x75, 0x65, 0x6E, 0x63, 0x79, 0x20,
     0x66, 0x61, 0x69, 0x6C, 0x65, 0x64]

  /** The surroundings a byte is handled in: the clock when it arrives and when the
      statistics' cadence is looked at, the radio, and the statistics. */
  datatype Around = Around(now: u32, statsMs: u32, tuneOk: bool, stats: seq<byte>)

  /** The operation a command performs on the worker, if any. */
  function CommandOp(e: P.Event, around: Around): Option<WorkerSpec.Op>
    requires e.Configure? ==> |e.body| >= 15
  {
    match e
    case Transmit(p) => Some(EnqueueOp(p))
    case Configure(b) =>
      var r := ReadConfig(b);
      Some(if r.SweepRequest? then ScanOp(r.params, around.now, around.tuneOk) else ConfigOp(r.config, around.tuneOk))
    case Scan(dwell, freqs) =>
      if 1 <= |freqs| <= 16
      then Some(ScanOp(ScanParams(freqs[0], 0, |freqs|, Max(dwell, 50)), around.now, around.tuneOk))
      else None
    case _ => None
  }

  /** The frames that answer a command at once. The reset's bare 'G' is not a frame. */
  function Answer(w: Worker, e: P.Event, around: Around): seq<Frame>
    requires e.Configure? ==> |e.body| >= 15
    requires e.Transmit? ==> |e.payload| <= P.MAX_TOTAL_PAYLOAD
  {
    match e
    case Transmit(p) =>
      if Enqueue(w, p).1 == Busy then [Error(4, TEXT_BUSY)] else [Diag(47, |p|)]
    case Configure(b) =>
      var r := ReadConfig(b);
      if r.SweepRequest? || ApplyConfig(w, r.config, around.tuneOk).1 then [Ready(MAX_PAYLOAD_REPORTED)]
      else [Error(3, if w.radioOk then TEXT_NO_TUNE else TEXT_NO_RADIO)]
    case SetWindow(_, _) => [Ready(MAX_PAYLOAD_REPORTED)]
    case StatsRequest => [Stats(around.stats)]
    case BadTxLen => [Error(2, TEXT_TX_LEN)]
    case BadConfigLen => [Error(3, TEXT_LEN)]
    case Scan(_, _) => []
    case Reset => []
  }

  /** The frame that tells the host how a transmission ended. */
  function TerminalFrame(t: Terminal): Frame {
    match t
    case Ok => Ready(MAX_PAYLOAD_REPORTED)
    case Busy => Error(4, TEXT_DROPPED)
    case Failed => Error(5, TEXT_ABORTED)
    case Dropped => Error(6, TEXT_DROPPED)
  }

  /** A channel's four diagnostics; the strength is shifted to be non-negative. */
  function ReportFrames(r: Report): seq<Frame> {
    [Diag(50, r.freqHz), Diag(51, U32(r.frames)), Diag(52, U32(r.consensus)), Diag(53, U32(r.best + 128))]
  }

  /** Lengths that the parser guarantees for what it hands on. */
  predicate Bounded(e: P.Event) {
    && (e.Configure? ==> |e.body| == 15 || |e.body| == 17)
    && (e.Transmit? ==> 1 <= |e.payload| <= P.MAX_TOTAL_PAYLOAD)
  }

  /** A command's operation is one that the worker may perform. */
  lemma CommandsAreEnabled(w: Worker, e: P.Event, around: Around)
    requires Bounded(e) && CommandOp(e, around).Some?
    ensures Enabled(w, CommandOp(e, around).value)
  {
  }

  /** The worker after a command. */
  function Obeyed(w: Worker, e: P.Event, around: Around): Worker
    requires Bounded(e)
  {
    if CommandOp(e, around).None? then w else
      CommandsAreEnabled(w, e, around);
      Step(w, CommandOp(e, around).value)
  }

  // ----- what the host is told -----

  /** Why a frame is sent: as the answer to a command, as a transmission's terminal, as a
      scan report, for a packet received, or unasked. */
  datatype Cause = Command | Ending | Scanning | Reception | Unasked

  /** A frame told to the host, or the reset's bare 'G'. */
  datatype Note = Told(cause: Cause, frame: Frame) | BareReset

  predicate Tellable(n: Note) {
    n.Told? ==> Writable(n.frame)
  }

  function NoteBytes(n: Note): seq<byte>
    requires Tellable(n)
  {
    if n.Told? then DeviceFrames.Encode(n.frame) else [G]
  }

  ghost predicate AllTellable(notes: seq<Note>) {
    forall i :: 0 <= i < |notes| ==> Tellable(notes[i])
  }

  /** The bytes of all notes. */
  ghost function Stream(notes: seq<Note>): seq<byte>
    requires AllTellable(notes)
  {
    if notes == [] then [] else
      var n := |notes| - 1;
      Stream(notes[..n]) + NoteBytes(notes[n])
  }

  lemma LastOfConcat<A>(a: seq<A>, b: seq<A>)
    requires b != []
    ensures (a + b)[..|a + b| - 1] == a + b[..|b| - 1] && (a + b)[|a + b| - 1] == b[|b| - 1]
  {
  }

  lemma StreamOfOne(n: Note)
    requires Tellable(n)
    ensures Stream([n]) == NoteBytes(n)
  {
    assert [n][..0] == [];
  }

  lemma {:induction false} StreamConcat(a: seq<Note>, b: seq<Note>)
    requires AllTellable(a) && AllTellable(b)
    ensures AllTellable(a + b) && Stream(a + b) == Stream(a) + Stream(b)
  {
    hide Tellable, NoteBytes;
    if b == [] {
      assert a + b == a;
    } else {
      var n := |b| - 1;
      StreamConcat(a, b[..n]);
      LastOfConcat(a, b);
      assert Stream(a + b) == (Stream(a) + Stream(b[..n])) + NoteBytes(b[n]);
    }
  }

  function Tell(cause: Cause, frames: seq<Frame>): (notes: seq<Note>)
    ensures |notes| == |frames|
  {
    seq(|frames|, i requires 0 <= i < |frames| => Told(cause, frames[i]))
  }

  /** What the host is told at once about a command. */
  function AnswerNotes(w: Worker, e: P.Event, around: Around): seq<Note>
    requires Bounded(e)
  {
    if e.Reset? then [BareReset] else Tell(Command, Answer(w, e, around))
  }

  function ReportNotes(rs: seq<Report>): seq<Note> {
    if rs == [] then [] else ReportNotes(rs[..|rs| - 1]) + Tell(Scanning, ReportFrames(rs[|rs| - 1]))
  }

  function HeardNotes(rs: seq<RxLoop.Rx>): seq<Note> {
    if rs == [] then [] else
      HeardNotes(rs[..|rs| - 1]) + [Told(Reception, Received(rs[|rs| - 1].pkt, rs[|rs| - 1].rssi))]
  }

  function EndingNotes(ts: seq<Finished>): seq<Note> {
    if ts == [] then [] else EndingNotes(ts[..|ts| - 1]) + [Told(Ending, TerminalFrame(ts[|ts| - 1].outcome))]
  }

  function New<A>(before: seq<A>, after: seq<A>): seq<A> {
    if |before| <= |after| then after[|before|..] else []
  }

  /** The callbacks of one operation of the worker: a channel's report, packets handed
      up, terminals. */
  function Callbacks(w: Worker, op: Op, w': Worker): seq<Note> {
    ReportNotes(New(w.scan.reports, w'.scan.reports))
    + HeardNotes(if op.ReceivedOp? then RxLoop.Deliverable(op.read) else [])
    + EndingNotes(New(w.tx.terminals, w'.tx.terminals))
  }

  // ----- the machine -----

  /** The incoming ring with its reader, the parser, the worker, and what was told. */
  datatype Station = Station(input: Ring.Reading, parser: P.Parser, worker: Worker, lastStatsMs: u32,
                             notes: seq<Note>)

  /** A write by the host, one byte read, one look that reads nothing, or one operation of
      the worker. */
  datatype Act = HostAct(buf: seq<byte>) | ByteAct(b: byte, around: Around) | QuietAct(around: Around)
               | WorkerAct(op: Op)

  /** A packet as the radio reads it. */
  predicate Receivable(r: RxLoop.Rx) {
    |r.pkt| <= Ring.CAP && -0x8000 <= r.rssi < 0x8000
  }

  /** A byte is read when the ring's reader returns it; of the worker's operations only its
      own occur by themselves, the others come from the host's bytes. */
  ghost predicate May(s: Station, act: Act) {
    match act
    case HostAct(buf) => s.input.region.Valid() && |buf| <= Ring.CAP
    case ByteAct(b, around) =>
      && s.parser.Valid() && |around.stats| == STATS_LEN
      && s.input.region.Valid() && Ring.Fetch(s.input).1 == Some(b)
    case QuietAct(around) =>
      |around.stats| == STATS_LEN && s.input.region.Valid() && Ring.Fetch(s.input).1 == None
    case WorkerAct(op) =>
      && (op.ThermalOp? || op.TickOp? || op.ServiceOp? || op.ReceivedOp?) && Enabled(s.worker, op)
      && (op.ReceivedOp? ==> forall i :: 0 <= i < |op.read| ==> Receivable(op.read[i]))
  }

  function Handle(s: Station, e: P.Event, around: Around): Station
    requires Bounded(e)
  {
    s.(worker := Obeyed(s.worker, e, around), notes := s.notes + AnswerNotes(s.worker, e, around),
       lastStatsMs := if e.StatsRequest? then around.statsMs else s.lastStatsMs)
  }

  /** Unasked statistics, once 10 s have passed since the last ones. */
  function Cadence(s: Station, around: Around): Station {
    if U32(around.statsMs - s.lastStatsMs) < STATS_PERIOD_MS then s
    else s.(lastStatsMs := around.statsMs, notes := s.notes + [Told(Unasked, Stats(around.stats))])
  }

  /** What a byte completes, if anything. */
  function EventOf(p: P.Parser, b: byte, now: u32): (e: Option<P.Event>)
    requires p.Valid()
    ensures e.Some? ==> Bounded(e.value)
  {
    P.StepYieldsOneBoundedEvent(p, b, now);
    var es := P.Step(p, b, now).1;
    if es == [] then None else Some(es[0])
  }

  /** A byte is parsed, and what it completes is handled. */
  function Completed(s: Station, b: byte, around: Around): Station
    requires s.parser.Valid()
  {
    var e := EventOf(s.parser, b, around.now);
    var t := s.(parser := P.Step(s.parser, b, around.now).0);
    if e.None? then t else Handle(t, e.value, around)
  }

  /** The byte only counts towards a frame being skipped. */
  predicate IsDrained(p: P.Parser, now: u32) {
    P.Resync(p, now).skip > 0
  }

  /** A drained byte is not followed by a look at the statistics' cadence. */
  function AfterByte(s: Station, b: byte, around: Around): Station
    requires s.parser.Valid()
  {
    if IsDrained(s.parser, around.now) then Completed(s, b, around) else Cadence(Completed(s, b, around), around)
  }

  /** The reader has been asked for a byte. */
  function Looked(s: Station): Station
    requires |s.input.region.data| == Ring.CAP
  {
    s.(input := Ring.Fetch(s.input).0)
  }

  ghost function After(s: Station, act: Act): Station
    requires May(s, act)
  {
    match act
    case HostAct(buf) => s.(input := s.input.(region := Ring.Written(s.input.region, buf)))
    case ByteAct(b, around) => AfterByte(Looked(s), b, around)
    case QuietAct(around) => Cadence(Looked(s), around)
    case WorkerAct(op) =>
      var w := Step(s.worker, op);
      s.(worker := w, notes := s.notes + Callbacks(s.worker, op, w))
  }

  /** The service right after start-up: both ring counters zero; 'G', then statistics. */
  function Started(data: seq<byte>, around: Around): Station {
    Station(Ring.Reading(Ring.Region(data, 0, 0), []), P.INITIAL, STARTED, around.statsMs,
            [Told(Unasked, Ready(MAX_PAYLOAD_REPORTED)), Told(Unasked, Stats(around.stats))])
  }

  /** A run of the service from start-up. */
  ghost predicate Serves(states: seq<Station>, acts: seq<Act>) {
    && |states| == |acts| + 1 && (exists data, around: Around :: |data| == Ring.CAP && |around.stats| == STATS_LEN
                                                           && states[0] == Started(data, around))
    && forall i :: 0 <= i < |acts| ==> May(states[i], acts[i]) && states[i + 1] == After(states[i], acts[i])
  }

  /** Some run of the service performs `acts` and ends in `s`. */
  ghost predicate Reaches(acts: seq<Act>, s: Station) {
    exists states :: Serves(states, acts) && states[|acts|] == s
  }

  lemma ReachesStart(data: seq<byte>, around: Around)
    requires |data| == Ring.CAP && |around.stats| == STATS_LEN
    ensures Reaches([], Started(data, around))
  {
    var states := [Started(data, around)];
    assert Serves(states, []);
  }

  lemma ReachesOn(acts: seq<Act>, s: Station, act: Act)
    requires Reaches(acts, s) && May(s, act)
    ensures Reaches(acts + [act], After(s, act))
  {
    hide May, After, Started;
    var states :| Serves(states, acts) && states[|acts|] == s;
    assert Serves(states + [After(s, act)], acts + [act]);
  }

  /** What a poll of the server reads: some bytes, then nothing. */
  function PollActs(bytes: seq<byte>, arounds: nat -> Around): seq<Act> {
    ByteActs(bytes, arounds) + [QuietAct(arounds(|bytes|))]
  }

  function ByteActs(bytes: seq<byte>, arounds: nat -> Around): (acts: seq<Act>)
    ensures |acts| == |bytes|
  {
    seq(|bytes|, i requires 0 <= i < |bytes| => ByteAct(bytes[i], arounds(i)))
  }

  lemma OneMoreByte(acts: seq<Act>, bytes: seq<byte>, b: byte, arounds: nat -> Around)
    ensures (acts + ByteActs(bytes, arounds)) + [ByteAct(b, arounds(|bytes|))] == acts + ByteActs(bytes + [b], arounds)
  {
  }
}
