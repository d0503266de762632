/** What each of the host's commands does and how it is answered, told from the command's
    fields and the documented numbers and texts. */
module HostContract {
  import opened Bytes
  import opened DeviceFrames
  import opened ServiceSafety
  import opened ServiceSpec
  import opened WorkerSpec
  import L = Layouts
  import P = CommandParser
  import RxLoop

  // ----- answers -----

  /** A radio that is up takes a CONFIG unless it has to tune and fails; it need not tune to
      frequency 0, or when nothing changes and no scan is active. */
  predicate Takes(w: Worker, freq: int, power: int, role: int, tuneOk: bool) {
    var limit := if w.level >= 1 then 4 else 10;
    && w.radioOk
    && (tuneOk || freq == 0
        || (!w.scan.active && w.cfg.freqHz == freq && w.cfg.role == role
            && w.cfg.powerDbm == if power > limit then limit else power))
  }

  function Big(s: seq<byte>): int
    requires |s| == 4
  {
    s[0] + 256 * (s[1] as int) + 65536 * (s[2] as int) + 16777216 * (s[3] as int)
  }

  function Signed(b: byte): int {
    if b < 128 then b else b - 256
  }

  /** The answer to a command. */
  predicate IsReply(notes: seq<Note>, w: Worker, e: P.Event, around: Around) {
    match e
    case Transmit(p) =>
      |p| < TWO_32
      && notes == [Told(Command, if w.radioOk && w.level < 2 && |w.tx.queue| < 16 then Diag(47, |p|)
                                 else Error(4, L.Ascii("tx queue full")))]
    case Configure(b) =>
      |b| >= 15
      && notes == [Told(Command,
                        if Big(b[..4]) == 0xFFFF_FFFF || Takes(w, Big(b[..4]), Signed(b[9]), b[14], around.tuneOk)
                        then Ready(511)
                        else Error(3, L.Ascii(if w.radioOk then "set frequency failed" else "radio init failed")))]
    case SetWindow(_, _) => notes == [Told(Command, Ready(511))]
    case StatsRequest => notes == [Told(Command, Stats(around.stats))]
    case BadTxLen => notes == [Told(Command, Error(2, L.Ascii("bad tx len")))]
    case BadConfigLen => notes == [Told(Command, Error(3, L.Ascii("bad len")))]
    case Scan(_, _) => notes == []
    case Reset => notes == [BareReset]
  }

  lemma TellsOneFrame(f: Frame)
    ensures Tell(Command, [f]) == [Told(Command, f)]
  {
  }

  lemma ConfigReads(body: seq<byte>)
    requires |body| >= 15
    ensures var r, freq := ReadConfig(body), Big(body[..4]);
            && (r.SweepRequest? <==> freq == 0xFFFF_FFFF)
            && (r.TuneRequest? ==> r.config.freqHz == freq && r.config.powerDbm == Signed(body[9])
                                   && r.config.role == body[14])
  {
  }

  lemma ConfigIsTaken(w: Worker, c: Config, tuneOk: bool)
    ensures ApplyConfig(w, c, tuneOk).1 <==> Takes(w, c.freqHz, c.powerDbm, c.role, tuneOk)
  {
  }

  lemma AnswerIsReply(w: Worker, e: P.Event, around: Around)
    requires Bounded(e)
    ensures IsReply(AnswerNotes(w, e, around), w, e, around)
  {
    hide ReadConfig, ApplyConfig, Takes, Big, Signed, L.Ascii, Tell;
    L.LengthTexts();
    L.QueueTexts();
    L.ConfigTexts();
    match e
    case Configure(b) =>
      ConfigReads(b);
      var r := ReadConfig(b);
      if r.TuneRequest? {
        ConfigIsTaken(w, r.config, around.tuneOk);
      }
      TellsOneFrame(Answer(w, e, around)[0]);
    case Transmit(p) => TellsOneFrame(Answer(w, e, around)[0]);
    case SetWindow(_, _) => TellsOneFrame(Ready(511));
    case StatsRequest => TellsOneFrame(Stats(around.stats));
    case BadTxLen => TellsOneFrame(Error(2, TEXT_TX_LEN));
    case BadConfigLen => TellsOneFrame(Error(3, TEXT_LEN));
    case Scan(_, _) => assert Tell(Command, []) == [];
    case Reset =>
  }

  /** The byte only counts towards a frame being skipped. */
  predicate Skipped(s: Station, act: Act) {
    && act.ByteAct? && s.parser.skip > 0
    && (act.around.now - s.parser.last) % 0x1_0000_0000 <= 100
  }

  /** A byte read has the host told the answer to the command it completes, if any, and then
      statistics if 10 s have passed since the last ones; a skipped byte has it told nothing. */
  lemma ByteIsAnswered(s: Station, act: Act) returns (reply: seq<Note>)
    requires May(s, act) && act.ByteAct?
    ensures var e, stats := EventOf(s.parser, act.b, act.around.now), [Told(Unasked, Stats(act.around.stats))];
            && (e.None? ==> reply == []) && (e.Some? ==> IsReply(reply, s.worker, e.value, act.around))
            && (Skipped(s, act) ==> e.None?)
            && After(s, act).notes == s.notes + reply +
               if Skipped(s, act) || e == Some(P.StatsRequest)
                  || (act.around.statsMs - s.lastStatsMs) % 0x1_0000_0000 < 10000 then [] else stats
  {
    var e, t := EventOf(s.parser, act.b, act.around.now), Completed(Looked(s), act.b, act.around);
    SkippedIsDrained(s, act);
    reply := CompletedTells(Looked(s), act.b, act.around);
    CadenceTells(t, act.around);
    hide EventOf, Completed, Cadence, IsReply, IsDrained, Skipped, P.Parser.Valid;
  }

  lemma CompletedTells(s: Station, b: byte, around: Around) returns (reply: seq<Note>)
    requires s.parser.Valid()
    ensures var e, t := EventOf(s.parser, b, around.now), Completed(s, b, around);
            && (e.None? ==> reply == []) && (e.Some? ==> IsReply(reply, s.worker, e.value, around))
            && t.notes == s.notes + reply
            && t.lastStatsMs == if e == Some(P.StatsRequest) then around.statsMs else s.lastStatsMs
  {
    var e := EventOf(s.parser, b, around.now);
    hide P.Step, EventOf, AnswerNotes, Obeyed, IsReply;
    reply := [];
    if e.Some? {
      reply := AnswerNotes(s.worker, e.value, around);
      AnswerIsReply(s.worker, e.value, around);
    }
  }

  /** Unasked statistics come exactly when 10 s have passed since the last ones. */
  lemma CadenceTells(s: Station, around: Around)
    ensures var t := Cadence(s, around);
            if (around.statsMs - s.lastStatsMs) % 0x1_0000_0000 < 10000 then t == s
            else t.notes == s.notes + [Told(Unasked, Stats(around.stats))] && t.lastStatsMs == around.statsMs
                 && t.worker == s.worker
  {
  }

  lemma SkippedIsDrained(s: Station, act: Act)
    requires May(s, act) && act.ByteAct?
    ensures Skipped(s, act) <==> IsDrained(s.parser, act.around.now)
    ensures Skipped(s, act) ==> EventOf(s.parser, act.b, act.around.now).None?
  {
  }

  // ----- effects -----

  lemma CommandActs(s: Station, act: Act)
    requires May(s, act) && act.ByteAct? && EventOf(s.parser, act.b, act.around.now).Some?
    ensures After(s, act).worker == Obeyed(s.worker, EventOf(s.parser, act.b, act.around.now).value, act.around)
    ensures After(s, act).parser == P.Step(s.parser, act.b, act.around.now).0
  {
    hide P.Step, P.Resync, EventOf, AnswerNotes, Obeyed, IsDrained;
  }

  /** The worker has started the sweep `p`: its first channel is current and tuned to. */
  ghost predicate Sweeps(w: Worker, p: ScanParams, around: Around, t: Worker) {
    && t.scan.active && t.scan.params == p && t.scan.idx == 0 && t.scan.reports == w.scan.reports
    && t.scan.frames == 0 && t.scan.consensus == 0 && t.scan.best == -128
    && t.scan.dwellUntil == (around.now + p.dwellMs) % 0x1_0000_0000
    && t.scan.homeHz == (if !w.scan.active && w.cfg.freqHz != 0 then w.cfg.freqHz else w.scan.homeHz)
    && t.air.tunedHz == (if w.radioOk && around.tuneOk && p.startHz != 0 then p.startHz else w.air.tunedHz)
    && t.tx == w.tx && t.level == w.level && t.radioOk == w.radioOk && t.cfg.role == w.cfg.role
    && t.cfg.powerDbm == w.cfg.powerDbm && t.air.powerDbm == w.air.powerDbm && t.air.pinHigh == w.air.pinHigh
  }

  lemma StartSweeps(w: Worker, p: ScanParams, around: Around)
    ensures Sweeps(w, p, around, StartScan(w, p, around.now, around.tuneOk))
  {
  }

  /** A 'Q' command with 1 to 16 frequencies starts a sweep of that many channels, all on the
      first frequency, with a dwell of at least 50 ms; any other does nothing. */
  lemma ScanCommandSweeps(s: Station, act: Act, dwell: u32, freqs: seq<u32>)
    requires May(s, act) && act.ByteAct?
    requires EventOf(s.parser, act.b, act.around.now) == Some(P.Scan(dwell, freqs))
    ensures var w, t, n := s.worker, After(s, act).worker, |freqs|;
            if 1 <= n <= 16 then Sweeps(w, ScanParams(freqs[0], 0, n, if dwell < 50 then 50 else dwell), act.around, t)
            else t == w
  {
    CommandActs(s, act);
    hide EventOf, StartScan, Sweeps, After;
    var n := |freqs|;
    if 1 <= n <= 16 {
      StartSweeps(s.worker, ScanParams(freqs[0], 0, n, if dwell < 50 then 50 else dwell), act.around);
    }
  }

  lemma ConfigPerforms(w: Worker, body: seq<byte>, around: Around)
    requires Bounded(P.Configure(body))
    ensures Obeyed(w, P.Configure(body), around) ==
            match ReadConfig(body)
            case SweepRequest(p) => StartScan(w, p, around.now, around.tuneOk)
            case TuneRequest(c) => ApplyConfig(w, c, around.tuneOk).0
  {
    hide ReadConfig, StartScan, ApplyConfig;
  }

  lemma ConfigIsBounded(body: seq<byte>)
    requires |body| == 15 || |body| == 17
    ensures Bounded(P.Configure(body))
  {
  }

  lemma ScanConfigPerforms(w: Worker, step: u32, count: byte, tenths: byte, first: u32, role: byte, extra: seq<byte>,
                           around: Around)
    requires |extra| == 0 || |extra| == 2
    ensures Sweeps(w,
                   ScanParams(first, step, if count == 0 then 27 else if count > 64 then 64 else count,
                              if tenths == 0 then 50 else 100 * tenths),
                   around,
                   Obeyed(w, P.Configure(ConfigBody(0xFFFF_FFFF, step, count, Signed(tenths), first, role, extra)), around))
  {
    var power := Signed(tenths);
    assert power % 256 == tenths && (power == 0 <==> tenths == 0);
    var body := ConfigBody(0xFFFF_FFFF, step, count, power, first, role, extra);
    assert |body| == 15 || |body| == 17;
    hide *;
    ConfigRoundTrip(0xFFFF_FFFF, step, count, power, first, role, extra);
    ConfigIsBounded(body);
    ConfigPerforms(w, body, around);
    var p := ScanParams(first, step, if count == 0 then 27 else if count > 64 then 64 else count,
                        if tenths == 0 then 50 else 100 * tenths);
    StartSweeps(w, p, around);
  }

  /** A CONFIG with frequency 0xFFFFFFFF starts a sweep: from the sync word's frequency on,
      in steps of the bandwidth, with as many channels as the rate says (27 for 0, at most
      64) and the power's 100 ms of dwell, at least 50 ms. */
  lemma ScanConfigSweeps(s: Station, act: Act, step: u32, count: byte, tenths: byte, first: u32, role: byte,
                         extra: seq<byte>)
    requires May(s, act) && act.ByteAct? && (|extra| == 0 || |extra| == 2)
    requires EventOf(s.parser, act.b, act.around.now) ==
             Some(P.Configure(ConfigBody(0xFFFF_FFFF, step, count, Signed(tenths), first, role, extra)))
    ensures Sweeps(s.worker,
                   ScanParams(first, step, if count == 0 then 27 else if count > 64 then 64 else count,
                              if tenths == 0 then 50 else 100 * tenths),
                   act.around, After(s, act).worker)
  {
    CommandActs(s, act);
    hide *;
    ScanConfigPerforms(s.worker, step, count, tenths, first, role, extra, act.around);
  }

  lemma ConfigStores(w: Worker, c: Config, body: seq<byte>, around: Around)
    requires Bounded(P.Configure(body)) && ReadConfig(body) == TuneRequest(c)
    ensures var t := Obeyed(w, P.Configure(body), around);
            var limit := if w.level >= 1 then 4 else 10;
            if w.radioOk then
              && t.cfg == c.(powerDbm := if c.powerDbm > limit then limit else c.powerDbm)
              && !t.scan.active && t.tx == w.tx && t.level == w.level && t.scan.reports == w.scan.reports
              && (c.freqHz != 0 && around.tuneOk && (w.scan.active || w.cfg.freqHz != c.freqHz) ==>
                    t.air.tunedHz == c.freqHz)
            else t == w
  {
    ConfigPerforms(w, body, around);
    hide ReadConfig, Obeyed;
  }

  /** Any other CONFIG ends a sweep and stores its frequency, power and role, the power cut to
      10 dBm or, from level 1 on, to 4 dBm; a radio that is down takes nothing. */
  lemma ConfigIsStored(s: Station, act: Act, freq: u32, bandwidth: u32, rate: byte, power: int, sync: u32, role: byte,
                       extra: seq<byte>)
    requires May(s, act) && act.ByteAct? && (|extra| == 0 || |extra| == 2) && -128 <= power < 128
    requires freq != 0xFFFF_FFFF
    requires EventOf(s.parser, act.b, act.around.now) ==
             Some(P.Configure(ConfigBody(freq, bandwidth, rate, power, sync, role, extra)))
    ensures var w, t := s.worker, After(s, act).worker;
            var limit := if w.level >= 1 then 4 else 10;
            if w.radioOk then
              && t.cfg == Config(freq, if power > limit then limit else power, role)
              && !t.scan.active && t.tx == w.tx && t.level == w.level && t.scan.reports == w.scan.reports
              && (freq != 0 && act.around.tuneOk && (w.scan.active || w.cfg.freqHz != freq) ==> t.air.tunedHz == freq)
            else t == w
  {
    var body := ConfigBody(freq, bandwidth, rate, power, sync, role, extra);
    CommandActs(s, act);
    ConfigRoundTrip(freq, bandwidth, rate, power, sync, role, extra);
    hide *;
    ConfigStores(s.worker, Config(freq, power, role), body, act.around);
  }

  /** 'W' stores the slot's offset and period, and changes nothing else. */
  lemma WindowIsStored(s: Station, act: Act, offset: u32, period: u32)
    requires May(s, act) && act.ByteAct?
    requires EventOf(s.parser, act.b, act.around.now) == Some(P.SetWindow(offset, period))
    ensures var t := After(s, act);
            t.parser.slotOffset == offset && t.parser.slotPeriod == period && t.worker == s.worker
  {
    CommandActs(s, act);
    hide After, AnswerNotes, P.Words;
  }

  /** Only 'T', CONFIG and 'Q' act on the worker. */
  lemma OthersLeaveTheWorker(s: Station, act: Act)
    requires May(s, act) && act.ByteAct?
    requires var e := EventOf(s.parser, act.b, act.around.now);
             e.None? || (!e.value.Transmit? && !e.value.Configure? && !e.value.Scan?)
    ensures After(s, act).worker == s.worker
  {
    hide P.Step, P.Resync, EventOf, AnswerNotes, IsDrained;
  }

  // ----- terminals -----

  /** In every state the service reaches the i-th terminal told is for the i-th accepted frame:
      'G' with 511 if its burst succeeded, and otherwise 'E' 6 "tx dropped". */
  lemma TerminalsAreTold(states: seq<Station>, acts: seq<Act>, n: nat, i: nat)
    requires Serves(states, acts) && n <= |acts|
    ensures var x, told := states[n].worker.tx, Select(states[n].notes, IsEnding);
            && |told| == |x.terminals| <= |x.accepted|
            && (i < |told| ==>
                  && x.terminals[i].frame == x.accepted[i]
                  && told[i] == Told(Ending, if x.terminals[i].outcome == Ok then Ready(511)
                                             else Error(6, L.Ascii("tx dropped"))))
  {
    hide May, After, Select, L.Ascii, Frames;
    HostIsTold(states, acts, n);
    ServiceIsSafe(states, acts, n);
    var ts := states[n].worker.tx.terminals;
    EndingAt(ts, i);
    L.QueueTexts();
    if i < |ts| {
      FramesAt(ts, i);
      assert (Frames(ts) + states[n].worker.tx.queue)[i] == ts[i].frame;
    }
  }

  /** A terminal's code and text, those included that no run of the service has. */
  lemma TerminalCodes(t: Terminal)
    ensures TerminalFrame(t) ==
            match t
            case Ok => Ready(511)
            case Busy => Error(4, L.Ascii("tx dropped"))
            case Failed => Error(5, L.Ascii("tx aborted"))
            case Dropped => Error(6, L.Ascii("tx dropped"))
  {
    hide L.Ascii;
    L.QueueTexts();
  }

  /** Start-up is told by 'G' with 511 and statistics. */
  lemma StartIsTold(states: seq<Station>, acts: seq<Act>)
    requires Serves(states, acts)
    ensures |states[0].notes| == 2 && states[0].notes[0] == Told(Unasked, Ready(511))
    ensures states[0].notes[1].Told? && states[0].notes[1].frame.Stats? && |states[0].notes[1].frame.body| == 68
    ensures states[0].worker == STARTED && states[0].input.region.head == 0 && states[0].input.region.tail == 0
  {
  }
}
