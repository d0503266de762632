/** The radio worker as a state machine over its operations: the TX queue, the scan
    sweep, configuration and the thermal levels, with the traces they leave. */
module WorkerSpec {
  import opened Bytes
  import RxLoop
  import BurstTransmit

  const QUEUE_CAP := 16
  const MAX_SAFE_DBM := 10
  const THROTTLED_DBM := 4
  const BOOT_HZ: u32 := 915_000_000
  const THERMAL_PERIOD_MS := 4000
  const TX_ONLY: byte := 1
  const RX_ONLY: byte := 2

  datatype Terminal = Ok | Busy | Failed | Dropped

  datatype Config = Config(freqHz: u32, powerDbm: int, role: byte)
  datatype ScanParams = ScanParams(startHz: u32, stepHz: u32, count: byte, dwellMs: u32)

  /** A channel's result, as reported by diagnostics 50 to 53. */
  datatype Report = Report(freqHz: u32, frames: nat, consensus: nat, best: int)

  /** A frame's terminal, with the frame it is for. */
  datatype Finished = Finished(frame: seq<byte>, outcome: Terminal)

  /** A burst that was started: its frame, attempts and outcome, and what the radio had
      last been told when it started. */
  datatype AirBurst = AirBurst(frame: seq<byte>, ok: bool, burstId: u16, trace: seq<BurstTransmit.Attempt>,
                         level: int, powerDbm: int, pinHigh: bool, scanning: bool)

  /** The TX queue, and what became of the frames offered to it. */
  datatype TxSide = TxSide(queue: seq<seq<byte>>, accepted: seq<seq<byte>>, refused: nat,
                           terminals: seq<Finished>, bursts: seq<AirBurst>)

  /** The sweep under way (or the last one), and the reports sent. */
  datatype Sweep = Sweep(params: ScanParams, active: bool, homeHz: u32, idx: byte, dwellUntil: u32,
                         frames: nat, consensus: nat, best: int, reports: seq<Report>)

  /** What the radio was last told, and its power pin (GPIO44). */
  datatype Air = Air(tunedHz: u32, powerDbm: int, pinHigh: bool)

  datatype Worker = Worker(radioOk: bool, level: int, poweredDown: bool, lastThermalMs: u32,
                           cfg: Config, scan: Sweep, tx: TxSide, air: Air)

  // ----- the operations -----

  function MaxPower(level: int): int {
    if level >= 1 then THROTTLED_DBM else MAX_SAFE_DBM
  }

  /** Radio start-up: the power pin goes high before the radio may fail to start, always
      at 915 MHz and 10 dBm. */
  function Boot(s: Worker, ok: bool): Worker {
    s.(radioOk := s.radioOk || ok, air := Air(if ok then BOOT_HZ else s.air.tunedHz, MAX_SAFE_DBM, true))
  }

  function ApplyConfig(s: Worker, c: Config, tuneOk: bool): (Worker, bool) {
    if !s.radioOk then (s, false) else
      var power := Min(c.powerDbm, MaxPower(s.level));
      var changed := power != s.cfg.powerDbm;
      if !s.scan.active && c.freqHz == s.cfg.freqHz && !changed && c.role == s.cfg.role then (s, true) else
        var t := s.(scan := s.scan.(active := false), cfg := c.(powerDbm := power));
        if c.freqHz > 0 && !tuneOk then (t, false)
        else (t.(air := Air(if c.freqHz > 0 then c.freqHz else s.air.tunedHz,
                            if changed then power else s.air.powerDbm, s.air.pinHigh)), true)
  }

  /** Tune to `f` on behalf of the scan; the code ignores whether the radio obeys. */
  function ScanTune(s: Worker, f: u32, tuneOk: bool): Worker {
    s.(cfg := s.cfg.(freqHz := f), air := s.air.(tunedHz := if tuneOk then f else s.air.tunedHz))
  }

  function StartScan(s: Worker, p: ScanParams, now: u32, tuneOk: bool): Worker {
    var home := if !s.scan.active && s.cfg.freqHz > 0 then s.cfg.freqHz else s.scan.homeHz;
    var t := s.(scan := Sweep(p, true, home, 0, U32(now + p.dwellMs), 0, 0, -128, s.scan.reports));
    if s.radioOk && p.startHz > 0 then ScanTune(t, p.startHz, tuneOk) else t
  }

  function ChannelHz(p: ScanParams, i: nat): u32 {
    U32(p.startHz + i * p.stepHz)
  }

  /** The channel's dwell is over: its time has passed or consensus was heard. */
  predicate DwellOver(w: Sweep, now: u32) {
    w.consensus > 0 || !Before(now, w.dwellUntil)
  }

  function ScanTick(s: Worker, now: u32, tuneOk: bool): Worker
    requires s.scan.idx < 255
  {
    var w := s.scan;
    if !DwellOver(w, now) then s else
      var reports := w.reports + [Report(ChannelHz(w.params, w.idx), w.frames, w.consensus, w.best)];
      if w.idx + 1 >= w.params.count then
        var t := s.(scan := w.(reports := reports, idx := w.idx + 1, active := false));
        if s.radioOk && w.homeHz > 0 then ScanTune(t, w.homeHz, tuneOk) else t
      else
        ScanTune(s.(scan := w.(reports := reports, idx := w.idx + 1, frames := 0, consensus := 0, best := -128,
                               dwellUntil := U32(now + w.params.dwellMs))),
                 ChannelHz(w.params, w.idx + 1), tuneOk)
  }

  function Enqueue(s: Worker, payload: seq<byte>): (Worker, Terminal) {
    if !s.radioOk || s.level >= 2 || |s.tx.queue| >= QUEUE_CAP then
      (s.(tx := s.tx.(refused := s.tx.refused + 1)), Busy)
    else
      (s.(tx := s.tx.(queue := s.tx.queue + [payload], accepted := s.tx.accepted + [payload])), Ok)
  }

  function DropAll(frames: seq<seq<byte>>): seq<Finished> {
    if frames == [] then [] else [Finished(frames[0], Dropped)] + DropAll(frames[1..])
  }

  function Drained(x: TxSide): TxSide {
    x.(queue := [], terminals := x.terminals + DropAll(x.queue))
  }

  /** Leaving the thermal cutoff or the throttle for normal operation. */
  function Recover(s: Worker, throttled: bool, bootOk: bool, tuneOk: bool): Worker {
    if s.poweredDown then
      if bootOk then ApplyConfig(Boot(s, true).(poweredDown := false), s.cfg, tuneOk).0 else Boot(s, false)
    else if throttled && s.radioOk then s.(air := s.air.(powerDbm := s.cfg.powerDbm))
    else s
  }

  /** A new thermal level takes effect. */
  function SetLevel(s: Worker, level: int, bootOk: bool, tuneOk: bool): Worker {
    if level == s.level then s else
      var t := s.(level := level);
      if level == 2 then t.(poweredDown := true, air := s.air.(pinHigh := false), tx := Drained(s.tx))
      else if level == 1 then
        if s.radioOk && !s.poweredDown then t.(air := s.air.(powerDbm := THROTTLED_DBM)) else t
      else if level == 0 then Recover(t, s.level == 1, bootOk, tuneOk)
      else t
  }

  /** The thermal check, at most once in 4 s; `reading` is the level to move to. */
  function Thermal(s: Worker, now: u32, reading: Option<int>, bootOk: bool, tuneOk: bool): Worker {
    if s.lastThermalMs != 0 && U32(now - s.lastThermalMs) < THERMAL_PERIOD_MS then s else
      var t := s.(lastThermalMs := now);
      if reading.None? then t else SetLevel(t, reading.value, bootOk, tuneOk)
  }

  predicate MayTransmit(s: Worker) {
    s.cfg.role != RX_ONLY && !s.scan.active && s.level < 2
  }

  /** Send the oldest queued frame; `ok`, `burstId` and `trace` are how its burst went. */
  function Service(s: Worker, ok: bool, burstId: u16, trace: seq<BurstTransmit.Attempt>): Worker {
    if !MayTransmit(s) || s.tx.queue == [] then s else
      var frame := s.tx.queue[0];
      var b := AirBurst(frame, ok, burstId, trace, s.level, s.air.powerDbm, s.air.pinHigh, s.scan.active);
      s.(tx := s.tx.(queue := s.tx.queue[1..], bursts := s.tx.bursts + [b],
                     terminals := s.tx.terminals + [Finished(frame, if ok then Ok else Dropped)]))
  }

  /** A receive loop that read the packets `read` adds them to the scan's counters. */
  function Received(s: Worker, read: seq<RxLoop.Rx>): Worker {
    var w, t := s.scan, RxLoop.TallyOf(s.scan.active, s.scan.best, read);
    s.(scan := w.(frames := w.frames + t.scanFrames, consensus := w.consensus + t.scanConsensus, best := t.best))
  }

  datatype Op =
    | EnqueueOp(payload: seq<byte>)
    | ConfigOp(c: Config, tuned: bool)
    | ScanOp(p: ScanParams, startMs: u32, tuned: bool)
    | TickOp(tickMs: u32, tuned: bool)
    | ThermalOp(checkMs: u32, reading: Option<int>, booted: bool, tuned: bool)
    | ServiceOp(ok: bool, burstId: u16, trace: seq<BurstTransmit.Attempt>)
    | ReceivedOp(read: seq<RxLoop.Rx>)

  /** Scans have 1 to 64 channels, the worker ticks only an active scan, and a burst goes
      one of the ways that the transmit loop can go with the frame. */
  ghost predicate Enabled(s: Worker, op: Op) {
    match op
    case ScanOp(p, _, _) => 1 <= p.count <= 64
    case TickOp(_, _) => s.scan.active && s.scan.idx < 255
    case ServiceOp(ok, id, trace) =>
      MayTransmit(s) && s.tx.queue != [] ==> BurstTransmit.SentAsBurst(s.tx.queue[0], ok, id, trace)
    case _ => true
  }

  function Step(s: Worker, op: Op): Worker
    requires Enabled(s, op)
  {
    match op
    case EnqueueOp(p) => Enqueue(s, p).0
    case ConfigOp(c, tuned) => ApplyConfig(s, c, tuned).0
    case ScanOp(p, now, tuned) => StartScan(s, p, now, tuned)
    case TickOp(now, tuned) => ScanTick(s, now, tuned)
    case ThermalOp(now, reading, booted, tuned) => Thermal(s, now, reading, booted, tuned)
    case ServiceOp(ok, id, trace) => Service(s, ok, id, trace)
    case ReceivedOp(read) => Received(s, read)
  }

  /** All states of a run, from `s` on. */
  ghost predicate Run(states: seq<Worker>, ops: seq<Op>) {
    && |states| == |ops| + 1
    && forall i :: 0 <= i < |ops| ==> Enabled(states[i], ops[i]) && states[i + 1] == Step(states[i], ops[i])
  }

  /** Performing `ops` one after the other leads from `s` to `t`. */
  ghost predicate Leads(s: Worker, ops: seq<Op>, t: Worker)
    decreases |ops|
  {
    if ops == [] then s == t else Enabled(s, ops[0]) && Leads(Step(s, ops[0]), ops[1..], t)
  }

  lemma {:induction false} LeadsOn(s: Worker, ops: seq<Op>, t: Worker, op: Op)
    requires Leads(s, ops, t) && Enabled(t, op)
    ensures Leads(s, ops + [op], Step(t, op))
    decreases |ops|
  {
    hide Step, Enabled;
    if ops == [] {
      assert Leads(Step(t, op), [], Step(t, op));
      assert [op][1..] == [];
    } else {
      assert (ops + [op])[1..] == ops[1..] + [op];
      LeadsOn(Step(s, ops[0]), ops[1..], t, op);
    }
  }

  lemma {:induction false} LeadsThrough(s: Worker, a: seq<Op>, t: Worker, b: seq<Op>, u: Worker)
    requires Leads(s, a, t) && Leads(t, b, u)
    ensures Leads(s, a + b, u)
    decreases |a|
  {
    hide Step, Enabled;
    if a == [] {
      assert a + b == b;
    } else {
      assert (a + b)[1..] == a[1..] + b;
      LeadsThrough(Step(s, a[0]), a[1..], t, b, u);
    }
  }

  /** The states on the way. */
  ghost function StatesOf(s: Worker, ops: seq<Op>): (states: seq<Worker>)
    ensures |states| == |ops| + 1 && states[0] == s
    decreases |ops|
  {
    if ops == [] then [s]
    else [s] + StatesOf(if Enabled(s, ops[0]) then Step(s, ops[0]) else s, ops[1..])
  }

  /** What leads from one state to another is a run: theorems about runs are theorems
      about everything the code's methods promise to perform. */
  lemma {:induction false} LeadsIsRun(s: Worker, ops: seq<Op>, t: Worker)
    requires Leads(s, ops, t)
    ensures Run(StatesOf(s, ops), ops) && StatesOf(s, ops)[|ops|] == t
    decreases |ops|
  {
    hide Step, Enabled;
    if ops != [] {
      LeadsIsRun(Step(s, ops[0]), ops[1..], t);
      var rest := StatesOf(Step(s, ops[0]), ops[1..]);
      assert StatesOf(s, ops) == [s] + rest;
      forall i | 0 <= i < |ops|
        ensures Enabled(StatesOf(s, ops)[i], ops[i]) && StatesOf(s, ops)[i + 1] == Step(StatesOf(s, ops)[i], ops[i])
      {
        if i > 0 {
          assert rest[i - 1 + 1] == Step(rest[i - 1], ops[1..][i - 1]);
        }
      }
    }
  }

  const EMPTY_TX := TxSide([], [], 0, [], [])
  const NO_SWEEP := Sweep(ScanParams(902_000_000, 1_000_000, 27, 300), false, BOOT_HZ, 0, 0, 0, 0, -128, [])

  /** The worker right after a successful start-up. */
  const STARTED := Worker(true, 0, false, 0, Config(BOOT_HZ, MAX_SAFE_DBM, 0), NO_SWEEP, EMPTY_TX,
                          Air(BOOT_HZ, MAX_SAFE_DBM, true))

  // ----- one terminal per accepted frame, in order -----

  function Frames(ts: seq<Finished>): (fs: seq<seq<byte>>)
    ensures |fs| == |ts|
  {
    if ts == [] then [] else [ts[0].frame] + Frames(ts[1..])
  }

  ghost predicate FinalOutcomes(ts: seq<Finished>) {
    forall i :: 0 <= i < |ts| ==> ts[i].outcome == Ok || ts[i].outcome == Dropped
  }

  /** Frames are served first come first served: the finished ones, then the queue. */
  ghost predicate Conserved(x: TxSide) {
    Frames(x.terminals) + x.queue == x.accepted && |x.queue| <= QUEUE_CAP && FinalOutcomes(x.terminals)
  }

  lemma {:induction false} FramesConcat(a: seq<Finished>, b: seq<Finished>)
    ensures Frames(a + b) == Frames(a) + Frames(b)
  {
    if a == [] {
      assert a + b == b;
    } else {
      assert (a + b)[1..] == a[1..] + b;
      FramesConcat(a[1..], b);
    }
  }

  lemma {:induction false} FramesOfDropAll(fs: seq<seq<byte>>)
    ensures Frames(DropAll(fs)) == fs && FinalOutcomes(DropAll(fs))
  {
    if fs != [] {
      FramesOfDropAll(fs[1..]);
    }
  }

  lemma {:induction false} FramesAt(ts: seq<Finished>, i: nat)
    requires i < |ts|
    ensures Frames(ts)[i] == ts[i].frame
  {
    if i > 0 {
      FramesAt(ts[1..], i - 1);
    }
  }

  lemma DrainConserves(x: TxSide)
    requires Conserved(x)
    ensures Conserved(Drained(x))
  {
    FramesConcat(x.terminals, DropAll(x.queue));
    FramesOfDropAll(x.queue);
  }

  lemma ServiceConserves(s: Worker, ok: bool, burstId: u16, trace: seq<BurstTransmit.Attempt>)
    requires Conserved(s.tx)
    ensures Conserved(Service(s, ok, burstId, trace).tx)
  {
    var x := s.tx;
    if x.queue != [] {
      var f := Finished(x.queue[0], if ok then Ok else Dropped);
      FramesConcat(x.terminals, [f]);
      assert Frames([f]) == [x.queue[0]];
      assert x.queue == [x.queue[0]] + x.queue[1..];
      assert Frames(x.terminals) + x.queue == (Frames(x.terminals) + [x.queue[0]]) + x.queue[1..];
    }
  }

  lemma EnqueueConserves(s: Worker, payload: seq<byte>)
    requires Conserved(s.tx)
    ensures Conserved(Enqueue(s, payload).0.tx)
  {
  }

  /** Only a drain touches the frames when the thermal level changes. */
  lemma SetLevelTx(s: Worker, level: int, bootOk: bool, tuneOk: bool)
    ensures SetLevel(s, level, bootOk, tuneOk).tx == if level != s.level && level == 2 then Drained(s.tx) else s.tx
  {
  }

  lemma StepConserves(s: Worker, op: Op)
    requires Enabled(s, op) && Conserved(s.tx)
    ensures Conserved(Step(s, op).tx)
  {
    hide Conserved, Service, Enqueue, Drained, SetLevel, DwellOver;
    match op
    case ThermalOp(now, reading, booted, tuned) =>
      if reading.Some? {
        SetLevelTx(s.(lastThermalMs := now), reading.value, booted, tuned);
        DrainConserves(s.tx);
      }
    case ServiceOp(ok, id, trace) => ServiceConserves(s, ok, id, trace);
    case EnqueueOp(p) => EnqueueConserves(s, p);
    case _ =>
  }

  /** Over every run: accepted frames are the finished ones and the queued ones, the
      i-th terminal is for the i-th accepted frame, and at most 16 frames wait. */
  lemma {:induction false} OneTerminalPerFrame(states: seq<Worker>, ops: seq<Op>, n: nat)
    requires Run(states, ops) && states[0] == STARTED && n < |states|
    ensures var x := states[n].tx;
            && Conserved(x)
            && |x.accepted| == |x.terminals| + |x.queue| && |x.queue| <= 16
            && forall i :: 0 <= i < |x.terminals| ==> x.terminals[i].frame == x.accepted[i]
  {
    hide Step, Enabled;
    if n > 0 {
      OneTerminalPerFrame(states, ops, n - 1);
      assert states[n - 1 + 1] == Step(states[n - 1], ops[n - 1]);
      StepConserves(states[n - 1], ops[n - 1]);
    }
    var x := states[n].tx;
    forall i | 0 <= i < |x.terminals|
      ensures x.terminals[i].frame == x.accepted[i]
    {
      FramesAt(x.terminals, i);
      assert (Frames(x.terminals) + x.queue)[i] == x.terminals[i].frame;
    }
  }
}
