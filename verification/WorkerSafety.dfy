/** What the worker keeps over whole runs: thermal limits on power and transmission,
    the exactness of sweeps, and where the radio is tuned. */
module WorkerSafety {
  import opened Bytes
  import opened WorkerSpec
  import BurstTransmit
  import Hysteresis
  import RxLoop

  // ----- thermal safety -----

  ghost predicate SafeBurst(b: AirBurst) {
    b.powerDbm <= MAX_SAFE_DBM && b.level < 2 && !b.scanning
  }

  /** The radio's pin is low only while the worker has it marked as powered down, and
      surely so in the cutoff; the throttle's limit holds unless it is so marked. */
  ghost predicate ThermallySafe(s: Worker) {
    && s.radioOk && s.air.powerDbm <= MAX_SAFE_DBM && s.cfg.powerDbm <= MAX_SAFE_DBM
    && (!s.air.pinHigh ==> s.poweredDown)
    && (s.level == 1 && !s.poweredDown ==> s.air.powerDbm <= THROTTLED_DBM)
    && (s.level == 2 ==> s.poweredDown && !s.air.pinHigh && s.tx.queue == [])
    && forall i :: 0 <= i < |s.tx.bursts| ==> SafeBurst(s.tx.bursts[i])
  }

  lemma SetLevelIsSafe(s: Worker, level: int, bootOk: bool, tuneOk: bool)
    requires ThermallySafe(s)
    ensures ThermallySafe(SetLevel(s, level, bootOk, tuneOk))
  {
  }

  lemma StepIsSafe(s: Worker, op: Op)
    requires Enabled(s, op) && ThermallySafe(s)
    ensures ThermallySafe(Step(s, op))
  {
    hide SetLevel, DwellOver, BurstTransmit.SentAsBurst, RxLoop.TallyOf;
    if op.ThermalOp? && op.reading.Some? {
      SetLevelIsSafe(s.(lastThermalMs := op.checkMs), op.reading.value, op.booted, op.tuned);
    }
  }

  /** Over every run, with whatever integer levels the thermal source supplies: power is
      never commanded above 10 dBm; at level 2 the power pin is low and the queue is
      empty; and every burst ever started met the 10 dBm limit, below level 2 and
      outside scans. */
  lemma {:induction false} RunIsThermallySafe(states: seq<Worker>, ops: seq<Op>, n: nat)
    requires Run(states, ops) && states[0] == STARTED && n < |states|
    ensures ThermallySafe(states[n])
  {
    hide Step, Enabled, ThermallySafe;
    if n == 0 {
      StartedIsSafe();
    } else {
      RunIsThermallySafe(states, ops, n - 1);
      assert states[n - 1 + 1] == Step(states[n - 1], ops[n - 1]);
      StepIsSafe(states[n - 1], ops[n - 1]);
    }
  }

  lemma StartedIsSafe()
    ensures ThermallySafe(STARTED)
  {
  }

  /** The operation makes the worker change to `level`. */
  predicate MovesTo(s: Worker, op: Op, level: int) {
    && op.ThermalOp? && op.reading == Some(level) && s.level != level
    && !(s.lastThermalMs != 0 && U32(op.checkMs - s.lastThermalMs) < THERMAL_PERIOD_MS)
  }

  // ----- the throttle's limit, over the power pin -----

  // A restart that fails leaves the pin high at 10 dBm and the radio marked as powered
  // down, and throttling such a radio does not lower its power.

  ghost predicate WithinLimit(s: Worker) {
    s.level == 1 && s.air.pinHigh ==> s.air.powerDbm <= THROTTLED_DBM
  }

  ghost predicate LimitedBursts(s: Worker) {
    forall i :: 0 <= i < |s.tx.bursts| ==>
      (s.tx.bursts[i].level == 1 && s.tx.bursts[i].pinHigh ==> s.tx.bursts[i].powerDbm <= THROTTLED_DBM)
  }

  /** The throttle takes effect on a radio that has power above 4 dBm but is marked as
      powered down. */
  predicate ThrottlesInVain(s: Worker, op: Op) {
    MovesTo(s, op, 1) && s.poweredDown && s.air.pinHigh && s.air.powerDbm > THROTTLED_DBM
  }

  lemma SetLevelKeepsLimit(s: Worker, level: int, bootOk: bool, tuneOk: bool)
    requires ThermallySafe(s) && level != s.level
    ensures WithinLimit(SetLevel(s, level, bootOk, tuneOk)) <==>
            !(level == 1 && s.poweredDown && s.air.pinHigh && s.air.powerDbm > THROTTLED_DBM)
  {
  }

  lemma StepKeepsLimit(s: Worker, op: Op)
    requires Enabled(s, op) && ThermallySafe(s) && WithinLimit(s)
    ensures WithinLimit(Step(s, op)) <==> !ThrottlesInVain(s, op)
    ensures LimitedBursts(s) ==> LimitedBursts(Step(s, op))
  {
    hide SetLevel, DwellOver, BurstTransmit.SentAsBurst, RxLoop.TallyOf;
    if op.ThermalOp? && op.reading.Some? {
      var t := s.(lastThermalMs := op.checkMs);
      if t.level != op.reading.value {
        SetLevelKeepsLimit(t, op.reading.value, op.booted, op.tuned);
      }
      SetLevelTx(t, op.reading.value, op.booted, op.tuned);
      SameLevel(t, op.booted, op.tuned);
    }
  }

  lemma SameLevel(s: Worker, bootOk: bool, tuneOk: bool)
    ensures SetLevel(s, s.level, bootOk, tuneOk) == s
  {
  }

  lemma {:induction false} PrefixKeepsLimit(states: seq<Worker>, ops: seq<Op>, n: nat)
    requires Run(states, ops) && states[0] == STARTED && n < |states|
    requires forall i :: 0 <= i < n ==> !ThrottlesInVain(states[i], ops[i])
    ensures WithinLimit(states[n]) && LimitedBursts(states[n])
  {
    hide Step, Enabled, ThermallySafe, ThrottlesInVain;
    if n > 0 {
      PrefixKeepsLimit(states, ops, n - 1);
      assert states[n - 1 + 1] == Step(states[n - 1], ops[n - 1]);
      RunIsThermallySafe(states, ops, n - 1);
      StepKeepsLimit(states[n - 1], ops[n - 1]);
    }
  }

  /** In every state of a run a powered radio is limited to 4 dBm while throttled, if and
      only if the throttle never takes effect in vain; every burst then kept the limit. */
  lemma LimitHoldsExactly(states: seq<Worker>, ops: seq<Op>)
    requires Run(states, ops) && states[0] == STARTED
    ensures (forall n :: 0 <= n < |states| ==> WithinLimit(states[n])) <==>
            (forall i :: 0 <= i < |ops| ==> !ThrottlesInVain(states[i], ops[i]))
    ensures (forall i :: 0 <= i < |ops| ==> !ThrottlesInVain(states[i], ops[i])) ==>
              LimitedBursts(states[|ops|])
  {
    hide Step, Enabled, WithinLimit, LimitedBursts, ThrottlesInVain;
    if i :| 0 <= i < |ops| && ThrottlesInVain(states[i], ops[i]) {
      if WithinLimit(states[i]) {
        RunIsThermallySafe(states, ops, i);
        StepKeepsLimit(states[i], ops[i]);
        assert !WithinLimit(states[i + 1]);
      }
    } else {
      forall n | 0 <= n < |states|
        ensures WithinLimit(states[n]) && LimitedBursts(states[n])
      {
        PrefixKeepsLimit(states, ops, n);
      }
    }
  }

  /** The radio starts whenever a change to level 0 restarts it. */
  predicate RestartSucceeds(s: Worker, op: Op) {
    MovesTo(s, op, 0) && s.poweredDown ==> op.booted
  }

  lemma StepMarksExactly(s: Worker, op: Op)
    requires Enabled(s, op) && RestartSucceeds(s, op) && (s.poweredDown ==> !s.air.pinHigh)
    ensures Step(s, op).poweredDown ==> !Step(s, op).air.pinHigh
  {
    hide DwellOver, BurstTransmit.SentAsBurst, RxLoop.TallyOf, DropAll;
  }

  /** As long as every restart succeeds, the throttle is never in vain. */
  lemma {:induction false} RestartsKeepTheLimit(states: seq<Worker>, ops: seq<Op>, n: nat)
    requires Run(states, ops) && states[0] == STARTED && n < |states|
    requires forall i :: 0 <= i < |ops| ==> RestartSucceeds(states[i], ops[i])
    ensures states[n].poweredDown ==> !states[n].air.pinHigh
    ensures n < |ops| ==> !ThrottlesInVain(states[n], ops[n])
  {
    hide Step, Enabled, RestartSucceeds, MovesTo;
    if n > 0 {
      RestartsKeepTheLimit(states, ops, n - 1);
      assert states[n - 1 + 1] == Step(states[n - 1], ops[n - 1]);
      StepMarksExactly(states[n - 1], ops[n - 1]);
    }
  }

  /** The failing run: cutoff, a restart that fails, throttle. The next frame offered is
      sent at level 1 with the power pin high and 10 dBm. */
  lemma ThrottledAtFullPower(payload: seq<byte>, ok: bool, burstId: u16, trace: seq<BurstTransmit.Attempt>)
    returns (states: seq<Worker>, ops: seq<Op>)
    requires BurstTransmit.SentAsBurst(payload, ok, burstId, trace)
    ensures Run(states, ops) && states[0] == STARTED && |ops| == 5
    ensures ThrottlesInVain(states[2], ops[2])
    ensures var x := states[5].tx;
            x.bursts == [AirBurst(payload, ok, burstId, trace, 1, MAX_SAFE_DBM, true, false)]
  {
    hide BurstTransmit.SentAsBurst;
    ops := [ThermalOp(4000, Some(2), false, true), ThermalOp(8000, Some(0), false, true),
            ThermalOp(12000, Some(1), false, true), EnqueueOp(payload), ServiceOp(ok, burstId, trace)];
    var s1 := STARTED.(lastThermalMs := 4000, level := 2, poweredDown := true, air := Air(BOOT_HZ, MAX_SAFE_DBM, false));
    var s2 := s1.(lastThermalMs := 8000, level := 0, air := Air(BOOT_HZ, MAX_SAFE_DBM, true));
    var s3 := s2.(lastThermalMs := 12000, level := 1);
    var s4 := Step(s3, ops[3]);
    assert Step(STARTED, ops[0]) == s1 && Step(s1, ops[1]) == s2 && Step(s2, ops[2]) == s3;
    assert Enabled(s4, ops[4]);
    states := [STARTED, s1, s2, s3, s4, Step(s4, ops[4])];
  }

  // ----- transmitting without power -----

  // Leaving the cutoff for another level than 0 does not power the radio up again, yet
  // transmission is allowed below level 2.

  ghost predicate Lit(s: Worker) {
    s.level < 2 ==> s.air.pinHigh
  }

  ghost predicate NoDarkBursts(s: Worker) {
    forall i :: 0 <= i < |s.tx.bursts| ==> s.tx.bursts[i].pinHigh
  }

  /** A change to a transmitting level other than 0 while the power pin is low. */
  predicate EntersDark(s: Worker, op: Op) {
    && op.ThermalOp? && op.reading.Some? && MovesTo(s, op, op.reading.value)
    && op.reading.value < 2 && op.reading.value != 0 && !s.air.pinHigh
  }

  lemma SetLevelStaysLit(s: Worker, level: int, bootOk: bool, tuneOk: bool)
    requires ThermallySafe(s) && level != s.level
    ensures Lit(SetLevel(s, level, bootOk, tuneOk)) <==> !(level < 2 && level != 0 && !s.air.pinHigh)
  {
  }

  lemma StepStaysLit(s: Worker, op: Op)
    requires Enabled(s, op) && ThermallySafe(s) && Lit(s)
    ensures Lit(Step(s, op)) <==> !EntersDark(s, op)
    ensures NoDarkBursts(s) ==> NoDarkBursts(Step(s, op))
  {
    hide SetLevel, DwellOver, BurstTransmit.SentAsBurst, RxLoop.TallyOf;
    if op.ThermalOp? && op.reading.Some? {
      var t := s.(lastThermalMs := op.checkMs);
      if t.level != op.reading.value {
        SetLevelStaysLit(t, op.reading.value, op.booted, op.tuned);
      }
      SetLevelTx(t, op.reading.value, op.booted, op.tuned);
      SameLevel(t, op.booted, op.tuned);
    }
  }

  lemma {:induction false} PrefixStaysLit(states: seq<Worker>, ops: seq<Op>, n: nat)
    requires Run(states, ops) && states[0] == STARTED && n < |states|
    requires forall i :: 0 <= i < n ==> !EntersDark(states[i], ops[i])
    ensures Lit(states[n]) && NoDarkBursts(states[n])
  {
    hide Step, Enabled, ThermallySafe, EntersDark;
    if n > 0 {
      PrefixStaysLit(states, ops, n - 1);
      assert states[n - 1 + 1] == Step(states[n - 1], ops[n - 1]);
      RunIsThermallySafe(states, ops, n - 1);
      StepStaysLit(states[n - 1], ops[n - 1]);
    }
  }

  /** In every state of a run the radio has power wherever transmission is allowed, if
      and only if no step enters such a level in the dark; then no burst was ever started
      without power. */
  lemma DarkExactly(states: seq<Worker>, ops: seq<Op>)
    requires Run(states, ops) && states[0] == STARTED
    ensures (forall n :: 0 <= n < |states| ==> Lit(states[n])) <==>
            (forall i :: 0 <= i < |ops| ==> !EntersDark(states[i], ops[i]))
    ensures (forall i :: 0 <= i < |ops| ==> !EntersDark(states[i], ops[i])) ==> NoDarkBursts(states[|ops|])
  {
    hide Step, Enabled, Lit, NoDarkBursts, EntersDark;
    if i :| 0 <= i < |ops| && EntersDark(states[i], ops[i]) {
      if Lit(states[i]) {
        RunIsThermallySafe(states, ops, i);
        StepStaysLit(states[i], ops[i]);
        assert !Lit(states[i + 1]);
      }
    } else {
      forall n | 0 <= n < |states|
        ensures Lit(states[n]) && NoDarkBursts(states[n])
      {
        PrefixStaysLit(states, ops, n);
      }
    }
  }

  /** After such a step the next frame offered goes to a radio without power, unless the
      role is receive-only or a scan is active. */
  lemma DarkEntryTransmits(s: Worker, op: Op, payload: seq<byte>, ok: bool, burstId: u16,
                           trace: seq<BurstTransmit.Attempt>)
    requires Enabled(s, op) && ThermallySafe(s) && EntersDark(s, op)
    requires s.tx.queue == [] && s.cfg.role != RX_ONLY && !s.scan.active
    ensures var t := Service(Enqueue(Step(s, op), payload).0, ok, burstId, trace);
            t.tx.bursts == s.tx.bursts + [AirBurst(payload, ok, burstId, trace, op.reading.value,
                                                   s.air.powerDbm, false, false)]
  {
  }

  /** Such a run: cutoff, throttle. The next frame offered is sent at level 1 with the
      power pin low. */
  lemma SentInTheDark(payload: seq<byte>, ok: bool, burstId: u16, trace: seq<BurstTransmit.Attempt>)
    returns (states: seq<Worker>, ops: seq<Op>)
    requires BurstTransmit.SentAsBurst(payload, ok, burstId, trace)
    ensures Run(states, ops) && states[0] == STARTED && |ops| == 4
    ensures EntersDark(states[1], ops[1])
    ensures states[4].tx.bursts == [AirBurst(payload, ok, burstId, trace, 1, MAX_SAFE_DBM, false, false)]
  {
    hide BurstTransmit.SentAsBurst;
    ops := [ThermalOp(4000, Some(2), true, true), ThermalOp(8000, Some(1), true, true), EnqueueOp(payload),
            ServiceOp(ok, burstId, trace)];
    var s1 := STARTED.(lastThermalMs := 4000, level := 2, poweredDown := true, air := Air(BOOT_HZ, MAX_SAFE_DBM, false));
    var s2 := s1.(lastThermalMs := 8000, level := 1);
    var s3 := Step(s2, ops[2]);
    assert Step(STARTED, ops[0]) == s1 && Step(s1, ops[1]) == s2;
    assert Enabled(s3, ops[3]);
    states := [STARTED, s1, s2, s3, Step(s3, ops[3])];
  }

  /** The level is asked for by the temperature path of the worker itself. */
  ghost predicate FromFallback(s: Worker, op: Op) {
    op.ThermalOp? ==> exists t: real :: op.reading == Hysteresis.FallbackReading(s.level, t)
  }

  lemma FallbackStepIsLit(s: Worker, op: Op)
    requires Enabled(s, op) && ThermallySafe(s) && FromFallback(s, op) && (!s.air.pinHigh ==> s.level == 2)
    ensures !EntersDark(s, op)
    ensures !Step(s, op).air.pinHigh ==> Step(s, op).level == 2
  {
    hide DwellOver, BurstTransmit.SentAsBurst, RxLoop.TallyOf, DropAll;
  }

  /** On that path alone no step ever enters a transmitting level in the dark, so (by
      DarkExactly) no burst is started without power, failed restarts included. */
  lemma {:induction false} FallbackNeverEntersDark(states: seq<Worker>, ops: seq<Op>, n: nat)
    requires Run(states, ops) && states[0] == STARTED && n < |states|
    requires forall i :: 0 <= i < |ops| ==> FromFallback(states[i], ops[i])
    ensures !states[n].air.pinHigh ==> states[n].level == 2
    ensures n < |ops| ==> !EntersDark(states[n], ops[n])
  {
    hide Step, Enabled, FromFallback, EntersDark, ThermallySafe;
    RunIsThermallySafe(states, ops, n);
    if n > 0 {
      FallbackNeverEntersDark(states, ops, n - 1);
      assert states[n - 1 + 1] == Step(states[n - 1], ops[n - 1]);
      RunIsThermallySafe(states, ops, n - 1);
      FallbackStepIsLit(states[n - 1], ops[n - 1]);
    }
    if n < |ops| {
      FallbackStepIsLit(states[n], ops[n]);
    }
  }

  // ----- sweeps -----

  /** What a channel's report must say when `heard` was read while it was dwelt on. */
  function ReportOf(p: ScanParams, i: nat, heard: seq<RxLoop.Rx>): Report {
    Report(ChannelHz(p, i), |heard|, RxLoop.CountConsensus(heard), RxLoop.BestRssi(-128, heard))
  }

  /** A sweep whose reports start at index `base` and whose channels, the current one
      included, heard the packets `channels`. */
  ghost predicate SweepSoFar(w: Sweep, p: ScanParams, base: nat, channels: seq<seq<RxLoop.Rx>>) {
    && w.params == p && 1 <= p.count <= 64
    && |w.reports| == base + w.idx
    && |channels| == w.idx + (if w.active then 1 else 0)
    && (if w.active then w.idx < p.count else w.idx == p.count)
    && (forall i :: 0 <= i < w.idx ==> w.reports[base + i] == ReportOf(p, i, channels[i]))
    && (w.active ==> ReportOf(p, w.idx, channels[w.idx])
                     == Report(ChannelHz(p, w.idx), w.frames, w.consensus, w.best))
  }

  /** The packets read on each channel of the sweep that operation 0 starts, up to state n. */
  function ChannelsHeard(states: seq<Worker>, ops: seq<Op>, n: nat): (channels: seq<seq<RxLoop.Rx>>)
    requires 1 <= n <= |ops| < |states|
    ensures channels != []
  {
    if n == 1 then [[]] else
      HeardStep(ChannelsHeard(states, ops, n - 1), states[n - 1].scan, ops[n - 1], states[n].scan)
  }

  /** A receive loop during the sweep adds to the current channel; a new channel starts
      when the sweep moves on. */
  function HeardStep(channels: seq<seq<RxLoop.Rx>>, w: Sweep, op: Op, w': Sweep): (r: seq<seq<RxLoop.Rx>>)
    requires channels != []
    ensures r != []
  {
    var last := |channels| - 1;
    if op.ReceivedOp? && w.active then channels[..last] + [channels[last] + op.read]
    else if w'.active && w'.idx > w.idx then channels + [[]]
    else channels
  }

  /** Operations that do not end a sweep early: no new scan or CONFIG, and no recovery
      from a powered-down radio. */
  predicate LeavesSweep(s: Worker, op: Op) {
    match op
    case ConfigOp(_, _) => false
    case ScanOp(_, _, _) => false
    case ThermalOp(_, reading, _, _) => s.poweredDown ==> reading != Some(0)
    case _ => true
  }

  lemma {:induction false} TalliesAdd(best: int, a: seq<RxLoop.Rx>, b: seq<RxLoop.Rx>)
    ensures RxLoop.CountConsensus(a + b) == RxLoop.CountConsensus(a) + RxLoop.CountConsensus(b)
    ensures RxLoop.BestRssi(best, a + b) == RxLoop.BestRssi(RxLoop.BestRssi(best, a), b)
  {
    if b == [] {
      assert a + b == a;
    } else {
      var n := |b| - 1;
      assert (a + b)[..|a + b| - 1] == a + b[..n];
      TalliesAdd(best, a, b[..n]);
    }
  }

  lemma TickKeepsSweep(s: Worker, op: Op, p: ScanParams, base: nat, channels: seq<seq<RxLoop.Rx>>)
    requires op.TickOp? && Enabled(s, op) && SweepSoFar(s.scan, p, base, channels)
    ensures SweepSoFar(Step(s, op).scan, p, base, HeardStep(channels, s.scan, op, Step(s, op).scan))
  {
    hide RxLoop.CountConsensus, RxLoop.BestRssi, RxLoop.TallyOf, ChannelHz, DwellOver, DropAll, BurstTransmit.SentAsBurst,
         Service, Enqueue, SetLevel, StartScan, ApplyConfig;
    var w := s.scan;
    var r := Report(ChannelHz(w.params, w.idx), w.frames, w.consensus, w.best);
    var t := Step(s, op).scan;
    NothingHeard();
    if DwellOver(w, op.tickMs) {
      assert t.reports == w.reports + [r];
    }
  }

  lemma NothingHeard()
    ensures RxLoop.CountConsensus([]) == 0 && RxLoop.BestRssi(-128, []) == -128
  {
  }

  lemma ReceiveKeepsSweep(s: Worker, op: Op, p: ScanParams, base: nat, channels: seq<seq<RxLoop.Rx>>)
    requires op.ReceivedOp? && SweepSoFar(s.scan, p, base, channels) && channels != []
    ensures SweepSoFar(Step(s, op).scan, p, base, HeardStep(channels, s.scan, op, Step(s, op).scan))
  {
    hide RxLoop.CountConsensus, RxLoop.BestRssi, RxLoop.CountFinal, ChannelHz;
    if s.scan.active {
      TalliesAdd(-128, channels[s.scan.idx], op.read);
    }
  }

  lemma StepKeepsSweep(s: Worker, op: Op, p: ScanParams, base: nat, channels: seq<seq<RxLoop.Rx>>)
    requires Enabled(s, op) && LeavesSweep(s, op) && SweepSoFar(s.scan, p, base, channels) && channels != []
    ensures SweepSoFar(Step(s, op).scan, p, base, HeardStep(channels, s.scan, op, Step(s, op).scan))
  {
    hide ScanTick, ChannelHz, DropAll, ReportOf, Received, BurstTransmit.SentAsBurst;
    if op.TickOp? {
      TickKeepsSweep(s, op, p, base, channels);
    } else if op.ReceivedOp? {
      ReceiveKeepsSweep(s, op, p, base, channels);
    } else {
      assert Step(s, op).scan == s.scan;
    }
  }

  /** An uninterrupted sweep reports channel after channel of its grid and, once over,
      exactly `count` of them; each report counts exactly the packets read while that
      channel was dwelt on. */
  lemma {:induction false} SweepIsExact(states: seq<Worker>, ops: seq<Op>, n: nat)
    requires Run(states, ops) && 1 <= n < |states| && ops[0].ScanOp?
    requires forall i :: 1 <= i < |ops| ==> LeavesSweep(states[i], ops[i])
    ensures SweepSoFar(states[n].scan, ops[0].p, |states[0].scan.reports|, ChannelsHeard(states, ops, n))
  {
    hide Step, Enabled, LeavesSweep, SweepSoFar, HeardStep;
    assert states[n - 1 + 1] == Step(states[n - 1], ops[n - 1]);
    if n == 1 {
      ScanStartsSweep(states[0], ops[0]);
    } else {
      SweepIsExact(states, ops, n - 1);
      StepKeepsSweep(states[n - 1], ops[n - 1], ops[0].p, |states[0].scan.reports|,
                     ChannelsHeard(states, ops, n - 1));
    }
  }

  lemma ScanStartsSweep(s: Worker, op: Op)
    requires Enabled(s, op) && op.ScanOp?
    ensures SweepSoFar(Step(s, op).scan, op.p, |s.scan.reports|, [[]])
    ensures Step(s, op).scan.active
  {
  }

  /** A channel that started at the real time `start` ends at the first tick at which
      its dwell has really passed or consensus was heard, wherever the clock wraps, as
      long as ticks are less than 2^31 ms apart. */
  lemma DwellEndsInRealTime(s: Worker, start: nat, now: nat, tuneOk: bool)
    requires s.scan.idx < 255 && s.scan.params.dwellMs < TWO_31
    requires s.scan.dwellUntil == U32(start + s.scan.params.dwellMs)
    requires start <= now < start + s.scan.params.dwellMs + TWO_31
    ensures var t := ScanTick(s, U32(now), tuneOk);
            && (|t.scan.reports| > |s.scan.reports| <==>
                s.scan.consensus > 0 || now >= start + s.scan.params.dwellMs)
            && (|t.scan.reports| > |s.scan.reports| && t.scan.active ==>
                t.scan.dwellUntil == U32(now + s.scan.params.dwellMs))
  {
    BeforeIsRealTime(now, start + s.scan.params.dwellMs);
    SumWraps(now, s.scan.params.dwellMs);
  }

  /** The real time at which the channel of state `n` started, when operation i of the
      run happens at `times[i]`. */
  function ChannelStart(states: seq<Worker>, times: seq<nat>, n: nat): nat
    requires 1 <= n <= |times| < |states|
  {
    if n == 1 then times[0]
    else if |states[n].scan.reports| > |states[n - 1].scan.reports| then times[n - 1]
    else ChannelStart(states, times, n - 1)
  }

  /** The code reads each operation's real time modulo 2^32. */
  predicate ReadsClock(op: Op, time: nat) {
    match op
    case ScanOp(_, ms, _) => ms == U32(time)
    case TickOp(ms, _) => ms == U32(time)
    case _ => true
  }

  /** The run's operations happen in order, and each tick comes less than 2^31 ms after
      its channel is due. */
  ghost predicate Timed(states: seq<Worker>, ops: seq<Op>, times: seq<nat>)
    requires |states| == |ops| + 1 == |times| + 1
  {
    && (forall i :: 0 <= i < |ops| ==> ReadsClock(ops[i], times[i]))
    && (forall i :: 1 <= i < |ops| ==> times[i - 1] <= times[i])
    && forall i :: 1 <= i < |ops| && ops[i].TickOp? ==>
         times[i] < ChannelStart(states, times, i) + states[i].scan.params.dwellMs + TWO_31
  }

  ghost predicate DwellsFrom(w: Sweep, start: nat, p: ScanParams) {
    w.params == p && (w.active ==> w.dwellUntil == U32(start + p.dwellMs))
  }

  lemma StepKeepsDwell(s: Worker, op: Op, start: nat, time: nat, p: ScanParams)
    requires Enabled(s, op) && LeavesSweep(s, op) && ReadsClock(op, time) && p.dwellMs < TWO_31
    requires DwellsFrom(s.scan, start, p) && start <= time
    requires op.TickOp? ==> time < start + p.dwellMs + TWO_31
    ensures var t := Step(s, op);
            && |t.scan.reports| >= |s.scan.reports|
            && DwellsFrom(t.scan, if |t.scan.reports| > |s.scan.reports| then time else start, p)
    ensures op.TickOp? ==> (|Step(s, op).scan.reports| > |s.scan.reports| <==>
                            s.scan.consensus > 0 || time >= start + p.dwellMs)
  {
    hide ChannelHz, DropAll;
    if op.TickOp? {
      DwellEndsInRealTime(s, start, time, op.tuned);
    }
  }

  lemma {:induction false} SweepKeepsTime(states: seq<Worker>, ops: seq<Op>, times: seq<nat>, n: nat)
    requires Run(states, ops) && |times| == |ops| && Timed(states, ops, times)
    requires 1 <= n < |states| && ops[0].ScanOp? && ops[0].p.dwellMs < TWO_31
    requires forall i :: 1 <= i < |ops| ==> LeavesSweep(states[i], ops[i])
    ensures ChannelStart(states, times, n) <= times[n - 1]
    ensures DwellsFrom(states[n].scan, ChannelStart(states, times, n), ops[0].p)
  {
    hide Step, Enabled, LeavesSweep, DwellsFrom;
    assert states[n - 1 + 1] == Step(states[n - 1], ops[n - 1]);
    if n == 1 {
      ScanStartDwells(states[0], ops[0], times[0]);
    } else {
      SweepKeepsTime(states, ops, times, n - 1);
      ParamsStay(states[n - 1], ChannelStart(states, times, n - 1), ops[0].p);
      StepKeepsDwell(states[n - 1], ops[n - 1], ChannelStart(states, times, n - 1), times[n - 1], ops[0].p);
    }
  }

  lemma ParamsStay(s: Worker, start: nat, p: ScanParams)
    requires DwellsFrom(s.scan, start, p)
    ensures s.scan.params == p
  {
  }

  lemma ScanStartDwells(s: Worker, op: Op, time: nat)
    requires Enabled(s, op) && op.ScanOp? && ReadsClock(op, time)
    ensures DwellsFrom(Step(s, op).scan, time, op.p)
  {
  }

  /** In an uninterrupted sweep with a dwell below 2^31 ms, a tick ends the channel if
      and only if its dwell has really passed since the channel started or a consensus
      frame was counted. */
  lemma EachChannelDwells(states: seq<Worker>, ops: seq<Op>, times: seq<nat>, n: nat)
    requires Run(states, ops) && |times| == |ops|
    requires 1 <= n < |ops| && ops[0].ScanOp? && ops[0].p.dwellMs < TWO_31 && ops[n].TickOp?
    requires forall i :: 1 <= i < |ops| ==> LeavesSweep(states[i], ops[i])
    ensures Timed(states, ops, times) ==>
              (|states[n + 1].scan.reports| > |states[n].scan.reports| <==>
               states[n].scan.consensus > 0 || times[n] >= ChannelStart(states, times, n) + ops[0].p.dwellMs)
  {
    if Timed(states, ops, times) {
      SweepKeepsTime(states, ops, times, n);
      StepKeepsDwell(states[n], ops[n], ChannelStart(states, times, n), times[n], ops[0].p);
    }
  }

  lemma SumWraps(a: nat, b: nat)
    ensures U32(U32(a) + b) == U32(a + b)
  {
  }

  // ----- where the radio is tuned -----

  /** While scanning, the home frequency is the one in force before scanning began. */
  ghost predicate RemembersHome(s: Worker, home: u32) {
    s.radioOk && s.scan.active && s.scan.homeHz == home
  }

  /** Operations between the start of scanning and its completion, restarts included. */
  predicate KeepsScanning(s: Worker, op: Op) {
    op.ScanOp? || LeavesSweep(s, op)
  }

  /** Completing a sweep tunes back to the frequency in force before scanning first
      became active, whatever restarts happened in between. */
  lemma {:induction false} SweepReturnsHome(states: seq<Worker>, ops: seq<Op>, n: nat)
    requires Run(states, ops) && 1 <= n < |states|
    requires states[0].radioOk && !states[0].scan.active && states[0].cfg.freqHz > 0
    requires ops[0].ScanOp?
    requires forall i :: 1 <= i < n ==> KeepsScanning(states[i], ops[i])
    requires forall i :: 1 <= i < n ==> states[i].scan.active
    ensures states[n].scan.active ==> RemembersHome(states[n], states[0].cfg.freqHz)
    ensures !states[n].scan.active ==>
              && ops[n - 1].TickOp? && states[n].cfg.freqHz == states[0].cfg.freqHz
              && (ops[n - 1].tuned ==> states[n].air.tunedHz == states[0].cfg.freqHz)
  {
    hide Step, Enabled, KeepsScanning;
    assert states[n - 1 + 1] == Step(states[n - 1], ops[n - 1]);
    if n == 1 {
      ScanRemembersHome(states[0], ops[0]);
    } else {
      SweepReturnsHome(states, ops, n - 1);
      ScanningStep(states[n - 1], ops[n - 1], states[0].cfg.freqHz);
    }
  }

  lemma ScanRemembersHome(s: Worker, op: Op)
    requires Enabled(s, op) && op.ScanOp? && s.radioOk && !s.scan.active && s.cfg.freqHz > 0
    ensures RemembersHome(Step(s, op), s.cfg.freqHz)
  {
  }

  lemma ScanningStep(s: Worker, op: Op, home: u32)
    requires Enabled(s, op) && KeepsScanning(s, op) && RemembersHome(s, home) && home > 0
    ensures var t := Step(s, op);
            && (t.scan.active ==> RemembersHome(t, home))
            && (!t.scan.active ==> op.TickOp? && t.cfg.freqHz == home && (op.tuned ==> t.air.tunedHz == home))
  {
  }

  ghost predicate Tuned(s: Worker) {
    s.radioOk && s.air.tunedHz == s.cfg.freqHz
  }

  /** A CONFIG that the code takes for one already in effect. */
  predicate Unchanged(s: Worker, c: Config) {
    && !s.scan.active && c.freqHz == s.cfg.freqHz && c.role == s.cfg.role
    && Min(c.powerDbm, MaxPower(s.level)) == s.cfg.powerDbm
  }

  /** The frequency that an operation writes into the configuration, if any. */
  function Asked(s: Worker, op: Op): Option<u32>
    requires op.TickOp? ==> s.scan.idx < 255
  {
    match op
    case ConfigOp(c, _) => if s.radioOk && !Unchanged(s, c) then Some(c.freqHz) else None
    case ScanOp(p, _, _) => if s.radioOk && p.startHz > 0 then Some(p.startHz) else None
    case TickOp(now, _) =>
      if !DwellOver(s.scan, now) then None
      else if s.scan.idx + 1 < s.scan.params.count then Some(ChannelHz(s.scan.params, s.scan.idx + 1))
      else if s.radioOk && s.scan.homeHz > 0 then Some(s.scan.homeHz)
      else None
    case _ => None
  }

  /** The radio obeys the operation's tune. A CONFIG does not tune to frequency zero. */
  predicate TuneSucceeds(op: Op) {
    match op
    case ConfigOp(c, tuned) => tuned && c.freqHz > 0
    case ScanOp(_, _, tuned) => tuned
    case TickOp(_, tuned) => tuned
    case ThermalOp(_, _, _, tuned) => tuned
    case _ => true
  }

  /** The operation restarts the radio. */
  predicate Recovers(s: Worker, op: Op) {
    MovesTo(s, op, 0) && s.poweredDown && op.booted
  }

  /** A restart survives at 915 MHz, or when it ends a scan and its tune succeeds; any
      other operation survives when it asks for no frequency, for the one already tuned, or
      its tune succeeds. */
  predicate TuningSurvives(s: Worker, op: Op)
    requires op.TickOp? ==> s.scan.idx < 255
  {
    if Recovers(s, op) then
      s.cfg.freqHz == BOOT_HZ || (s.scan.active && s.cfg.freqHz > 0 && TuneSucceeds(op))
    else
      Asked(s, op).None? || Asked(s, op).value == s.air.tunedHz || TuneSucceeds(op)
  }

  /** One step keeps the radio tuned to the configured frequency exactly then. */
  lemma TuningIsKeptExactly(s: Worker, op: Op)
    requires Enabled(s, op) && Tuned(s) && s.cfg.powerDbm <= MAX_SAFE_DBM
    ensures Tuned(Step(s, op)) <==> TuningSurvives(s, op)
    ensures Recovers(s, op) && !s.scan.active ==>
              Step(s, op).air == Air(BOOT_HZ, MAX_SAFE_DBM, true) && Step(s, op).cfg == s.cfg
  {
    hide DwellOver, ChannelHz, BurstTransmit.SentAsBurst, RxLoop.TallyOf, DropAll;
  }

  lemma {:induction false} PrefixStaysTuned(states: seq<Worker>, ops: seq<Op>, n: nat)
    requires Run(states, ops) && states[0] == STARTED && n < |states|
    requires forall i :: 0 <= i < n ==> TuningSurvives(states[i], ops[i])
    ensures Tuned(states[n])
  {
    hide Step, TuningSurvives;
    if n > 0 {
      PrefixStaysTuned(states, ops, n - 1);
      assert states[n - 1 + 1] == Step(states[n - 1], ops[n - 1]);
      RunIsThermallySafe(states, ops, n - 1);
      TuningIsKeptExactly(states[n - 1], ops[n - 1]);
    }
  }

  /** In every state of a run the radio is tuned to the configured frequency, if and only
      if every operation of the run survives in this sense. */
  lemma RunStaysTuned(states: seq<Worker>, ops: seq<Op>)
    requires Run(states, ops) && states[0] == STARTED
    ensures (forall n :: 0 <= n < |states| ==> Tuned(states[n])) <==>
            (forall i :: 0 <= i < |ops| ==> TuningSurvives(states[i], ops[i]))
  {
    hide Step, Tuned, TuningSurvives;
    if i :| 0 <= i < |ops| && !TuningSurvives(states[i], ops[i]) {
      if Tuned(states[i]) {
        RunIsThermallySafe(states, ops, i);
        TuningIsKeptExactly(states[i], ops[i]);
        assert !Tuned(states[i + 1]);
      }
    } else {
      forall n | 0 <= n < |states|
        ensures Tuned(states[n])
      {
        PrefixStaysTuned(states, ops, n);
      }
    }
  }

  /** A run that loses the tuning to a recovery: another frequency is configured, then
      the worker is cut off and recovers with everything succeeding. */
  lemma TuningLostToRecovery(hz: u32) returns (states: seq<Worker>, ops: seq<Op>)
    requires hz != 0 && hz != BOOT_HZ
    ensures Run(states, ops) && states[0] == STARTED && |ops| == 3
    ensures ops[0] == ConfigOp(Config(hz, MAX_SAFE_DBM, 0), true) && Recovers(states[2], ops[2])
    ensures states[3].level == 0 && states[3].cfg.freqHz == hz && states[3].air.tunedHz == BOOT_HZ
  {
    ops := [ConfigOp(Config(hz, MAX_SAFE_DBM, 0), true), ThermalOp(4000, Some(2), true, true),
            ThermalOp(8000, Some(0), true, true)];
    var s1 := STARTED.(cfg := Config(hz, MAX_SAFE_DBM, 0), air := Air(hz, MAX_SAFE_DBM, true));
    var s2 := s1.(lastThermalMs := 4000, level := 2, poweredDown := true, air := Air(hz, MAX_SAFE_DBM, false));
    var s3 := s1.(lastThermalMs := 8000, air := Air(BOOT_HZ, MAX_SAFE_DBM, true));
    assert Step(STARTED, ops[0]) == s1 && Step(s1, ops[1]) == s2 && Step(s2, ops[2]) == s3;
    states := [STARTED, s1, s2, s3];
  }

  // ----- whether an accepted CONFIG is in force -----

  /** The radio is tuned and powered, and the role set, as the CONFIG says. */
  predicate InForce(s: Worker, c: Config) {
    && (c.freqHz > 0 ==> s.air.tunedHz == c.freqHz) && s.cfg.role == c.role
    && s.air.powerDbm == Min(c.powerDbm, MaxPower(s.level))
  }

  /** A CONFIG that is accepted (and so answered with 'G') is in force if and only if the
      radio already had what the code took for unchanged: the frequency, when nothing seemed
      to change, and the power, when it equals the configured one. */
  lemma AcceptedConfigIsInForceExactly(s: Worker, c: Config, tuneOk: bool)
    requires ApplyConfig(s, c, tuneOk).1
    ensures InForce(ApplyConfig(s, c, tuneOk).0, c) <==>
            && (Unchanged(s, c) && c.freqHz > 0 ==> s.air.tunedHz == c.freqHz)
            && (Min(c.powerDbm, MaxPower(s.level)) == s.cfg.powerDbm ==> s.air.powerDbm == s.cfg.powerDbm)
  {
  }

  /** The failing input: a CONFIG whose tune fails is refused but remembered, so the same
      CONFIG sent again is accepted, however often, while the radio stays on 915 MHz. */
  lemma RepeatedConfigIsNotInForce(c: Config, tuneOk: bool)
    requires c.freqHz != 0 && c.freqHz != BOOT_HZ
    ensures var (once, first) := ApplyConfig(STARTED, c, false);
            var (twice, second) := ApplyConfig(once, c, tuneOk);
            && !first && second && twice == once
            && twice.cfg.freqHz == c.freqHz && twice.air.tunedHz == BOOT_HZ && !InForce(twice, c)
  {
  }

  // ----- commanded against configured power -----

  ghost predicate AtMostConfigured(s: Worker) {
    s.air.powerDbm <= s.cfg.powerDbm
  }

  /** The throttle's 4 dBm and a restart's 10 dBm are commanded whatever is configured, and
      a CONFIG whose tune fails stores its power without commanding it. */
  predicate PowerSurvives(s: Worker, op: Op) {
    && (MovesTo(s, op, 1) && !s.poweredDown ==> s.cfg.powerDbm >= THROTTLED_DBM)
    && (MovesTo(s, op, 0) && s.poweredDown ==> s.cfg.powerDbm >= MAX_SAFE_DBM)
    && (op.ConfigOp? && !Unchanged(s, op.c) && op.c.freqHz > 0 && !op.tuned ==>
          s.air.powerDbm <= Min(op.c.powerDbm, MaxPower(s.level)))
  }

  /** One step keeps the commanded power at or below the configured one exactly then. */
  lemma PowerIsKeptExactly(s: Worker, op: Op)
    requires Enabled(s, op) && ThermallySafe(s) && AtMostConfigured(s)
    ensures AtMostConfigured(Step(s, op)) <==> PowerSurvives(s, op)
  {
    hide DwellOver, ChannelHz, BurstTransmit.SentAsBurst, RxLoop.TallyOf, DropAll, SafeBurst;
  }

  lemma {:induction false} PrefixKeepsPower(states: seq<Worker>, ops: seq<Op>, n: nat)
    requires Run(states, ops) && states[0] == STARTED && n < |states|
    requires forall i :: 0 <= i < n ==> PowerSurvives(states[i], ops[i])
    ensures AtMostConfigured(states[n])
  {
    hide Step, Enabled, PowerSurvives, ThermallySafe;
    if n > 0 {
      PrefixKeepsPower(states, ops, n - 1);
      assert states[n - 1 + 1] == Step(states[n - 1], ops[n - 1]);
      RunIsThermallySafe(states, ops, n - 1);
      PowerIsKeptExactly(states[n - 1], ops[n - 1]);
    }
  }

  /** Over a run the commanded power never exceeds the configured one, if and only if every
      operation survives in this sense. */
  lemma RunKeepsPower(states: seq<Worker>, ops: seq<Op>)
    requires Run(states, ops) && states[0] == STARTED
    ensures (forall n :: 0 <= n < |states| ==> AtMostConfigured(states[n])) <==>
            (forall i :: 0 <= i < |ops| ==> PowerSurvives(states[i], ops[i]))
  {
    hide Step, Enabled, AtMostConfigured, PowerSurvives, ThermallySafe;
    if i :| 0 <= i < |ops| && !PowerSurvives(states[i], ops[i]) {
      if AtMostConfigured(states[i]) {
        RunIsThermallySafe(states, ops, i);
        PowerIsKeptExactly(states[i], ops[i]);
        assert !AtMostConfigured(states[i + 1]);
      }
    } else {
      forall n | 0 <= n < |states|
        ensures AtMostConfigured(states[n])
      {
        PrefixKeepsPower(states, ops, n);
      }
    }
  }

  /** A run that raises the power: with -5 dBm configured, the throttle commands 4 dBm, and
      a cutoff with recovery 10 dBm. */
  lemma PowerRaised() returns (states: seq<Worker>, ops: seq<Op>)
    ensures Run(states, ops) && states[0] == STARTED && |ops| == 4
    ensures states[1].air.powerDbm == -5 && states[2].level == 1 && states[2].air.powerDbm == THROTTLED_DBM
    ensures states[4].level == 0 && states[4].air.powerDbm == MAX_SAFE_DBM && states[4].cfg.powerDbm == -5
  {
    ops := [ConfigOp(Config(BOOT_HZ, -5, 0), true), ThermalOp(4000, Some(1), true, true),
            ThermalOp(8000, Some(2), true, true), ThermalOp(12000, Some(0), true, true)];
    var s1 := STARTED.(cfg := Config(BOOT_HZ, -5, 0), air := Air(BOOT_HZ, -5, true));
    var s2 := s1.(lastThermalMs := 4000, level := 1, air := Air(BOOT_HZ, THROTTLED_DBM, true));
    var s3 := s2.(lastThermalMs := 8000, level := 2, poweredDown := true, air := Air(BOOT_HZ, THROTTLED_DBM, false));
    var s4 := s1.(lastThermalMs := 12000, air := Air(BOOT_HZ, MAX_SAFE_DBM, true));
    assert Step(STARTED, ops[0]) == s1 && Step(s1, ops[1]) == s2 && Step(s2, ops[2]) == s3 && Step(s3, ops[3]) == s4;
    states := [STARTED, s1, s2, s3, s4];
  }
}
