/** What the worker's operations do, told from its fields, the source's numbers and real
    time, without the functions that define the operations. */
module WorkerEffects {
  import opened Bytes
  import opened WorkerSafety
  import opened WorkerSpec
  import BurstTransmit
  import RxLoop

  // ----- sweeps: where the radio listens -----

  /** An active sweep listens on its current channel. */
  ghost predicate OnChannel(s: Worker, p: ScanParams) {
    && s.radioOk && 1 <= p.count <= 64
    && (s.scan.active ==>
          && s.scan.params == p && s.scan.idx < p.count
          && s.air.tunedHz == (p.startHz + s.scan.idx * p.stepHz) % 0x1_0000_0000)
  }

  lemma StepStaysOnChannel(s: Worker, op: Op, p: ScanParams)
    requires Enabled(s, op) && LeavesSweep(s, op) && OnChannel(s, p) && (op.TickOp? ==> op.tuned)
    ensures OnChannel(Step(s, op), p)
  {
    hide DwellOver, DropAll, BurstTransmit.SentAsBurst, RxLoop.TallyOf;
  }

  /** In an uninterrupted sweep whose tunes succeed the radio listens, while the sweep is
      active, on the frequency startHz + idx * stepHz modulo 2^32 of its current channel. */
  lemma {:induction false} SweepListensOnItsChannels(states: seq<Worker>, ops: seq<Op>, n: nat)
    requires Run(states, ops) && 1 <= n < |states| && states[0].radioOk
    requires ops[0].ScanOp? && ops[0].tuned && ops[0].p.startHz > 0
    requires forall i :: 1 <= i < |ops| ==> LeavesSweep(states[i], ops[i]) && (ops[i].TickOp? ==> ops[i].tuned)
    ensures OnChannel(states[n], ops[0].p)
  {
    hide Step, Enabled, LeavesSweep, OnChannel;
    assert states[n - 1 + 1] == Step(states[n - 1], ops[n - 1]);
    if n == 1 {
      ScanStartsOnChannel(states[0], ops[0]);
    } else {
      SweepListensOnItsChannels(states, ops, n - 1);
      StepStaysOnChannel(states[n - 1], ops[n - 1], ops[0].p);
    }
  }

  lemma ScanStartsOnChannel(s: Worker, op: Op)
    requires Enabled(s, op) && op.ScanOp? && op.tuned && op.p.startHz > 0 && s.radioOk
    ensures OnChannel(Step(s, op), op.p) && Step(s, op).scan.active && Step(s, op).scan.idx == 0
  {
  }

  /** Its reports name those frequencies, channel by channel. */
  lemma SweepReportsItsChannels(states: seq<Worker>, ops: seq<Op>, n: nat, i: nat)
    requires Run(states, ops) && 1 <= n < |states| && ops[0].ScanOp?
    requires forall i :: 1 <= i < |ops| ==> LeavesSweep(states[i], ops[i])
    requires i < states[n].scan.idx
    ensures |states[n].scan.reports| == |states[0].scan.reports| + states[n].scan.idx
    ensures states[n].scan.reports[|states[0].scan.reports| + i].freqHz ==
            (ops[0].p.startHz + i * ops[0].p.stepHz) % 0x1_0000_0000
  {
    hide Step, Enabled, LeavesSweep, ChannelsHeard, RxLoop.CountConsensus, RxLoop.BestRssi;
    SweepIsExact(states, ops, n);
    var base := |states[0].scan.reports|;
    var channels := ChannelsHeard(states, ops, n);
    assert states[n].scan.reports[base + i] == ReportOf(ops[0].p, i, channels[i]);
  }

  // ----- CONFIG -----

  /** A CONFIG to a radio that is up is stored, its power cut to 10 dBm or, from level 1 on,
      to 4 dBm; it is accepted unless it needs a tune that fails. A radio that is down takes
      none. */
  lemma ConfigIsAcceptedExactly(s: Worker, c: Config, tuneOk: bool)
    ensures var (t, accepted) := ApplyConfig(s, c, tuneOk);
            var limit := if s.level >= 1 then 4 else 10;
            var power := if c.powerDbm > limit then limit else c.powerDbm;
            var same := !s.scan.active && s.cfg == Config(c.freqHz, power, c.role);
            && (s.radioOk ==> t.cfg == Config(c.freqHz, power, c.role))
            && (s.radioOk ==> (accepted <==> same || c.freqHz == 0 || tuneOk))
            && (!s.radioOk ==> t == s && !accepted)
  {
  }

  /** After a CONFIG to a radio that is up, accepted or not, no sweep is active, nothing was
      reported, and transmission depends on level and role alone. */
  lemma ConfigEndsTheSweep(s: Worker, c: Config, tuneOk: bool)
    requires s.radioOk
    ensures var t := ApplyConfig(s, c, tuneOk).0;
            && !t.scan.active && t.scan.reports == s.scan.reports && t.tx == s.tx && t.level == s.level
            && (MayTransmit(t) <==> t.level < 2 && c.role != 2)
  {
  }

  lemma NoSweepStays(s: Worker, op: Op)
    requires Enabled(s, op) && !s.scan.active && s.radioOk && !op.ScanOp?
    ensures !op.TickOp? && !Step(s, op).scan.active && Step(s, op).radioOk
    ensures Step(s, op).scan.reports == s.scan.reports
  {
    hide DropAll, BurstTransmit.SentAsBurst, RxLoop.TallyOf;
  }

  /** From such a CONFIG until the next scan command a run has no active sweep, no tick and
      no report. */
  lemma {:induction false} NoTickUntilNextScan(states: seq<Worker>, ops: seq<Op>, n: nat)
    requires Run(states, ops) && 1 <= n <= |ops| && ops[0].ConfigOp? && states[0].radioOk
    requires forall i :: 1 <= i < n ==> !ops[i].ScanOp?
    ensures !states[n].scan.active && states[n].radioOk && states[n].scan.reports == states[0].scan.reports
    ensures n < |ops| ==> !ops[n].TickOp?
  {
    hide Step;
    assert states[n - 1 + 1] == Step(states[n - 1], ops[n - 1]);
    if n == 1 {
      ConfigEndsTheSweep(states[0], ops[0].c, ops[0].tuned);
      ConfigIsStep(states[0], ops[0]);
    } else {
      NoTickUntilNextScan(states, ops, n - 1);
      NoSweepStays(states[n - 1], ops[n - 1]);
    }
  }

  lemma ConfigIsStep(s: Worker, op: Op)
    requires op.ConfigOp?
    ensures Step(s, op) == ApplyConfig(s, op.c, op.tuned).0 && Step(s, op).radioOk == s.radioOk
  {
  }

  // ----- the thermal level -----

  /** The last check was made at the real time `last`, or never. */
  predicate CheckedAt(s: Worker, last: nat) {
    s.lastThermalMs == last % 0x1_0000_0000
  }

  /** A check that comes 4 s after the last one, or as the first, takes the level asked for,
      if any; one that comes earlier does nothing. (Whether a check was made is told from its
      clock value, so a check at clock value 0 does not count as made.) */
  lemma CheckTakesEffectExactly(s: Worker, op: Op, last: nat, now: nat)
    requires op.ThermalOp? && op.checkMs == now % 0x1_0000_0000
    requires CheckedAt(s, last) && last <= now < last + 0x1_0000_0000
    ensures var t := Step(s, op);
            if s.lastThermalMs == 0 || now - last >= 4000 then
              CheckedAt(t, now) && t.level == match op.reading case Some(l) => l case None => s.level
            else t == s
  {
    hide DropAll;
    assert (now % 0x1_0000_0000 - last % 0x1_0000_0000) % 0x1_0000_0000 == now - last;
  }

  /** The times of a run's checks. */
  ghost predicate ChecksAt(ops: seq<Op>, times: seq<nat>) {
    && |times| == |ops|
    && (forall i :: 0 <= i < |ops| && ops[i].ThermalOp? ==> ops[i].checkMs == times[i] % 0x1_0000_0000)
    && forall i, j :: 0 <= i <= j < |ops| ==> times[i] <= times[j] < times[i] + 0x1_0000_0000
  }

  lemma OthersKeepLevel(s: Worker, op: Op)
    requires Enabled(s, op) && !op.ThermalOp?
    ensures Step(s, op).level == s.level && Step(s, op).lastThermalMs == s.lastThermalMs
  {
    hide BurstTransmit.SentAsBurst, RxLoop.TallyOf, DwellOver, ChannelHz;
  }

  lemma LevelChangeIsChecked(s: Worker, op: Op)
    requires Enabled(s, op) && Step(s, op).level != s.level
    ensures op.ThermalOp? && Step(s, op).lastThermalMs == op.checkMs
  {
    hide BurstTransmit.SentAsBurst, RxLoop.TallyOf, DwellOver, ChannelHz, DropAll;
  }

  /** After a change of the level, `k` is the last check made before state n. */
  lemma {:induction false} LastCheckAfterChange(states: seq<Worker>, ops: seq<Op>, times: seq<nat>, i: nat, n: nat)
    returns (k: nat)
    requires Run(states, ops) && ChecksAt(ops, times) && i < n <= |ops|
    requires states[i + 1].level != states[i].level && times[i] % 0x1_0000_0000 != 0
    ensures i <= k < n && CheckedAt(states[n], times[k]) && (k == i || times[k] >= times[i] + 4000)
    decreases n
  {
    hide Step, Enabled;
    assert states[n - 1 + 1] == Step(states[n - 1], ops[n - 1]);
    if n == i + 1 {
      k := i;
      LevelChangeIsChecked(states[i], ops[i]);
    } else {
      k := LastCheckAfterChange(states, ops, times, i, n - 1);
      if ops[n - 1].ThermalOp? {
        CheckTakesEffectExactly(states[n - 1], ops[n - 1], times[k], times[n - 1]);
        if states[n - 1].lastThermalMs == 0 || times[n - 1] - times[k] >= 4000 {
          k := n - 1;
        }
      } else {
        OthersKeepLevel(states[n - 1], ops[n - 1]);
      }
    }
  }

  /** In any run two changes of the level are at least 4 s apart, unless the first was made
      at clock value 0. */
  lemma LevelChangesAreSpaced(states: seq<Worker>, ops: seq<Op>, times: seq<nat>, i: nat, j: nat)
    requires Run(states, ops) && ChecksAt(ops, times) && i < j < |ops|
    requires states[i + 1].level != states[i].level && states[j + 1].level != states[j].level
    requires times[i] % 0x1_0000_0000 != 0
    ensures times[j] >= times[i] + 4000
  {
    hide Step, Enabled;
    var k := LastCheckAfterChange(states, ops, times, i, j);
    assert states[j + 1] == Step(states[j], ops[j]);
    LevelChangeIsChecked(states[j], ops[j]);
    CheckTakesEffectExactly(states[j], ops[j], times[k], times[j]);
  }

  /** What a change of the level does to the radio and the queue: the cutoff drops the queue
      and the power pin; the throttle commands 4 dBm; leaving the throttle commands the
      configured power again; a restart, when the radio is marked as powered down, is at
      915 MHz and 10 dBm and, if it succeeds, ends a scan; anything else leaves them alone. */
  lemma LevelChangeActs(s: Worker, op: Op)
    requires op.ThermalOp? && s.radioOk && Step(s, op).level != s.level
    ensures var t := Step(s, op);
            && (t.level == 2 ==> !t.air.pinHigh && t.poweredDown && t.tx.queue == [] && t.tx.accepted == s.tx.accepted
                                 && t.air == s.air.(pinHigh := false) && t.scan == s.scan && t.cfg == s.cfg)
            && (t.level == 1 && !s.poweredDown ==> t.air == s.air.(powerDbm := 4))
            && (t.level == 0 && !s.poweredDown && s.level == 1 ==> t.air == s.air.(powerDbm := s.cfg.powerDbm))
            && (t.level == 0 && s.poweredDown ==> t.air.pinHigh && t.poweredDown == !op.booted)
            && (t.level == 0 && s.poweredDown && !op.booted ==>
                  t.air == Air(s.air.tunedHz, 10, true) && t.scan == s.scan && t.cfg == s.cfg)
            && (t.level == 0 && s.poweredDown && op.booted && s.cfg.powerDbm <= 10 ==>
                  !t.scan.active && t.cfg == s.cfg && t.air.powerDbm == 10)
            && (t.level != 2 ==> t.tx == s.tx)
            && (t.level != 2 && (t.level != 0 || !s.poweredDown) ==>
                  t.poweredDown == s.poweredDown && t.scan == s.scan && t.cfg == s.cfg)
            && (t.level == 1 && s.poweredDown ==> t.air == s.air)
            && (t.level < 0 || t.level > 2 ==> t.air == s.air)
            && (t.level == 0 && !s.poweredDown && s.level != 1 ==> t.air == s.air)
  {
    hide DropAll, ChannelHz, DwellOver;
  }

  // ----- commanded and configured power at level 0 -----

  /** In normal operation the configured power is commanded. */
  ghost predicate PowerMatches(s: Worker) {
    s.level == 0 ==> s.air.powerDbm == s.cfg.powerDbm
  }

  /** A restart matches with 10 dBm configured, and leaving the throttle always does; other
      ways to level 0 must find a match. At level 0 only a CONFIG that is not in effect and
      fails to tune, asking for another power than commanded, spoils it. */
  predicate PowerMatchSurvives(s: Worker, op: Op) {
    && (MovesTo(s, op, 0) ==>
          if s.poweredDown then s.cfg.powerDbm == 10
          else s.level == 1 || s.air.powerDbm == s.cfg.powerDbm)
    && (s.level == 0 && op.ConfigOp? && !Unchanged(s, op.c) && op.c.freqHz > 0 && !op.tuned ==>
          s.air.powerDbm == if op.c.powerDbm > 10 then 10 else op.c.powerDbm)
  }

  lemma PowerMatchIsKeptExactly(s: Worker, op: Op)
    requires Enabled(s, op) && ThermallySafe(s) && PowerMatches(s)
    ensures PowerMatches(Step(s, op)) <==> PowerMatchSurvives(s, op)
  {
    hide DwellOver, ChannelHz, BurstTransmit.SentAsBurst, RxLoop.TallyOf, DropAll, SafeBurst;
  }

  lemma {:induction false} PrefixMatchesPower(states: seq<Worker>, ops: seq<Op>, n: nat)
    requires Run(states, ops) && states[0] == STARTED && n < |states|
    requires forall i :: 0 <= i < n ==> PowerMatchSurvives(states[i], ops[i])
    ensures PowerMatches(states[n])
  {
    hide Step, Enabled, PowerMatchSurvives, ThermallySafe;
    if n > 0 {
      PrefixMatchesPower(states, ops, n - 1);
      assert states[n - 1 + 1] == Step(states[n - 1], ops[n - 1]);
      RunIsThermallySafe(states, ops, n - 1);
      PowerMatchIsKeptExactly(states[n - 1], ops[n - 1]);
    }
  }

  /** Over a run the configured power is commanded at level 0 throughout, if and only if
      every operation survives in this sense. */
  lemma RunMatchesPower(states: seq<Worker>, ops: seq<Op>)
    requires Run(states, ops) && states[0] == STARTED
    ensures (forall n :: 0 <= n < |states| ==> PowerMatches(states[n])) <==>
            (forall i :: 0 <= i < |ops| ==> PowerMatchSurvives(states[i], ops[i]))
  {
    hide Step, Enabled, PowerMatches, PowerMatchSurvives, ThermallySafe;
    if i :| 0 <= i < |ops| && !PowerMatchSurvives(states[i], ops[i]) {
      if PowerMatches(states[i]) {
        RunIsThermallySafe(states, ops, i);
        PowerMatchIsKeptExactly(states[i], ops[i]);
        assert !PowerMatches(states[i + 1]);
      }
    } else {
      forall n | 0 <= n < |states|
        ensures PowerMatches(states[n])
      {
        PrefixMatchesPower(states, ops, n);
      }
    }
  }

  // ----- transmission and reception -----

  /** A burst is started exactly by a service below level 2, outside scans, in a role that is
      not receive-only, with a frame queued; it is recorded with what the radio was last told,
      and nothing else starts one. */
  lemma BurstsAreStartedExactly(s: Worker, op: Op)
    requires Enabled(s, op)
    ensures var t := Step(s, op);
            if op.ServiceOp? && s.cfg.role != 2 && !s.scan.active && s.level < 2 && s.tx.queue != [] then
              && t.tx.bursts == s.tx.bursts + [AirBurst(s.tx.queue[0], op.ok, op.burstId, op.trace, s.level,
                                                        s.air.powerDbm, s.air.pinHigh, false)]
              && t.tx.terminals == s.tx.terminals + [Finished(s.tx.queue[0], if op.ok then Ok else Dropped)]
              && t.tx.queue == s.tx.queue[1..] && t == s.(tx := t.tx)
            else t.tx.bursts == s.tx.bursts && (op.ServiceOp? ==> t == s)
  {
    hide DwellOver, ChannelHz, BurstTransmit.SentAsBurst, RxLoop.TallyOf, DropAll;
  }

  /** Outside scans reception leaves the worker alone. */
  lemma ReceptionOutsideScans(s: Worker, read: seq<RxLoop.Rx>)
    requires !s.scan.active
    ensures Received(s, read) == s
  {
  }
}
