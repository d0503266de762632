/** The thermal thresholds of the fallback path (no thermal guardian): processor stage,
    fan and radio level, each with its hysteresis, over whole temperature histories. */
module Hysteresis {
  import opened Bytes

  // ----- the code's decisions for one temperature -----

  function NextStage(stage: int, t: real): int {
    if t >= 74.0 || (stage == 5 && t >= 71.0) then 5
    else if t >= 68.0 || (stage >= 4 && t >= 65.0) then 4
    else if t >= 62.0 || (stage >= 3 && t >= 59.0) then 3
    else if t >= 56.0 || (stage >= 2 && t >= 53.0) then 2
    else if t >= 50.0 || (stage >= 1 && t >= 47.0) then 1
    else 0
  }

  function NextFan(on: bool, t: real): bool {
    if t >= 45.0 && !on then true
    else if t < 38.0 && on then false
    else on
  }

  function NextLevel(level: int, t: real): int {
    if t >= 82.0 then 2
    else if level == 2 then
      if t < 55.0 then 0 else level
    else if t >= 68.0 then 1
    else if level == 1 && t < 60.0 then 0
    else level
  }

  /** The level the fallback path asks for; readings out of range are ignored. */
  function FallbackReading(level: int, t: real): Option<int> {
    if -20.0 < t < 150.0 then Some(NextLevel(level, t)) else None
  }

  // ----- histories -----

  function StageAfter(stage: int, ts: seq<real>): int {
    if ts == [] then stage else NextStage(StageAfter(stage, ts[..|ts| - 1]), ts[|ts| - 1])
  }

  function FanAfter(on: bool, ts: seq<real>): bool {
    if ts == [] then on else NextFan(FanAfter(on, ts[..|ts| - 1]), ts[|ts| - 1])
  }

  function LevelAfter(level: int, ts: seq<real>): int {
    if ts == [] then level else NextLevel(LevelAfter(level, ts[..|ts| - 1]), ts[|ts| - 1])
  }

  /** A latch with two thresholds, told from the whole history: some temperature reached
      `up` and none after it fell below `down` (or it was on and none ever did). */
  ghost predicate Latched(on: bool, ts: seq<real>, up: real, down: real) {
    || (on && forall j :: 0 <= j < |ts| ==> ts[j] >= down)
    || exists i :: 0 <= i < |ts| && ts[i] >= up && forall j :: i < j < |ts| ==> ts[j] >= down
  }

  lemma LatchStep(on: bool, ts: seq<real>, up: real, down: real)
    requires ts != [] && down <= up
    ensures var n := |ts| - 1;
            Latched(on, ts, up, down) <==> ts[n] >= up || (Latched(on, ts[..n], up, down) && ts[n] >= down)
  {
  }

  /** The threshold of stage k. */
  function StageUp(k: int): real {
    44.0 + 6.0 * k as real
  }

  /** The stage is k or more exactly when the latch 50/47, 56/53, ..., 74/71 of k is on. */
  lemma {:induction false} StageIsFiveLatches(stage: int, ts: seq<real>, k: int)
    requires -1 <= stage <= 5 && 1 <= k <= 5
    ensures StageAfter(stage, ts) >= k <==> Latched(stage >= k, ts, StageUp(k), StageUp(k) - 3.0)
    ensures -1 <= StageAfter(stage, ts) <= 5
  {
    if ts != [] {
      StageIsFiveLatches(stage, ts[..|ts| - 1], k);
      LatchStep(stage >= k, ts, StageUp(k), StageUp(k) - 3.0);
      hide Latched;
      NextStageIsLatch(StageAfter(stage, ts[..|ts| - 1]), ts[|ts| - 1], k);
    }
  }

  lemma NextStageIsLatch(stage: int, t: real, k: int)
    requires -1 <= stage <= 5 && 1 <= k <= 5
    ensures NextStage(stage, t) >= k <==> t >= StageUp(k) || (stage >= k && t >= StageUp(k) - 3.0)
    ensures 0 <= NextStage(stage, t) <= 5
  {
  }

  lemma {:induction false} FanIsLatch(on: bool, ts: seq<real>)
    ensures FanAfter(on, ts) <==> Latched(on, ts, 45.0, 38.0)
  {
    if ts != [] {
      FanIsLatch(on, ts[..|ts| - 1]);
      LatchStep(on, ts, 45.0, 38.0);
    }
  }

  /** The radio is cut off exactly while the latch 82/55 is on. */
  lemma {:induction false} CutoffIsLatch(level: int, ts: seq<real>)
    requires 0 <= level <= 2
    ensures LevelAfter(level, ts) == 2 <==> Latched(level == 2, ts, 82.0, 55.0)
    ensures 0 <= LevelAfter(level, ts) <= 2
  {
    if ts != [] {
      CutoffIsLatch(level, ts[..|ts| - 1]);
      LatchStep(level == 2, ts, 82.0, 55.0);
    }
  }

  /** The radio is throttled exactly while the latch 68/60 is on and the cutoff latch
      82/55 is off, from any level and over any history. */
  lemma {:induction false} ThrottleIsLatch(level: int, ts: seq<real>)
    requires 0 <= level <= 2
    ensures LevelAfter(level, ts) == 1 <==>
            Latched(level == 1, ts, 68.0, 60.0) && !Latched(level == 2, ts, 82.0, 55.0)
  {
    CutoffIsLatch(level, ts);
    if ts != [] {
      ThrottleIsLatch(level, ts[..|ts| - 1]);
      CutoffIsLatch(level, ts[..|ts| - 1]);
      LatchStep(level == 1, ts, 68.0, 60.0);
      LatchStep(level == 2, ts, 82.0, 55.0);
      hide Latched;
    }
  }

  /** Left to the fallback path, the cutoff is left only below 55 degrees and only for
      normal operation, never for the throttled level. */
  lemma FallbackLeavesCutoffForNormal(t: real)
    requires FallbackReading(2, t).Some? && FallbackReading(2, t).value != 2
    ensures FallbackReading(2, t) == Some(0) && t < 55.0
  {
  }

  /** A latch that comes on at one temperature and goes off at a later one needs a drop
      of more than the distance of its thresholds. */
  lemma SwitchingNeedsDrop(on: bool, ts: seq<real>, up: real, down: real, i: nat, j: nat)
    requires down <= up && i < j < |ts|
    requires !Latched(on, ts[..i], up, down) && Latched(on, ts[..i + 1], up, down)
    requires Latched(on, ts[..j], up, down) && !Latched(on, ts[..j + 1], up, down)
    ensures ts[i] - ts[j] > up - down
  {
    LatchStep(on, ts[..i + 1], up, down);
    LatchStep(on, ts[..j + 1], up, down);
    assert ts[..i + 1][..i] == ts[..i] && ts[..j + 1][..j] == ts[..j];
  }

  /** A stage that rises to k or above at one temperature and falls below k at a later
      one needs a drop of more than 3 degrees. */
  lemma StageSwitchNeedsDrop(stage: int, ts: seq<real>, k: int, i: nat, j: nat)
    requires -1 <= stage <= 5 && 1 <= k <= 5 && i < j < |ts|
    requires StageAfter(stage, ts[..i]) < k <= StageAfter(stage, ts[..i + 1])
    requires StageAfter(stage, ts[..j + 1]) < k <= StageAfter(stage, ts[..j])
    ensures ts[i] - ts[j] > 3.0
  {
    StageIsFiveLatches(stage, ts[..i], k);
    StageIsFiveLatches(stage, ts[..i + 1], k);
    StageIsFiveLatches(stage, ts[..j], k);
    StageIsFiveLatches(stage, ts[..j + 1], k);
    SwitchingNeedsDrop(stage >= k, ts, StageUp(k), StageUp(k) - 3.0, i, j);
  }

  /** The next stage is monotone in stage and temperature, and settles at once. */
  lemma StageIsMonotone(a: int, b: int, t: real, u: real)
    requires -1 <= a <= b <= 5 && t <= u
    ensures NextStage(a, t) <= NextStage(b, u)
    ensures NextStage(NextStage(a, t), t) == NextStage(a, t)
  {
  }
}
