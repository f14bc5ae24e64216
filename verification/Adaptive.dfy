// The adaptive bitrate controller, run by one caller at a time.
module Adaptive {
  import opened Wrappers
  import opened Numbers

  const COOL_DOWN_NS := 4_000_000_000
  const PRESSURE_DOWN_PCT := 70
  const PRESSURE_UP_PCT := 35
  const UPSHIFT_KBPS := 200
  const FLOOR_KBPS := 500

  // Multiplication and addition that stop at the largest 32-bit value.
  function SatMul(a: nat, b: nat): nat { Min(a * b, U32_MAX) }

  function SatAdd(a: nat, b: nat): nat { Min(a + b, U32_MAX) }

  // ---------------------------------------------------------------------
  // The decisions.
  // ---------------------------------------------------------------------

  function NextEma(ema: nat, samplePct: nat): nat {
    (SatMul(ema, 7) + SatMul(Min(samplePct, 200), 100)) / 8
  }

  predicate CoolingDown(lastAdjust: nat, now: nat) {
    lastAdjust != 0 && (if now >= lastAdjust then now - lastAdjust else 0) < COOL_DOWN_NS
  }

  // The target a pressure reading asks for, if it asks for another one.
  function PressureTarget(ema: nat, current: nat, ceiling: nat): Option<nat> {
    var wanted :=
      if ema / 100 >= PRESSURE_DOWN_PCT then Max(SatMul(current, 3) / 4, FLOOR_KBPS)
      else if ema / 100 <= PRESSURE_UP_PCT && current < ceiling then Min(SatAdd(current, UPSHIFT_KBPS), ceiling)
      else current;
    if wanted == current then None else Some(wanted)
  }

  // Limiting needs the limits in order.
  function Clamp(x: nat, low: nat, high: nat): nat
    requires low <= high
  {
    Min(Max(x, low), high)
  }

  // The target a measured link speed asks for, if it asks for another one.
  function CapacityTarget(measured: nat, current: nat, ceiling: nat): Option<nat>
    requires FLOOR_KBPS <= ceiling
  {
    if measured >= SatMul(current, 2) then None
    else
      var wanted := Clamp(if measured >= current then measured * 7 / 10 else measured, FLOOR_KBPS, ceiling);
      if wanted == current then None else Some(wanted)
  }

  datatype Controller = Controller(target: nat, ceiling: nat, ema: nat, lastAdjust: nat)

  function New(initialKbps: nat): Controller {
    Controller(initialKbps, initialKbps, 0, 0)
  }

  function AfterPressure(c: Controller, samplePct: nat, now: nat): Controller {
    var ema := NextEma(c.ema, samplePct);
    var c' := c.(ema := ema);
    if CoolingDown(c.lastAdjust, now) then c'
    else match PressureTarget(ema, c.target, c.ceiling)
      case None => c'
      case Some(target) => c'.(target := target, lastAdjust := now)
  }

  class AdaptiveBitrateState {
    const ceiling: nat
    var target: nat
    var ema: nat
    var lastAdjust: nat

    ghost function Value(): Controller
      reads this
    {
      Controller(target, ceiling, ema, lastAdjust)
    }

    constructor (initialKbps: nat)
      ensures Value() == New(initialKbps)
      ensures target == ceiling == initialKbps && ema == 0 && lastAdjust == 0
    {
      target, ceiling, ema, lastAdjust := initialKbps, initialKbps, 0, 0;
    }

    method RecordPressure(samplePct: nat, now: nat) returns (moved: Option<nat>)
      modifies this
      ensures Value() == AfterPressure(old(Value()), samplePct, now)
      ensures moved == if target == old(target) then None else Some(target)
    {
      ema := NextEma(ema, samplePct);
      if CoolingDown(lastAdjust, now) {
        return None;
      }
      moved := PressureTarget(ema, target, ceiling);
      if moved.Some? {
        target := moved.value;
        lastAdjust := now;
      }
    }

    method ObserveLinkCapacity(measured: nat, now: nat) returns (moved: Option<nat>)
      requires FLOOR_KBPS <= ceiling
      modifies this
      ensures moved == CapacityTarget(measured, old(target), ceiling)
      ensures ema == old(ema)
      ensures target == (if moved.Some? then moved.value else old(target))
      ensures lastAdjust == (if moved.Some? then now else old(lastAdjust))
    {
      moved := CapacityTarget(measured, target, ceiling);
      if moved.Some? {
        target := moved.value;
        lastAdjust := now;
      }
    }

    method DropToFloor(now: nat) returns (floor: nat)
      modifies this
      ensures floor == target == 500 && lastAdjust == now && ema == old(ema)
    {
      target := FLOOR_KBPS;
      lastAdjust := now;
      floor := FLOOR_KBPS;
    }
  }

  // ---------------------------------------------------------------------
  // Bounds of single decisions.
  // ---------------------------------------------------------------------

  const EMA_MAX := 20_000

  predicate InBounds(target: nat, ceiling: nat) {
    FLOOR_KBPS <= target <= ceiling <= U32_MAX
  }

  lemma EmaBounded(ema: nat, samplePct: nat)
    requires ema <= EMA_MAX
    ensures NextEma(ema, samplePct) <= EMA_MAX
    ensures SatMul(ema, 7) == ema * 7
    ensures SatMul(ema, 7) + SatMul(Min(samplePct, 200), 100) <= U32_MAX
  {
  }

  lemma PressureTargetBounded(ema: nat, current: nat, ceiling: nat)
    requires InBounds(current, ceiling)
    ensures PressureTarget(ema, current, ceiling).Some? ==>
              InBounds(PressureTarget(ema, current, ceiling).value, ceiling)
  {
  }

  lemma CapacityTargetBounded(measured: nat, current: nat, ceiling: nat)
    requires InBounds(current, ceiling)
    ensures CapacityTarget(measured, current, ceiling).Some? ==>
              InBounds(CapacityTarget(measured, current, ceiling).value, ceiling)
  {
  }

  // The target after a capacity reading.
  function AfterCapacity(measured: nat, current: nat, ceiling: nat): nat
    requires FLOOR_KBPS <= ceiling
  {
    match CapacityTarget(measured, current, ceiling)
    case None => current
    case Some(wanted) => wanted
  }

  // Which way a capacity reading moves the target. A reading below the target
  // pulls it down to the reading or the floor; one of twice the target leaves
  // it; between them it can go either way, and it goes up exactly when seven
  // tenths of the reading are still above it and there is room.
  lemma CapacityMoves(measured: nat, current: nat, ceiling: nat)
    requires InBounds(current, ceiling)
    ensures var after := AfterCapacity(measured, current, ceiling);
      && (after > current <==> measured < SatMul(current, 2) && measured * 7 / 10 > current && current < ceiling)
      && (after < current <==> measured < SatMul(current, 2) && measured * 7 / 10 < current && current > FLOOR_KBPS)
      && (measured < current ==> after == Max(measured, FLOOR_KBPS))
      && (after > current ==> after == Min(measured * 7 / 10, ceiling))
  {
  }

  // The comment that such a reading pulls the target down does not hold.
  lemma CapacityRaises()
    ensures AfterCapacity(1900, 1000, 3000) == 1330
  {
  }

  // ---------------------------------------------------------------------
  // What one reading does.
  // ---------------------------------------------------------------------

  // The average moves an eighth of the way to the sample, which counts as 200
  // percent at most, and is rounded down.
  lemma EmaWeights(ema: nat, samplePct: nat)
    requires ema <= 20_000
    ensures var sample := 100 * (if samplePct < 200 then samplePct else 200);
      8 * NextEma(ema, samplePct) <= 7 * ema + sample < 8 * NextEma(ema, samplePct) + 8
  {
  }

  // The target after a reading that leaves this average outside the cool-down:
  // a quarter less from 70 percent on, 200 kbps more up to 35 percent, both
  // within 500 kbps and the ceiling, and left alone from 36 to 69 percent.
  lemma PressureMoves(c: Controller, pct: nat, now: nat)
    requires Sane(c) && (c.lastAdjust == 0 || now >= c.lastAdjust + 4_000_000_000)
    ensures var c' := AfterPressure(c, pct, now);
      && c'.ema == NextEma(c.ema, pct) && c'.ceiling == c.ceiling
      && (c'.ema >= 7000 && c.target <= U32_MAX / 3 ==>
            c'.target == if c.target * 3 / 4 < 500 then 500 else c.target * 3 / 4)
      && (c'.ema >= 7000 && c.target > U32_MAX / 3 ==> c'.target == U32_MAX / 4)
      && (c'.ema < 3600 ==> c'.target == if c.target + 200 > c.ceiling then c.ceiling else c.target + 200)
      && (3600 <= c'.ema < 7000 ==> c'.target == c.target)
      && c'.lastAdjust == (if c'.target != c.target then now else c.lastAdjust)
  {
  }

  // Inside four seconds of the last move, and at most at that time again, a
  // reading moves the average alone.
  lemma CoolsDown(c: Controller, pct: nat, now: nat)
    requires c.lastAdjust != 0 && now < c.lastAdjust + 4_000_000_000
    ensures AfterPressure(c, pct, now) == c.(ema := NextEma(c.ema, pct))
  {
  }

  // ---------------------------------------------------------------------
  // The gap between two moves.
  // ---------------------------------------------------------------------

  predicate Moves(c: Controller, pct: nat, now: nat) {
    AfterPressure(c, pct, now).target != c.target
  }

  // Two moves in a row by pressure readings, the second within the cool-down.
  ghost predicate TooSoon(c: Controller, pct1: nat, now1: nat, pct2: nat, now2: nat) {
    && Moves(c, pct1, now1) && Moves(AfterPressure(c, pct1, now1), pct2, now2)
    && now1 <= now2 < now1 + COOL_DOWN_NS
  }

  // For a single caller a second move inside the cool-down is out of the
  // question exactly when the first was not made at time zero, which the
  // controller takes for "never adjusted".
  lemma GapExactly(now1: nat)
    ensures (forall c, pct1, pct2, now2 :: Sane(c) ==> !TooSoon(c, pct1, now1, pct2, now2)) <==> now1 != 0
  {
    var c := Controller(2000, 2000, EMA_MAX, 0);
    if now1 == 0 {
      assert AfterPressure(c, 200, 0) == Controller(1500, 2000, EMA_MAX, 0);
      assert Sane(c) && TooSoon(c, 200, now1, 200, 0);
    }
  }

  // Sample `i` of a run moves the target.
  ghost predicate MovesAt(c: Controller, samples: seq<Sample>, i: nat) {
    i < |samples| && Moves(AfterFirst(c, samples, i), samples[i].pct, samples[i].now)
  }

  // The controller after the first `i` samples of a run.
  function AfterFirst(c: Controller, samples: seq<Sample>, i: nat): Controller
    requires i <= |samples|
  {
    if i == 0 then c else AfterPressure(AfterFirst(c, samples, i - 1), samples[i - 1].pct, samples[i - 1].now)
  }

  lemma {:induction false} LastMoveKept(c: Controller, samples: seq<Sample>, i: nat, j: nat)
    requires i < j <= |samples| && MovesAt(c, samples, i)
    requires forall k, l :: 0 <= k <= l < |samples| ==> samples[k].now <= samples[l].now
    ensures samples[i].now <= AfterFirst(c, samples, j).lastAdjust <= samples[j - 1].now
    decreases j
  {
    hide AfterFirst;
    AfterFirstStep(c, samples, j - 1);
    if i < j - 1 {
      LastMoveKept(c, samples, i, j - 1);
    }
  }

  lemma AfterFirstStep(c: Controller, samples: seq<Sample>, i: nat)
    requires i < |samples|
    ensures AfterFirst(c, samples, i + 1) == AfterPressure(AfterFirst(c, samples, i), samples[i].pct, samples[i].now)
  {
  }

  // Over any run of one caller's readings on a clock that does not go back,
  // two moves are at least the cool-down apart, unless the first is at zero.
  lemma MovesAreSpaced(c: Controller, samples: seq<Sample>, i: nat, j: nat)
    requires forall k, l :: 0 <= k <= l < |samples| ==> samples[k].now <= samples[l].now
    requires i < j && MovesAt(c, samples, i) && MovesAt(c, samples, j) && samples[i].now != 0
    ensures samples[j].now >= samples[i].now + COOL_DOWN_NS
  {
    LastMoveKept(c, samples, i, j);
  }

  // A run from the start whose fourth and fifth readings, all at time zero,
  // both move the target.
  lemma TwoMovesAtZero()
    ensures var c, samples := New(2000), seq(5, _ => Sample(200, 0));
      MovesAt(c, samples, 3) && MovesAt(c, samples, 4) && AfterFirst(c, samples, 5).target == 1125
  {
    var c, samples := New(2000), seq(5, _ => Sample(200, 0));
    assert AfterFirst(c, samples, 1) == Controller(2000, 2000, 2500, 0);
    assert AfterFirst(c, samples, 2) == Controller(2000, 2000, 4687, 0);
    assert AfterFirst(c, samples, 3) == Controller(2000, 2000, 6601, 0);
    assert AfterFirst(c, samples, 4) == Controller(1500, 2000, 8275, 0);
    assert AfterFirst(c, samples, 5) == Controller(1125, 2000, 9740, 0);
  }

  // ---------------------------------------------------------------------
  // Long runs of samples spaced past the cool-down.
  // ---------------------------------------------------------------------

  datatype Sample = Sample(pct: nat, now: nat)

  function AfterSamples(c: Controller, samples: seq<Sample>): Controller
    decreases |samples|
  {
    if samples == [] then c else AfterSamples(AfterPressure(c, samples[0].pct, samples[0].now), samples[1..])
  }

  // Each sample comes a full cool-down after the last adjustment or sample.
  ghost predicate Spaced(lastAdjust: nat, samples: seq<Sample>)
    decreases |samples|
  {
    samples != [] ==>
      && samples[0].now >= lastAdjust + COOL_DOWN_NS
      && Spaced(samples[0].now, samples[1..])
  }

  lemma SpacedEarlier(a: nat, b: nat, samples: seq<Sample>)
    requires a <= b && Spaced(b, samples)
    ensures Spaced(a, samples)
  {
  }

  predicate Sane(c: Controller) {
    InBounds(c.target, c.ceiling) && c.ema <= EMA_MAX
  }

  lemma HighPressureStep(c: Controller, pct: nat, now: nat)
    requires Sane(c) && pct >= 71 && now >= c.lastAdjust + COOL_DOWN_NS
    ensures var c' := AfterPressure(c, pct, now);
      && Sane(c') && c'.ceiling == c.ceiling && c'.lastAdjust <= now && c'.target <= c.ceiling
      && (c.ema >= 7093 ==> c'.ema >= 7093)
      && (c.ema >= 7093 && c.target == FLOOR_KBPS ==> c'.target == FLOOR_KBPS)
      && (c.ema < 7093 ==> c'.ema > c.ema)
      && (c.ema >= 7093 && c.target > FLOOR_KBPS ==> c'.target < c.target)
  {
  }

  // Any run of samples of at least 71 percent, once it is 7093 samples for
  // the average and one for each kbps above the floor long, has the target at
  // the floor and keeps it there.
  lemma {:induction false} HighPressureReachesFloor(c: Controller, samples: seq<Sample>)
    requires Sane(c) && Spaced(c.lastAdjust, samples)
    requires forall i :: 0 <= i < |samples| ==> samples[i].pct >= 71
    requires |samples| >= (if c.ema < 7093 then 7093 - c.ema + (c.ceiling - FLOOR_KBPS) else c.target - FLOOR_KBPS)
    ensures AfterSamples(c, samples).target == FLOOR_KBPS
    decreases |samples|
  {
    if samples != [] {
      var c' := AfterPressure(c, samples[0].pct, samples[0].now);
      HighPressureStep(c, samples[0].pct, samples[0].now);
      SpacedEarlier(c'.lastAdjust, samples[0].now, samples[1..]);
      HighPressureReachesFloor(c', samples[1..]);
    }
  }

  // Additive steps needed to close a gap.
  function UpSteps(gap: nat): nat {
    (gap + UPSHIFT_KBPS - 1) / UPSHIFT_KBPS
  }

  lemma LowPressureStep(c: Controller, pct: nat, now: nat)
    requires Sane(c) && pct <= 35 && now >= c.lastAdjust + COOL_DOWN_NS
    ensures var c' := AfterPressure(c, pct, now);
      && Sane(c') && c'.ceiling == c.ceiling && c'.lastAdjust <= now
      && (c.ema <= 3500 ==> c'.ema <= 3500)
      && (c.ema > 3500 ==> c'.ema < c.ema)
      && (c.ema <= 3500 ==> c'.target == Min(c.target + UPSHIFT_KBPS, c.ceiling))
  {
  }

  // Any long enough run of samples of at most 35 percent has the target at
  // the ceiling and keeps it there.
  lemma {:induction false} LowPressureReachesCeiling(c: Controller, samples: seq<Sample>)
    requires Sane(c) && Spaced(c.lastAdjust, samples)
    requires forall i :: 0 <= i < |samples| ==> samples[i].pct <= 35
    requires |samples| >= (if c.ema > 3500 then c.ema - 3500 + UpSteps(c.ceiling - FLOOR_KBPS)
                           else UpSteps(c.ceiling - c.target))
    ensures AfterSamples(c, samples).target == c.ceiling
    decreases |samples|
  {
    if samples != [] {
      var c' := AfterPressure(c, samples[0].pct, samples[0].now);
      LowPressureStep(c, samples[0].pct, samples[0].now);
      SpacedEarlier(c'.lastAdjust, samples[0].now, samples[1..]);
      LowPressureReachesCeiling(c', samples[1..]);
    }
  }

  lemma SeventyStep(c: Controller, now: nat)
    requires Sane(c)
    ensures var c' := AfterPressure(c, 70, now);
      && Sane(c') && c'.ceiling == c.ceiling && (c.lastAdjust <= now ==> c'.lastAdjust <= now)
      && (c.ema < 6993 ==> c.ema < c'.ema <= 6993)
      && (6993 <= c.ema <= 7000 ==> c'.ema == c.ema)
      && (c.ema >= 7000 ==> c'.ema >= 7000 && c'.target <= c.target)
      && (c.ema < 7000 ==> c'.target >= c.target)
  {
  }

  // Constant 70 from an average below 7000 settles below the downshift
  // threshold, at 6993 when it starts no higher, and never lowers the target.
  lemma {:induction false} SeventySettles(c: Controller, samples: seq<Sample>)
    requires Sane(c) && c.ema < 7000
    requires forall i :: 0 <= i < |samples| ==> samples[i].pct == 70
    ensures var c' := AfterSamples(c, samples);
      && c'.ema < 7000 && c'.target >= c.target
      && (c.ema >= 6993 ==> c'.ema == c.ema)
      && (c.ema <= 6993 && |samples| >= 6993 - c.ema ==> c'.ema == 6993)
    decreases |samples|
  {
    if samples != [] {
      SeventyStep(c, samples[0].now);
      SeventySettles(AfterPressure(c, 70, samples[0].now), samples[1..]);
    }
  }

  lemma {:induction false} SeventyFromAbove(c: Controller, samples: seq<Sample>)
    requires Sane(c) && c.ema >= 7000
    requires forall i :: 0 <= i < |samples| ==> samples[i].pct == 70
    ensures AfterSamples(c, samples).target <= c.target
    decreases |samples|
  {
    if samples != [] {
      SeventyStep(c, samples[0].now);
      SeventyFromAbove(AfterPressure(c, 70, samples[0].now), samples[1..]);
    }
  }

  // A run of spaced samples of 70 percent ends below where it started exactly
  // when the average starts at 7000 or more.
  lemma SeventyDownshiftsExactly(c: Controller, samples: seq<Sample>)
    requires Sane(c) && c.target > FLOOR_KBPS
    requires samples != [] && Spaced(c.lastAdjust, samples)
    requires forall i :: 0 <= i < |samples| ==> samples[i].pct == 70
    ensures AfterSamples(c, samples).target < c.target <==> c.ema >= 7000
  {
    if c.ema < 7000 {
      SeventySettles(c, samples);
    } else {
      SeventyStep(c, samples[0].now);
      SeventyFromAbove(AfterPressure(c, 70, samples[0].now), samples[1..]);
    }
  }
}
