// The adaptive bitrate controller under concurrent callers: every call is a
// series of single atomic loads and stores and clock readings, interleaved at
// will.
module AdaptiveThreads {
  import opened Wrappers
  import opened Numbers
  import opened Adaptive

  // The next access of a call in progress, with what it has in hand. A
  // pressure reading takes the time before it looks at the last adjustment;
  // the other calls take it after they have stored the target.
  datatype Thread =
    | LoadEma(samplePct: nat)
    | StoreEma(ema: nat)
    | ReadClock(ema: nat)
    | LoadLast(ema: nat, now: nat)
    | LoadTarget(ema: nat, now: nat)
    | StoreTarget(wanted: nat, now: nat)
    | StoreLast(now: nat)
    | LoadTargetForCapacity(measured: nat)
    | StoreCapacityTarget(wanted: nat)
    | StoreFloor
    | ReadClockAfter
    | StoreLastAfter(now: nat)
    | Done

  // `moves` is the history of the pressure moves: the time each was decided at.
  datatype Memory = Memory(shared: Controller, threads: seq<Thread>, moves: seq<nat>)

  datatype Call = RecordPressure(samplePct: nat) | ObserveLinkCapacity(measured: nat) | DropToFloor

  datatype Event = Starts(call: Call) | Steps(i: nat, now: nat)

  function Begin(call: Call): Thread {
    match call
    case RecordPressure(samplePct) => LoadEma(samplePct)
    case ObserveLinkCapacity(measured) => LoadTargetForCapacity(measured)
    case DropToFloor => StoreFloor
  }

  // One access; `now` is what the clock says if the call reads it.
  function Access(c: Controller, t: Thread, now: nat): (Controller, Thread)
    requires FLOOR_KBPS <= c.ceiling
  {
    match t
    case LoadEma(samplePct) => (c, StoreEma(NextEma(c.ema, samplePct)))
    case StoreEma(ema) => (c.(ema := ema), ReadClock(ema))
    case ReadClock(ema) => (c, LoadLast(ema, now))
    case LoadLast(ema, taken) => (c, if CoolingDown(c.lastAdjust, taken) then Done else LoadTarget(ema, taken))
    case LoadTarget(ema, taken) =>
      (c, match PressureTarget(ema, c.target, c.ceiling)
          case None => Done
          case Some(wanted) => StoreTarget(wanted, taken))
    case StoreTarget(wanted, taken) => (c.(target := wanted), StoreLast(taken))
    case StoreLast(taken) => (c.(lastAdjust := taken), Done)
    case LoadTargetForCapacity(measured) =>
      (c, match CapacityTarget(measured, c.target, c.ceiling)
          case None => Done
          case Some(wanted) => StoreCapacityTarget(wanted))
    case StoreCapacityTarget(wanted) => (c.(target := wanted), ReadClockAfter)
    case StoreFloor => (c.(target := FLOOR_KBPS), ReadClockAfter)
    case ReadClockAfter => (c, StoreLastAfter(now))
    case StoreLastAfter(taken) => (c.(lastAdjust := taken), Done)
    case Done => (c, Done)
  }

  // The moves an access makes.
  function Moved(t: Thread): seq<nat> {
    if t.StoreTarget? then [t.now] else []
  }

  function Next(m: Memory, e: Event): Memory
    requires FLOOR_KBPS <= m.shared.ceiling
  {
    match e
    case Starts(call) => m.(threads := m.threads + [Begin(call)])
    case Steps(i, now) =>
      if i >= |m.threads| then m
      else
        var after := Access(m.shared, m.threads[i], now);
        Memory(after.0, m.threads[i := after.1], m.moves + Moved(m.threads[i]))
  }

  lemma CeilingFixed(m: Memory, e: Event)
    requires FLOOR_KBPS <= m.shared.ceiling
    ensures Next(m, e).shared.ceiling == m.shared.ceiling
  {
  }

  function Run(m: Memory, events: seq<Event>): (m': Memory)
    requires FLOOR_KBPS <= m.shared.ceiling
    ensures m'.shared.ceiling == m.shared.ceiling
    decreases |events|
  {
    if events == [] then m else CeilingFixed(m, events[0]); Run(Next(m, events[0]), events[1..])
  }

  function Start(initialKbps: nat): Memory {
    Memory(New(initialKbps), [], [])
  }

  // ---------------------------------------------------------------------
  // Bounds.
  // ---------------------------------------------------------------------

  // What a call may be holding between two accesses.
  predicate Held(t: Thread, ceiling: nat) {
    match t
    case StoreEma(ema) => ema <= EMA_MAX
    case ReadClock(ema) => ema <= EMA_MAX
    case LoadLast(ema, _) => ema <= EMA_MAX
    case LoadTarget(ema, _) => ema <= EMA_MAX
    case StoreTarget(wanted, _) => InBounds(wanted, ceiling)
    case StoreCapacityTarget(wanted) => InBounds(wanted, ceiling)
    case _ => true
  }

  ghost predicate Inv(m: Memory) {
    Sane(m.shared) && forall i :: 0 <= i < |m.threads| ==> Held(m.threads[i], m.shared.ceiling)
  }

  lemma AccessKeepsBounds(c: Controller, t: Thread, now: nat)
    requires Sane(c) && Held(t, c.ceiling)
    ensures var after := Access(c, t, now);
      Sane(after.0) && after.0.ceiling == c.ceiling && Held(after.1, c.ceiling)
  {
    hide NextEma, PressureTarget, CapacityTarget, CoolingDown;
    match t {
      case LoadEma(samplePct) => EmaBounded(c.ema, samplePct);
      case LoadTarget(ema, _) => PressureTargetBounded(ema, c.target, c.ceiling);
      case LoadTargetForCapacity(measured) => CapacityTargetBounded(measured, c.target, c.ceiling);
      case _ =>
    }
  }

  lemma InvStep(m: Memory, e: Event)
    requires Inv(m)
    ensures Inv(Next(m, e))
  {
    hide Access;
    if e.Steps? && e.i < |m.threads| {
      AccessKeepsBounds(m.shared, m.threads[e.i], e.now);
    }
  }

  lemma {:induction false} InvRun(m: Memory, events: seq<Event>)
    requires Inv(m)
    ensures Inv(Run(m, events))
    decreases |events|
  {
    if events != [] {
      InvStep(m, events[0]);
      InvRun(Next(m, events[0]), events[1..]);
    }
  }

  // Under every interleaving of the accesses of any number of calls the
  // target stays between floor and ceiling and the average at most 200
  // percent, so that its next update fits 32 bits.
  lemma BoundsUnderEveryInterleaving(initialKbps: nat, events: seq<Event>, samplePct: nat)
    requires FLOOR_KBPS <= initialKbps <= U32_MAX
    ensures var m := Run(Start(initialKbps), events);
      && FLOOR_KBPS <= m.shared.target <= initialKbps
      && m.shared.ema <= EMA_MAX
      && SatMul(m.shared.ema, 7) + SatMul(Min(samplePct, 200), 100) <= U32_MAX
  {
    InvRun(Start(initialKbps), events);
    EmaBounded(Run(Start(initialKbps), events).shared.ema, samplePct);
  }

  // ---------------------------------------------------------------------
  // When the gap between two moves is kept.
  // ---------------------------------------------------------------------

  // A call that has looked at the last adjustment, or taken the time, and may
  // still store it.
  predicate Pending(t: Thread) {
    t.LoadTarget? || t.StoreTarget? || t.StoreLast? || t.StoreLastAfter?
  }

  predicate TouchesLast(t: Thread) {
    t.LoadLast? || t.StoreLast? || t.StoreLastAfter?
  }

  // Nobody looks at the last adjustment or stores it while another call is
  // about to store it.
  ghost predicate Undisturbed(m: Memory, e: Event) {
    e.Steps? && e.i < |m.threads| && TouchesLast(m.threads[e.i]) ==>
      forall j :: 0 <= j < |m.threads| && j != e.i ==> !Pending(m.threads[j])
  }

  // All along a run, and the clock does not go back.
  ghost predicate Orderly(m: Memory, clock: nat, events: seq<Event>)
    requires FLOOR_KBPS <= m.shared.ceiling
    decreases |events|
  {
    events != [] ==>
      && Undisturbed(m, events[0])
      && (events[0].Steps? ==> clock <= events[0].now)
      && (CeilingFixed(m, events[0]);
          Orderly(Next(m, events[0]), if events[0].Steps? then events[0].now else clock, events[1..]))
  }

  // Moves that follow one not made at time zero come a cool-down after it.
  ghost predicate Spaced(moves: seq<nat>) {
    forall i, j :: 0 <= i < j < |moves| && moves[i] != 0 ==> moves[j] >= moves[i] + COOL_DOWN_NS
  }

  // Whether a move decided at this time would keep the gap.
  ghost predicate KeepsGap(moves: seq<nat>, now: nat) {
    forall i :: 0 <= i < |moves| && moves[i] != 0 ==> now >= moves[i] + COOL_DOWN_NS
  }

  ghost predicate NoneAfter(moves: seq<nat>, now: nat) {
    forall i :: 0 <= i < |moves| ==> moves[i] <= now
  }

  // What the thread at `i` knows of the moves made so far.
  ghost predicate Knows(t: Thread, moves: seq<nat>, clock: nat) {
    match t
    case LoadLast(_, taken) => taken <= clock
    case LoadTarget(_, taken) => taken <= clock && KeepsGap(moves, taken) && NoneAfter(moves, taken)
    case StoreTarget(_, taken) => taken <= clock && KeepsGap(moves, taken) && NoneAfter(moves, taken)
    case StoreLast(taken) => taken <= clock && NoneAfter(moves, taken)
    case StoreLastAfter(taken) => taken <= clock && NoneAfter(moves, taken)
    case _ => true
  }

  predicate PressurePending(t: Thread) {
    t.LoadTarget? || t.StoreTarget? || t.StoreLast?
  }

  predicate InTurn(reading: Thread, other: Thread) {
    (reading.LoadTarget? || reading.StoreTarget?) && other.StoreLastAfter? ==> reading.now <= other.now
  }

  ghost predicate Storing(threads: seq<Thread>) {
    exists i :: 0 <= i < |threads| && threads[i].StoreLast?
  }

  ghost predicate GapInv(m: Memory, clock: nat) {
    && Spaced(m.moves) && NoneAfter(m.moves, clock) && m.shared.lastAdjust <= clock
    && (forall i :: 0 <= i < |m.threads| ==> Knows(m.threads[i], m.moves, clock))
    // at most one pressure reading is past its look
    && (forall i, j :: 0 <= i < j < |m.threads| ==> !(PressurePending(m.threads[i]) && PressurePending(m.threads[j])))
    // the last adjustment covers all moves unless one is still to be stored
    && (NoneAfter(m.moves, m.shared.lastAdjust) || Storing(m.threads))
    // and whoever may store a time it took took it no earlier than that one
    && (forall i, j :: 0 <= i < |m.threads| && 0 <= j < |m.threads| ==> InTurn(m.threads[i], m.threads[j]))
    // a reading that has looked but not moved looked at all moves
    && (forall i :: 0 <= i < |m.threads| && (m.threads[i].LoadTarget? || m.threads[i].StoreTarget?) ==>
          NoneAfter(m.moves, m.shared.lastAdjust))
  }

  // Moving at a time that keeps the gap keeps all gaps.
  lemma SpacedSnoc(moves: seq<nat>, now: nat)
    requires Spaced(moves) && KeepsGap(moves, now)
    ensures Spaced(moves + [now])
  {
  }

  // A look that does not find the controller cooling down.
  lemma LookKeepsGap(moves: seq<nat>, lastAdjust: nat, now: nat)
    requires NoneAfter(moves, lastAdjust) && !CoolingDown(lastAdjust, now)
    ensures KeepsGap(moves, now) && NoneAfter(moves, now)
  {
  }

  // A move that is still to be stored stays so until its own next step.
  lemma StaysStoring(m: Memory, e: Event)
    requires FLOOR_KBPS <= m.shared.ceiling && Storing(m.threads)
    ensures Storing(Next(m, e).threads)
         || (e.Steps? && e.i < |m.threads| && m.threads[e.i].StoreLast?)
  {
    var j :| 0 <= j < |m.threads| && m.threads[j].StoreLast?;
    assert j < |Next(m, e).threads|;
    assert Next(m, e).threads[j] == m.threads[j] || (e.Steps? && e.i == j);
  }

  // Accesses that touch neither the last adjustment nor the moves.
  predicate Quiet(t: Thread) {
    !TouchesLast(t) && !t.StoreTarget? && !t.ReadClockAfter?
  }

  lemma GapQuiet(m: Memory, i: nat, now: nat)
    requires FLOOR_KBPS <= m.shared.ceiling && GapInv(m, now) && Undisturbed(m, Steps(i, now))
    requires i < |m.threads| && Quiet(m.threads[i])
    ensures GapInv(Next(m, Steps(i, now)), now)
  {
    hide CoolingDown, PressureTarget, CapacityTarget, NextEma, Storing, Spaced, KeepsGap, NoneAfter;
    if Storing(m.threads) {
      StaysStoring(m, Steps(i, now));
    }
    assert Next(m, Steps(i, now)).moves == m.moves;
  }

  lemma GapLook(m: Memory, i: nat, now: nat)
    requires FLOOR_KBPS <= m.shared.ceiling && GapInv(m, now) && Undisturbed(m, Steps(i, now))
    requires i < |m.threads| && m.threads[i].LoadLast?
    ensures GapInv(Next(m, Steps(i, now)), now)
  {
    hide CoolingDown, PressureTarget, CapacityTarget, NextEma, Storing, Spaced, KeepsGap, NoneAfter;
    NobodyStoring(m, Steps(i, now));
    assert Next(m, Steps(i, now)).moves == m.moves;
    if !CoolingDown(m.shared.lastAdjust, m.threads[i].now) {
      LookKeepsGap(m.moves, m.shared.lastAdjust, m.threads[i].now);
    }
  }

  lemma GapMove(m: Memory, i: nat, now: nat)
    requires FLOOR_KBPS <= m.shared.ceiling && GapInv(m, now) && Undisturbed(m, Steps(i, now))
    requires i < |m.threads| && m.threads[i].StoreTarget?
    ensures GapInv(Next(m, Steps(i, now)), now)
  {
    hide CoolingDown, PressureTarget, CapacityTarget, NextEma, Storing, Spaced, KeepsGap;
    SpacedSnoc(m.moves, m.threads[i].now);
    NowStoring(m, Steps(i, now));
  }

  lemma GapStore(m: Memory, i: nat, now: nat)
    requires FLOOR_KBPS <= m.shared.ceiling && GapInv(m, now) && Undisturbed(m, Steps(i, now))
    requires i < |m.threads| && (m.threads[i].StoreLast? || m.threads[i].StoreLastAfter?)
    ensures GapInv(Next(m, Steps(i, now)), now)
  {
    hide CoolingDown, PressureTarget, CapacityTarget, NextEma, Storing, Spaced, KeepsGap, NoneAfter;
    assert Next(m, Steps(i, now)).moves == m.moves;
  }

  lemma GapTake(m: Memory, i: nat, now: nat)
    requires FLOOR_KBPS <= m.shared.ceiling && GapInv(m, now) && Undisturbed(m, Steps(i, now))
    requires i < |m.threads| && m.threads[i].ReadClockAfter?
    ensures GapInv(Next(m, Steps(i, now)), now)
  {
    hide CoolingDown, PressureTarget, CapacityTarget, NextEma, Storing, Spaced, KeepsGap, NoneAfter;
    if Storing(m.threads) {
      StaysStoring(m, Steps(i, now));
    }
    assert Next(m, Steps(i, now)).moves == m.moves;
  }

  lemma GapStarts(m: Memory, clock: nat, call: Call)
    requires FLOOR_KBPS <= m.shared.ceiling && GapInv(m, clock)
    ensures GapInv(Next(m, Starts(call)), clock)
  {
    hide Storing, Spaced, KeepsGap, NoneAfter;
    if Storing(m.threads) {
      StaysStoring(m, Starts(call));
    }
  }

  lemma LaterClock(m: Memory, clock: nat, now: nat)
    requires GapInv(m, clock) && clock <= now
    ensures GapInv(m, now)
  {
    hide Storing, Spaced, KeepsGap;
  }

  lemma GapStep(m: Memory, clock: nat, e: Event)
    requires FLOOR_KBPS <= m.shared.ceiling && GapInv(m, clock) && Undisturbed(m, e)
    requires e.Steps? ==> clock <= e.now
    ensures GapInv(Next(m, e), if e.Steps? then e.now else clock)
  {
    hide GapInv, Undisturbed, Access;
    match e {
      case Starts(call) => GapStarts(m, clock, call);
      case Steps(i, now) =>
        LaterClock(m, clock, now);
        if i < |m.threads| {
          if m.threads[i].LoadLast? {
            GapLook(m, i, now);
          } else if m.threads[i].StoreTarget? {
            GapMove(m, i, now);
          } else if m.threads[i].ReadClockAfter? {
            GapTake(m, i, now);
          } else if TouchesLast(m.threads[i]) {
            GapStore(m, i, now);
          } else {
            GapQuiet(m, i, now);
          }
        }
    }
  }

  lemma NobodyStoring(m: Memory, e: Event)
    requires Undisturbed(m, e) && e.Steps? && e.i < |m.threads| && m.threads[e.i].LoadLast?
    ensures !Storing(m.threads)
  {
  }

  lemma NowStoring(m: Memory, e: Event)
    requires FLOOR_KBPS <= m.shared.ceiling && e.Steps? && e.i < |m.threads| && m.threads[e.i].StoreTarget?
    ensures Storing(Next(m, e).threads)
  {
    assert Next(m, e).threads[e.i].StoreLast?;
  }

  lemma {:induction false} GapRun(m: Memory, clock: nat, events: seq<Event>)
    requires FLOOR_KBPS <= m.shared.ceiling && GapInv(m, clock) && Orderly(m, clock, events)
    ensures Spaced(Run(m, events).moves)
    decreases |events|
  {
    hide Spaced, Undisturbed, Next;
    if events == [] {
      GapInvSpaced(m, clock);
    } else {
      hide GapInv;
      var e := events[0];
      CeilingFixed(m, e);
      GapStep(m, clock, e);
      GapRun(Next(m, e), if e.Steps? then e.now else clock, events[1..]);
    }
  }

  lemma GapInvSpaced(m: Memory, clock: nat)
    requires GapInv(m, clock)
    ensures Spaced(m.moves)
  {
  }

  // Over all interleavings of any calls from the start: as long as nobody
  // touches the last adjustment while another call is about to store it, and
  // the clock does not go back, pressure moves come a cool-down apart, after
  // the ones made at time zero.
  lemma MovesAreSpaced(initialKbps: nat, events: seq<Event>)
    requires FLOOR_KBPS <= initialKbps <= U32_MAX && Orderly(Start(initialKbps), 0, events)
    ensures Spaced(Run(Start(initialKbps), events).moves)
  {
    GapRun(Start(initialKbps), 0, events);
  }

  // ---------------------------------------------------------------------
  // Two runs from the start in which it is not.
  // ---------------------------------------------------------------------

  lemma {:induction false} RunConcat(m: Memory, a: seq<Event>, b: seq<Event>)
    requires FLOOR_KBPS <= m.shared.ceiling
    ensures Run(m, a + b) == Run(Run(m, a), b)
    decreases |a|
  {
    if a == [] {
      assert a + b == b;
    } else {
      CeilingFixed(m, a[0]);
      RunConcat(Next(m, a[0]), a[1..], b);
      assert (a + b)[1..] == a[1..] + b;
    }
  }

  // `count` steps of thread `i`, all at the same time.
  function StepsOf(i: nat, now: nat, count: nat): seq<Event> {
    seq(count, _ => Steps(i, now))
  }

  // A thread alone, `count` accesses on, and the moves it made.
  function Accesses(c: Controller, t: Thread, now: nat, count: nat): (Controller, Thread, seq<nat>)
    requires FLOOR_KBPS <= c.ceiling
    decreases count
  {
    if count == 0 then (c, t, [])
    else
      var after := Access(c, t, now);
      AccessCeiling(c, t, now);
      var end := Accesses(after.0, after.1, now, count - 1);
      (end.0, end.1, Moved(t) + end.2)
  }

  lemma AccessCeiling(c: Controller, t: Thread, now: nat)
    requires FLOOR_KBPS <= c.ceiling
    ensures Access(c, t, now).0.ceiling == c.ceiling
  {
  }

  lemma {:induction false} ThreadAlone(m: Memory, i: nat, now: nat, count: nat)
    requires FLOOR_KBPS <= m.shared.ceiling && i < |m.threads|
    ensures var after := Accesses(m.shared, m.threads[i], now, count);
      Run(m, StepsOf(i, now, count)) == Memory(after.0, m.threads[i := after.1], m.moves + after.2)
    decreases count
  {
    if count == 0 {
      assert m.threads[i := m.threads[i]] == m.threads && m.moves + [] == m.moves;
    } else {
      hide Access;
      var events := StepsOf(i, now, count);
      CeilingFixed(m, events[0]);
      var m' := Next(m, events[0]);
      ThreadAlone(m', i, now, count - 1);
      assert events[1..] == StepsOf(i, now, count - 1);
      var end := Accesses(m'.shared, m'.threads[i], now, count - 1);
      assert m.moves + (Moved(m.threads[i]) + end.2) == m'.moves + end.2;
    }
  }

  lemma AccessOnce(c: Controller, t: Thread, now: nat, count: nat)
    requires FLOOR_KBPS <= c.ceiling && count > 0
    ensures var after := Access(c, t, now);
      && after.0.ceiling == c.ceiling
      && var end := Accesses(after.0, after.1, now, count - 1);
         Accesses(c, t, now, count) == (end.0, end.1, if t.StoreTarget? then [t.now] + end.2 else end.2)
  {
    hide Access;
    AccessCeiling(c, t, now);
    var after := Access(c, t, now);
    assert [] + Accesses(after.0, after.1, now, count - 1).2 == Accesses(after.0, after.1, now, count - 1).2;
  }

  lemma NoAccess(c: Controller, t: Thread, now: nat)
    requires FLOOR_KBPS <= c.ceiling
    ensures Accesses(c, t, now, 0) == (c, t, [])
  {
  }

  // The first four accesses of a reading: the average is stored, the time
  // taken, and the last adjustment looked at.
  lemma ReadingStarts(c: Controller, now: nat)
    requires FLOOR_KBPS <= c.ceiling && !CoolingDown(c.lastAdjust, now)
    ensures var ema := NextEma(c.ema, 200);
      Accesses(c, LoadEma(200), now, 4) == (c.(ema := ema), LoadTarget(ema, now), [])
  {
    hide NextEma, CoolingDown, Accesses;
    var ema := NextEma(c.ema, 200);
    var c' := c.(ema := ema);
    AccessOnce(c, LoadEma(200), now, 4);
    AccessOnce(c, StoreEma(ema), now, 3);
    AccessOnce(c', ReadClock(ema), now, 2);
    AccessOnce(c', LoadLast(ema, now), now, 1);
    NoAccess(c', LoadTarget(ema, now), now);
  }

  // The last three, at any later time: the target is moved, and then the time
  // taken at the start is written.
  lemma ReadingEnds(c: Controller, ema: nat, taken: nat, now: nat)
    requires FLOOR_KBPS <= c.ceiling
    ensures Accesses(c, LoadTarget(ema, taken), now, 3)
         == match PressureTarget(ema, c.target, c.ceiling)
            case None => (c, Done, [])
            case Some(wanted) => (c.(target := wanted, lastAdjust := taken), Done, [taken])
  {
    hide PressureTarget, Accesses;
    AccessOnce(c, LoadTarget(ema, taken), now, 3);
    match PressureTarget(ema, c.target, c.ceiling) {
      case None =>
        AccessOnce(c, Done, now, 2);
        AccessOnce(c, Done, now, 1);
        NoAccess(c, Done, now);
      case Some(wanted) =>
        var c' := c.(target := wanted);
        AccessOnce(c, StoreTarget(wanted, taken), now, 2);
        AccessOnce(c', StoreLast(taken), now, 1);
        NoAccess(c'.(lastAdjust := taken), Done, now);
        assert [taken] + [] == [taken];
    }
  }

  // A clock that does not go back.
  ghost predicate Forward(clock: nat, events: seq<Event>)
    decreases |events|
  {
    events != [] ==>
      && (events[0].Steps? ==> clock <= events[0].now)
      && Forward(if events[0].Steps? then events[0].now else clock, events[1..])
  }

  lemma {:induction false} ForwardSteps(clock: nat, i: nat, now: nat, count: nat, rest: seq<Event>)
    requires clock <= now && Forward(now, rest)
    ensures Forward(now, StepsOf(i, now, count) + rest)
    ensures count > 0 ==> Forward(clock, StepsOf(i, now, count) + rest)
    decreases count
  {
    var events := StepsOf(i, now, count) + rest;
    if count == 0 {
      assert events == rest;
    } else {
      ForwardSteps(now, i, now, count - 1, rest);
      assert events[1..] == StepsOf(i, now, count - 1) + rest;
    }
  }

  // A reading of 200 percent begins, as thread `i`.
  const BEGIN := [Starts(RecordPressure(200))]

  lemma Begins(m: Memory, clock: nat, rest: seq<Event>)
    requires FLOOR_KBPS <= m.shared.ceiling
    ensures var m' := Memory(m.shared, m.threads + [LoadEma(200)], m.moves); Run(m, BEGIN + rest) == Run(m', rest)
    ensures Forward(clock, rest) ==> Forward(clock, BEGIN + rest)
  {
    var events := BEGIN + rest;
    assert events[0] == Starts(RecordPressure(200)) && events[1..] == rest;
    CeilingFixed(m, events[0]);
  }

  // The first four accesses of a reading in a run.
  lemma Looks(m: Memory, i: nat, now: nat, rest: seq<Event>)
    requires FLOOR_KBPS <= m.shared.ceiling && i < |m.threads| && m.threads[i] == LoadEma(200)
    requires !CoolingDown(m.shared.lastAdjust, now)
    ensures var ema := NextEma(m.shared.ema, 200);
      Run(m, StepsOf(i, now, 4) + rest)
      == Run(Memory(m.shared.(ema := ema), m.threads[i := LoadTarget(ema, now)], m.moves), rest)
  {
    hide Accesses, Run, NextEma, CoolingDown, StepsOf;
    ReadingStarts(m.shared, now);
    ThreadAlone(m, i, now, 4);
    RunConcat(m, StepsOf(i, now, 4), rest);
    assert m.moves + [] == m.moves;
  }

  // And the last three.
  lemma Ends(m: Memory, i: nat, now: nat, rest: seq<Event>)
    requires FLOOR_KBPS <= m.shared.ceiling && i < |m.threads| && m.threads[i].LoadTarget?
    ensures var taken := m.threads[i].now;
      Run(m, StepsOf(i, now, 3) + rest)
      == match PressureTarget(m.threads[i].ema, m.shared.target, m.shared.ceiling)
         case None => Run(m.(threads := m.threads[i := Done]), rest)
         case Some(wanted) => Run(Memory(m.shared.(target := wanted, lastAdjust := taken),
                                         m.threads[i := Done], m.moves + [taken]), rest)
  {
    hide Accesses, Run, PressureTarget, StepsOf;
    ReadingEnds(m.shared, m.threads[i].ema, m.threads[i].now, now);
    ThreadAlone(m, i, now, 3);
    RunConcat(m, StepsOf(i, now, 3), rest);
    assert m.moves + [] == m.moves;
  }

  // A whole reading, undisturbed.
  function Whole(i: nat, now: nat, rest: seq<Event>): seq<Event> {
    BEGIN + (StepsOf(i, now, 4) + (StepsOf(i, now, 3) + rest))
  }

  lemma WholeRuns(m: Memory, i: nat, clock: nat, now: nat, rest: seq<Event>)
    requires FLOOR_KBPS <= m.shared.ceiling && i == |m.threads| && !CoolingDown(m.shared.lastAdjust, now)
    ensures var ema := NextEma(m.shared.ema, 200);
      Run(m, Whole(i, now, rest))
      == match PressureTarget(ema, m.shared.target, m.shared.ceiling)
         case None => Run(Memory(m.shared.(ema := ema), m.threads + [Done], m.moves), rest)
         case Some(wanted) => Run(Memory(m.shared.(ema := ema, target := wanted, lastAdjust := now),
                                         m.threads + [Done], m.moves + [now]), rest)
    ensures clock <= now && Forward(now, rest) ==> Forward(clock, Whole(i, now, rest))
  {
    hide Run, PressureTarget, NextEma, CoolingDown, StepsOf, Forward;
    var tail := StepsOf(i, now, 3) + rest;
    var steps := StepsOf(i, now, 4) + tail;
    Begins(m, clock, steps);
    var m1 := Memory(m.shared, m.threads + [LoadEma(200)], m.moves);
    Looks(m1, i, now, tail);
    var ema := NextEma(m.shared.ema, 200);
    var m2 := Memory(m.shared.(ema := ema), m.threads + [LoadTarget(ema, now)], m.moves);
    assert m1.threads[i := LoadTarget(ema, now)] == m2.threads;
    Ends(m2, i, now, rest);
    assert m2.threads[i := Done] == m.threads + [Done];
    if clock <= now && Forward(now, rest) {
      ForwardSteps(now, i, now, 3, rest);
      ForwardSteps(clock, i, now, 4, tail);
    }
  }

  // Three readings that bring the average just below the threshold.
  function WarmUp(rest: seq<Event>): seq<Event> {
    Whole(0, 1, Whole(1, 1, Whole(2, 1, rest)))
  }

  const WARM := Memory(Controller(2000, 2000, 6601, 0), [Done, Done, Done], [])

  lemma WarmsUp(rest: seq<Event>)
    ensures Run(Start(2000), WarmUp(rest)) == Run(WARM, rest)
    ensures Forward(1, rest) ==> Forward(0, WarmUp(rest))
  {
    hide Run, Whole, Forward;
    var third := Whole(2, 1, rest);
    var second := Whole(1, 1, third);
    WholeRuns(Start(2000), 0, 0, 1, second);
    WholeRuns(Memory(Controller(2000, 2000, 2500, 0), [Done], []), 1, 1, 1, third);
    WholeRuns(Memory(Controller(2000, 2000, 4687, 0), [Done, Done], []), 2, 1, 1, rest);
    assert [] + [Done] == [Done] && [Done] + [Done] == [Done, Done] && [Done, Done] + [Done] == [Done, Done, Done];
  }

  const TEN := 10_000_000_000
  const HUNDRED := 100_000_000_000

  // Two callers look before either has written: both move at once.
  function BothLook(): seq<Event> {
    WarmUp(BEGIN + (BEGIN + (StepsOf(3, TEN, 4) + (StepsOf(4, TEN, 4) + (StepsOf(3, TEN, 3) + (StepsOf(4, TEN, 3) + []))))))
  }

  // The averages and targets those readings pass through.
  lemma Downshifts()
    ensures NextEma(6601, 200) == 8275 && NextEma(8275, 200) == 9740 && NextEma(9740, 200) == 11_022
    ensures PressureTarget(8275, 2000, 2000) == Some(1500) && PressureTarget(9740, 2000, 2000) == Some(1500)
    ensures PressureTarget(8275, 1500, 2000) == Some(1125) && PressureTarget(9740, 1500, 2000) == Some(1125)
    ensures PressureTarget(11_022, 1125, 2000) == Some(843)
    ensures !CoolingDown(0, TEN) && !CoolingDown(0, HUNDRED) && !CoolingDown(TEN, HUNDRED + 1)
  {
  }

  lemma BothLookForward()
    ensures Forward(0, BothLook())
  {
    hide Run, Forward, StepsOf, WarmUp;
    var e6 := StepsOf(4, TEN, 3) + [];
    var e5 := StepsOf(3, TEN, 3) + e6;
    var e4 := StepsOf(4, TEN, 4) + e5;
    var e3 := StepsOf(3, TEN, 4) + e4;
    Finished(WARM, TEN);
    ForwardSteps(TEN, 4, TEN, 3, []);
    ForwardSteps(TEN, 3, TEN, 3, e6);
    ForwardSteps(TEN, 4, TEN, 4, e5);
    ForwardSteps(1, 3, TEN, 4, e4);
    Begins(WARM, 1, e3);
    Begins(WARM, 1, BEGIN + e3);
    WarmsUp(BEGIN + (BEGIN + e3));
  }

  lemma TwoMovesInsideCoolDown()
    ensures Forward(0, BothLook()) && Run(Start(2000), BothLook()).moves == [TEN, TEN]
  {
    hide Run, Forward, StepsOf, WarmUp, NextEma, PressureTarget, CoolingDown;
    BothLookForward();
    Downshifts();
    var e6 := StepsOf(4, TEN, 3) + [];
    var e5 := StepsOf(3, TEN, 3) + e6;
    var e4 := StepsOf(4, TEN, 4) + e5;
    var e3 := StepsOf(3, TEN, 4) + e4;
    var e2 := BEGIN + e3;
    WarmsUp(BEGIN + e2);
    Begins(WARM, 1, e2);
    Begins(Memory(WARM.shared, WARM.threads + [LoadEma(200)], []), 1, e3);
    var m2 := Memory(WARM.shared, [Done, Done, Done, LoadEma(200), LoadEma(200)], []);
    assert WARM.threads + [LoadEma(200)] + [LoadEma(200)] == m2.threads;
    Looks(m2, 3, TEN, e4);
    var m3 := Memory(Controller(2000, 2000, 8275, 0), [Done, Done, Done, LoadTarget(8275, TEN), LoadEma(200)], []);
    assert m2.threads[3 := LoadTarget(8275, TEN)] == m3.threads;
    Looks(m3, 4, TEN, e5);
    var m4 := Memory(Controller(2000, 2000, 9740, 0),
                     [Done, Done, Done, LoadTarget(8275, TEN), LoadTarget(9740, TEN)], []);
    assert m3.threads[4 := LoadTarget(9740, TEN)] == m4.threads;
    BothMove(m4, e6);
  }

  // The second half of that run.
  lemma BothMove(m4: Memory, e6: seq<Event>)
    requires m4 == Memory(Controller(2000, 2000, 9740, 0),
                          [Done, Done, Done, LoadTarget(8275, TEN), LoadTarget(9740, TEN)], [])
    requires e6 == StepsOf(4, TEN, 3) + []
    ensures Run(m4, StepsOf(3, TEN, 3) + e6).moves == [TEN, TEN]
  {
    hide Run, Forward, StepsOf, NextEma, PressureTarget, CoolingDown;
    Downshifts();
    Ends(m4, 3, TEN, e6);
    var m5 := Memory(Controller(1500, 2000, 9740, TEN), [Done, Done, Done, Done, LoadTarget(9740, TEN)], [TEN]);
    assert m4.threads[3 := Done] == m5.threads && m4.moves + [TEN] == m5.moves;
    Ends(m5, 4, TEN, []);
    var m6 := Memory(Controller(1125, 2000, 9740, TEN), [Done, Done, Done, Done, Done], [TEN, TEN]);
    assert m5.threads[4 := Done] == m6.threads && m5.moves + [TEN] == m6.moves;
    Finished(m6, TEN);
  }

  lemma Finished(m: Memory, clock: nat)
    requires FLOOR_KBPS <= m.shared.ceiling
    ensures Run(m, []) == m && Forward(clock, [])
  {
  }

  // A caller that looked long ago writes its old time over a newer one: the
  // next caller sees no move of late, and moves again.
  function StaleWriter(): seq<Event> {
    WarmUp(BEGIN + (StepsOf(3, TEN, 4) + Whole(4, HUNDRED, StepsOf(3, HUNDRED, 3) + Whole(5, HUNDRED + 1, []))))
  }

  lemma StaleWriterForward()
    ensures Forward(0, StaleWriter())
  {
    hide Run, Forward, StepsOf, WarmUp, Whole;
    var e4 := Whole(5, HUNDRED + 1, []);
    var e3 := StepsOf(3, HUNDRED, 3) + e4;
    var e2 := Whole(4, HUNDRED, e3);
    Finished(WARM, HUNDRED + 1);
    WholeForward(5, HUNDRED, HUNDRED + 1, []);
    ForwardSteps(HUNDRED, 3, HUNDRED, 3, e4);
    WholeForward(4, TEN, HUNDRED, e3);
    ForwardSteps(1, 3, TEN, 4, e2);
    Begins(WARM, 1, StepsOf(3, TEN, 4) + e2);
    WarmsUp(BEGIN + (StepsOf(3, TEN, 4) + e2));
  }

  lemma WholeForward(i: nat, clock: nat, now: nat, rest: seq<Event>)
    requires clock <= now && Forward(now, rest)
    ensures Forward(clock, Whole(i, now, rest))
  {
    hide Forward, StepsOf, Run;
    ForwardSteps(now, i, now, 3, rest);
    ForwardSteps(clock, i, now, 4, StepsOf(i, now, 3) + rest);
    Begins(WARM, clock, StepsOf(i, now, 4) + (StepsOf(i, now, 3) + rest));
  }

  lemma MovesAfterStaleWriter()
    ensures Forward(0, StaleWriter()) && Run(Start(2000), StaleWriter()).moves == [HUNDRED, TEN, HUNDRED + 1]
  {
    hide Run, Forward, StepsOf, WarmUp, Whole, NextEma, PressureTarget, CoolingDown;
    StaleWriterForward();
    Downshifts();
    var e4 := Whole(5, HUNDRED + 1, []);
    var e3 := StepsOf(3, HUNDRED, 3) + e4;
    var e2 := Whole(4, HUNDRED, e3);
    var e1 := StepsOf(3, TEN, 4) + e2;
    WarmsUp(BEGIN + e1);
    Begins(WARM, 1, e1);
    var m1 := Memory(WARM.shared, [Done, Done, Done, LoadEma(200)], []);
    assert WARM.threads + [LoadEma(200)] == m1.threads;
    Looks(m1, 3, TEN, e2);
    var m2 := Memory(Controller(2000, 2000, 8275, 0), [Done, Done, Done, LoadTarget(8275, TEN)], []);
    assert m1.threads[3 := LoadTarget(8275, TEN)] == m2.threads;
    WholeRuns(m2, 4, TEN, HUNDRED, e3);
    var m3 := Memory(Controller(1500, 2000, 9740, HUNDRED), [Done, Done, Done, LoadTarget(8275, TEN), Done], [HUNDRED]);
    assert m2.threads + [Done] == m3.threads && m2.moves + [HUNDRED] == m3.moves;
    StaleWrites(m3, e4);
  }

  // The second half of that run.
  lemma StaleWrites(m3: Memory, e4: seq<Event>)
    requires m3 == Memory(Controller(1500, 2000, 9740, HUNDRED),
                          [Done, Done, Done, LoadTarget(8275, TEN), Done], [HUNDRED])
    requires e4 == Whole(5, HUNDRED + 1, [])
    ensures Run(m3, StepsOf(3, HUNDRED, 3) + e4).moves == [HUNDRED, TEN, HUNDRED + 1]
  {
    hide Run, Forward, StepsOf, Whole, NextEma, PressureTarget, CoolingDown;
    Downshifts();
    Ends(m3, 3, HUNDRED, e4);
    var m4 := Memory(Controller(1125, 2000, 9740, TEN), [Done, Done, Done, Done, Done], [HUNDRED, TEN]);
    assert m3.threads[3 := Done] == m4.threads && m3.moves + [TEN] == m4.moves;
    WholeRuns(m4, 5, HUNDRED, HUNDRED + 1, []);
    var m5 := Memory(Controller(843, 2000, 11_022, HUNDRED + 1), [Done, Done, Done, Done, Done, Done],
                     [HUNDRED, TEN, HUNDRED + 1]);
    assert m4.threads + [Done] == m5.threads && m4.moves + [HUNDRED + 1] == m5.moves;
    Finished(m5, HUNDRED + 1);
  }

  // ---------------------------------------------------------------------
  // A call that nobody gets in the way of.
  // ---------------------------------------------------------------------

  // What a whole call does when it runs alone.
  function Sequential(c: Controller, call: Call, now: nat): Controller
    requires FLOOR_KBPS <= c.ceiling
  {
    match call
    case RecordPressure(samplePct) => AfterPressure(c, samplePct, now)
    case ObserveLinkCapacity(measured) =>
      if CapacityTarget(measured, c.target, c.ceiling).Some?
      then c.(target := AfterCapacity(measured, c.target, c.ceiling), lastAdjust := now) else c
    case DropToFloor => c.(target := 500, lastAdjust := now)
  }

  lemma {:induction false} DoneStays(c: Controller, now: nat, count: nat)
    requires FLOOR_KBPS <= c.ceiling
    ensures Accesses(c, Done, now, count) == (c, Done, [])
  {
    hide Accesses;
    if count == 0 {
      NoAccess(c, Done, now);
    } else {
      DoneStays(c, now, count - 1);
      AccessOnce(c, Done, now, count);
    }
  }

  // Access by access, a call alone is the sequential call.
  lemma CallAlone(c: Controller, call: Call, now: nat)
    requires FLOOR_KBPS <= c.ceiling
    ensures Accesses(c, Begin(call), now, 7).0 == Sequential(c, call, now)
    ensures Accesses(c, Begin(call), now, 7).1 == Done
  {
    match call {
      case RecordPressure(samplePct) => PressureAlone(c, samplePct, now);
      case ObserveLinkCapacity(measured) => CapacityAlone(c, measured, now);
      case DropToFloor =>
        var c' := c.(target := FLOOR_KBPS);
        AccessOnce(c, StoreFloor, now, 7);
        EndsAfter(c', now, 6);
    }
  }

  // The last two accesses of a call that has stored a target.
  lemma EndsAfter(c: Controller, now: nat, count: nat)
    requires FLOOR_KBPS <= c.ceiling && count >= 2
    ensures Accesses(c, ReadClockAfter, now, count) == (c.(lastAdjust := now), Done, [])
  {
    hide Accesses;
    AccessOnce(c, ReadClockAfter, now, count);
    AccessOnce(c, StoreLastAfter(now), now, count - 1);
    DoneStays(c.(lastAdjust := now), now, count - 2);
  }

  lemma CapacityAlone(c: Controller, measured: nat, now: nat)
    requires FLOOR_KBPS <= c.ceiling
    ensures Accesses(c, LoadTargetForCapacity(measured), now, 7).0 == Sequential(c, ObserveLinkCapacity(measured), now)
    ensures Accesses(c, LoadTargetForCapacity(measured), now, 7).1 == Done
  {
    hide Accesses, CapacityTarget;
    AccessOnce(c, LoadTargetForCapacity(measured), now, 7);
    match CapacityTarget(measured, c.target, c.ceiling) {
      case None => DoneStays(c, now, 6);
      case Some(wanted) =>
        AccessOnce(c, StoreCapacityTarget(wanted), now, 6);
        EndsAfter(c.(target := wanted), now, 5);
    }
  }

  lemma PressureAlone(c: Controller, samplePct: nat, now: nat)
    requires FLOOR_KBPS <= c.ceiling
    ensures Accesses(c, LoadEma(samplePct), now, 7).0 == AfterPressure(c, samplePct, now)
    ensures Accesses(c, LoadEma(samplePct), now, 7).1 == Done
  {
    hide Accesses, NextEma, CoolingDown, PressureTarget;
    var ema := NextEma(c.ema, samplePct);
    var c' := c.(ema := ema);
    AccessOnce(c, LoadEma(samplePct), now, 7);
    AccessOnce(c, StoreEma(ema), now, 6);
    AccessOnce(c', ReadClock(ema), now, 5);
    AccessOnce(c', LoadLast(ema, now), now, 4);
    if CoolingDown(c.lastAdjust, now) {
      DoneStays(c', now, 3);
    } else {
      ReadingEnds(c', ema, now, now);
    }
  }
}
