// Blocking playlist reloads: any number of waiting requests, interleaved with
// the segmenter's writes.
module BlockingReload {
  import opened Wrappers
  import opened Bytes
  import opened SegmentRing
  import opened RingHistory
  import opened Playlist

  // Where a waiting request stands. `seen` is the wake-up count captured when
  // its notification future was created.
  datatype Stage =
    | Entering
    | Looping
    | Watching(seen: nat)
    | Checked(seen: nat)
    | Parked(seen: nat)
    | Finished(served: bool)

  datatype Waiter = Waiter(msn: nat, part: Option<nat>, stage: Stage)

  datatype World = World(ring: Ring, waiters: seq<Waiter>)

  // One atomic step of somebody: a write under the write lock, a new request,
  // or one step of waiter `i`, whose deadline may have passed by then.
  datatype Event =
    | Writes(w: Write)
    | Arrives(msn: nat, part: Option<nat>)
    | Steps(i: nat, expired: bool)

  // A parked waiter that is polled looks at its notification first and at its
  // deadline only when there is none.
  function Advance(ring: Ring, waiter: Waiter, expired: bool): Stage {
    var reached := HasReached(ring, waiter.msn, waiter.part);
    match waiter.stage
    case Entering => if reached then Finished(true) else Looping
    case Looping => Watching(ring.generation)
    case Watching(seen) => if reached then Finished(true) else Checked(seen)
    case Checked(seen) => if expired then Finished(false) else Parked(seen)
    case Parked(seen) =>
      if ring.generation != seen then Looping
      else if expired then Finished(false)
      else Parked(seen)
    case Finished(served) => Finished(served)
  }

  function Next(world: World, e: Event): World {
    match e
    case Writes(w) => world.(ring := Apply(world.ring, w))
    case Arrives(msn, part) => world.(waiters := world.waiters + [Waiter(msn, part, Entering)])
    case Steps(i, expired) =>
      if i >= |world.waiters| then world
      else
        var waiter := world.waiters[i];
        world.(waiters := world.waiters[i := waiter.(stage := Advance(world.ring, waiter, expired))])
  }

  function Run(world: World, events: seq<Event>): World
    decreases |events|
  {
    if events == [] then world else Run(Next(world, events[0]), events[1..])
  }

  // The segmenter never discards pending parts.
  ghost predicate Allowed(world: World, events: seq<Event>)
    decreases |events|
  {
    events != [] ==>
      && (events[0].Writes? ==> Disciplined(world.ring, events[0].w))
      && Allowed(Next(world, events[0]), events[1..])
  }

  predicate TargetReached(ring: Ring, waiter: Waiter) {
    HasReached(ring, waiter.msn, waiter.part)
  }

  // ---------------------------------------------------------------------
  // The invariant of every interleaving.
  // ---------------------------------------------------------------------

  ghost predicate WaiterOk(ring: Ring, waiter: Waiter) {
    match waiter.stage
    case Entering => true
    case Looping => true
    case Watching(seen) => seen <= ring.generation
    case Checked(seen) => seen <= ring.generation && (TargetReached(ring, waiter) ==> seen < ring.generation)
    case Parked(seen) => seen <= ring.generation && (TargetReached(ring, waiter) ==> seen < ring.generation)
    case Finished(served) => served ==> TargetReached(ring, waiter)
  }

  ghost predicate Inv(world: World, h: History) {
    && world.ring.capacity >= 1
    && Refines(world.ring, h)
    && forall i :: 0 <= i < |world.waiters| ==> WaiterOk(world.ring, world.waiters[i])
  }

  function RecordEvent(h: History, e: Event): History {
    if e.Writes? then Record(h, e.w) else h
  }

  function RecordEvents(h: History, events: seq<Event>): History
    decreases |events|
  {
    if events == [] then h else RecordEvents(RecordEvent(h, events[0]), events[1..])
  }

  lemma AdvanceOk(ring: Ring, waiter: Waiter, expired: bool)
    requires WaiterOk(ring, waiter)
    ensures WaiterOk(ring, waiter.(stage := Advance(ring, waiter, expired)))
  {
    hide HasReached;
  }

  lemma WriteOk(ring: Ring, h: History, w: Write, waiter: Waiter)
    requires ring.capacity >= 1 && Refines(ring, h) && Disciplined(ring, w) && WaiterOk(ring, waiter)
    ensures WaiterOk(Apply(ring, w), waiter)
  {
    hide HasReached, Refines;
    if TargetReached(ring, waiter) {
      ReachedStep(ring, h, w, waiter.msn, waiter.part);
    }
  }

  lemma InvStep(world: World, h: History, e: Event)
    requires Inv(world, h)
    requires e.Writes? ==> Disciplined(world.ring, e.w)
    ensures Inv(Next(world, e), RecordEvent(h, e))
  {
    hide WaiterOk, Advance, Refines, Disciplined, Record;
    match e {
      case Writes(w) =>
        StepRefines(world.ring, h, w);
        forall i | 0 <= i < |world.waiters| ensures WaiterOk(Apply(world.ring, w), world.waiters[i]) {
          WriteOk(world.ring, h, w, world.waiters[i]);
        }
      case Arrives(msn, part) => EnteringOk(world.ring, msn, part);
      case Steps(i, expired) =>
        if i < |world.waiters| {
          AdvanceOk(world.ring, world.waiters[i], expired);
        }
    }
  }

  lemma EnteringOk(ring: Ring, msn: nat, part: Option<nat>)
    ensures WaiterOk(ring, Waiter(msn, part, Entering))
  {
  }

  lemma {:induction false} InvRun(world: World, h: History, events: seq<Event>)
    requires Inv(world, h) && Allowed(world, events)
    ensures Inv(Run(world, events), RecordEvents(h, events))
    decreases |events|
  {
    if events != [] {
      InvStep(world, h, events[0]);
      InvRun(Next(world, events[0]), RecordEvent(h, events[0]), events[1..]);
    }
  }

  function Start(capacity: nat): World {
    World(Empty(capacity), [])
  }

  lemma Reachable(capacity: nat, events: seq<Event>)
    requires capacity >= 1 && Allowed(Start(capacity), events)
    ensures Inv(Run(Start(capacity), events), RecordEvents(History([], []), events))
  {
    InvRun(Start(capacity), History([], []), events);
  }

  // ---------------------------------------------------------------------
  // Main results.
  // ---------------------------------------------------------------------

  // No lost wake-up: in every interleaving, a parked waiter whose point has
  // been reached has a wake-up pending, so its next step leaves the park.
  lemma NoLostWakeup(capacity: nat, events: seq<Event>, i: nat, expired: bool)
    requires capacity >= 1 && Allowed(Start(capacity), events)
    requires var world := Run(Start(capacity), events);
      i < |world.waiters| && world.waiters[i].stage.Parked? && TargetReached(world.ring, world.waiters[i])
    ensures var world := Run(Start(capacity), events);
      && world.waiters[i].stage.seen < world.ring.generation
      && Next(world, Steps(i, expired)).waiters[i].stage == Looping
  {
    Reachable(capacity, events);
  }

  // A waiter gives up from the park, or between its last check and the park.
  // When its point has been reached all the same, it is the latter, and the
  // write that reached it came after that check.
  lemma GivesUpOnlyUnreached(capacity: nat, events: seq<Event>, i: nat)
    requires capacity >= 1 && Allowed(Start(capacity), events)
    requires var world := Run(Start(capacity), events);
      && i < |world.waiters| && world.waiters[i].stage != Finished(false)
      && Next(world, Steps(i, true)).waiters[i].stage == Finished(false)
    ensures var world := Run(Start(capacity), events);
      var waiter := world.waiters[i];
      && (waiter.stage.Checked? || waiter.stage.Parked?)
      && (TargetReached(world.ring, waiter) ==> waiter.stage.Checked? && waiter.stage.seen < world.ring.generation)
  {
    Reachable(capacity, events);
  }

  // Such a run: the part is published right after the check, and the deadline
  // passes before the park.
  lemma LateWrite(data: seq<byte>)
    ensures var events := [Arrives(0, Some(0)), Steps(0, false), Steps(0, false), Steps(0, false),
                           Writes(AddPart(Finite(1.0), true, 0, data))];
      var world := Run(Start(3), events);
      && Allowed(Start(3), events) && |world.waiters| == 1
      && TargetReached(world.ring, world.waiters[0])
      && Next(world, Steps(0, true)).waiters[0].stage == Finished(false)
  {
    var w0, w := Start(3), AddPart(Finite(1.0), true, 0, data);
    var events := [Arrives(0, Some(0)), Steps(0, false), Steps(0, false), Steps(0, false), Writes(w)];
    var w1 := Next(w0, events[0]);
    var w2 := Next(w1, events[1]);
    var w3 := Next(w2, events[2]);
    var w4 := Next(w3, events[3]);
    var w5 := Next(w4, events[4]);
    assert w4.waiters[0].stage == Checked(0);
    assert w5.ring.pending[0].idx >= 0;
    RunSteps(w0, events);
    RunSteps(w1, events[1..]);
    RunSteps(w2, events[2..]);
    RunSteps(w3, events[3..]);
    RunSteps(w4, events[4..]);
    assert events[1..][1..] == events[2..] && events[2..][1..] == events[3..] && events[3..][1..] == events[4..];
    assert events[4..][1..] == [];
  }

  lemma RunSteps(world: World, events: seq<Event>)
    requires events != []
    ensures Run(world, events) == Run(Next(world, events[0]), events[1..])
    ensures Allowed(world, events)
       <==> (events[0].Writes? ==> Disciplined(world.ring, events[0].w)) && Allowed(Next(world, events[0]), events[1..])
  {
  }

  // When a request has been told its point is reached, every playlist built
  // from then on lists that segment, starts after it, or carries a pending
  // part at or past the one asked for.
  lemma ServedMeansListed(capacity: nat, events: seq<Event>, i: nat,
                          p: Playlist, minTarget: nat, partTarget: Option<Secs>)
    requires capacity >= 1 && Allowed(Start(capacity), events)
    requires var world := Run(Start(capacity), events);
      i < |world.waiters| && world.waiters[i].stage == Finished(true)
    requires Lists(p, Run(Start(capacity), events).ring, minTarget, partTarget)
    ensures var world := Run(Start(capacity), events);
      var msn, part := world.waiters[i].msn, world.waiters[i].part;
      || (exists k :: 0 <= k < |p.entries| && p.entries[k].uri == SegmentUri(msn))
      || p.mediaSequence > msn
      || (msn == world.ring.nextSeq && part.Some? && CarriesPendingFrom(p, world.ring, part.value))
  {
    Reachable(capacity, events);
    var world := Run(Start(capacity), events);
    var waiter := world.waiters[i];
    ReachedIsListed(world.ring, RecordEvents(History([], []), events), p, minTarget, partTarget,
                    waiter.msn, waiter.part);
  }

  // Steps left to an answer once the point has been reached.
  function StepsLeft(stage: Stage): nat {
    match stage
    case Entering => 1
    case Looping => 2
    case Watching(_) => 1
    case Checked(_) => 4
    case Parked(_) => 3
    case Finished(_) => 0
  }

  function OwnSteps(events: seq<Event>, i: nat): nat
    decreases |events|
  {
    if events == [] then 0
    else (if events[0].Steps? && events[0].i == i then 1 else 0) + OwnSteps(events[1..], i)
  }

  // Once its point is reached, a waiter inside its deadline is served after
  // at most four steps of its own, whatever everybody else does meanwhile.
  lemma {:induction false} ServedInFourSteps(world: World, h: History, events: seq<Event>, i: nat)
    requires Inv(world, h) && Allowed(world, events)
    requires i < |world.waiters| && TargetReached(world.ring, world.waiters[i])
    requires world.waiters[i].stage != Finished(false)
    requires forall k :: 0 <= k < |events| && events[k].Steps? && events[k].i == i ==> !events[k].expired
    requires OwnSteps(events, i) >= StepsLeft(world.waiters[i].stage)
    ensures i < |Run(world, events).waiters| && Run(world, events).waiters[i].stage == Finished(true)
    decreases |events|
  {
    if events != [] {
      var e := events[0];
      InvStep(world, h, e);
      if e.Writes? {
        ReachedStep(world.ring, h, e.w, world.waiters[i].msn, world.waiters[i].part);
      }
      ServedInFourSteps(Next(world, e), RecordEvent(h, e), events[1..], i);
    }
  }

  // ---------------------------------------------------------------------
  // Giving up, exactly.
  // ---------------------------------------------------------------------

  // The writes since waiter `i` made its notification last, told from the
  // events of a run.
  function WritesSince(start: World, events: seq<Event>, i: nat): nat {
    if events == [] then 0
    else
      var init, last := events[..|events| - 1], events[|events| - 1];
      var before := Run(start, init);
      if last.Writes? then WritesSince(start, init, i) + 1
      else if last.Steps? && last.i == i && i < |before.waiters| && before.waiters[i].stage == Looping then 0
      else WritesSince(start, init, i)
  }

  lemma {:induction false} RunConcat(world: World, a: seq<Event>, b: seq<Event>)
    ensures Run(world, a + b) == Run(Run(world, a), b)
    decreases |a|
  {
    hide Next;
    if a == [] {
      assert a + b == b;
    } else {
      RunConcat(Next(world, a[0]), a[1..], b);
      assert (a + b)[1..] == a[1..] + b;
    }
  }

  lemma RunLast(world: World, events: seq<Event>)
    requires events != []
    ensures Run(world, events) == Next(Run(world, events[..|events| - 1]), events[|events| - 1])
  {
    hide Next;
    var init, last := events[..|events| - 1], events[|events| - 1];
    RunConcat(world, init, [last]);
    assert events == init + [last] && [last][1..] == [];
  }

  // The wake-up count a waiter holds is as many writes old as came since.
  ghost predicate SeenIs(stage: Stage, generation: nat, writes: nat) {
    match stage
    case Watching(seen) => seen + writes == generation
    case Checked(seen) => seen + writes == generation
    case Parked(seen) => seen + writes == generation
    case _ => true
  }

  lemma {:induction false} SeenFromEvents(capacity: nat, events: seq<Event>, i: nat)
    ensures var world := Run(Start(capacity), events);
      i < |world.waiters| ==> SeenIs(world.waiters[i].stage, world.ring.generation, WritesSince(Start(capacity), events, i))
    decreases |events|
  {
    if events != [] {
      hide HasReached;
      SeenFromEvents(capacity, events[..|events| - 1], i);
      RunLast(Start(capacity), events);
    }
  }

  // A step answers "not reached" if and only if the deadline has passed and
  // the waiter stands after its last check, or in the park with no write
  // since its notification was made.
  lemma GivesUpExactly(capacity: nat, events: seq<Event>, i: nat, expired: bool)
    requires var world := Run(Start(capacity), events); i < |world.waiters| && !world.waiters[i].stage.Finished?
    ensures var world := Run(Start(capacity), events);
      var stage := world.waiters[i].stage;
      Next(world, Steps(i, expired)).waiters[i].stage == Finished(false)
      <==> expired && (stage.Checked? || (stage.Parked? && WritesSince(Start(capacity), events, i) == 0))
  {
    hide HasReached;
    SeenFromEvents(capacity, events, i);
  }

  ghost predicate NeverExpires(events: seq<Event>, i: nat) {
    forall k :: 0 <= k < |events| && events[k].Steps? && events[k].i == i ==> !events[k].expired
  }

  // A waiter inside its deadline never answers "not reached".
  lemma {:induction false} NeverGivesUpEarly(world: World, events: seq<Event>, i: nat)
    requires NeverExpires(events, i)
    requires i < |world.waiters| ==> world.waiters[i].stage != Finished(false)
    ensures i < |Run(world, events).waiters| ==> Run(world, events).waiters[i].stage != Finished(false)
    decreases |events|
  {
    if events != [] {
      hide HasReached;
      var e := events[0];
      NeverGivesUpEarly(Next(world, e), events[1..], i);
    }
  }

  // Steps left to the park while nothing is written.
  function StepsToPark(stage: Stage, generation: nat): nat {
    match stage
    case Entering => 4
    case Looping => 3
    case Watching(seen) => if seen == generation then 2 else 6
    case Checked(seen) => if seen == generation then 1 else 5
    case Parked(seen) => if seen == generation then 0 else 4
    case Finished(_) => 0
  }

  // A waiter inside its deadline whose point is not reached gets to the park
  // while nothing is written, after at most six steps of its own, and stays.
  lemma {:induction false} WaitsInThePark(world: World, events: seq<Event>, i: nat)
    requires i < |world.waiters| && !world.waiters[i].stage.Finished? && !TargetReached(world.ring, world.waiters[i])
    requires NeverExpires(events, i) && forall k :: 0 <= k < |events| ==> !events[k].Writes?
    requires OwnSteps(events, i) >= StepsToPark(world.waiters[i].stage, world.ring.generation)
    ensures i < |Run(world, events).waiters|
    ensures Run(world, events).waiters[i].stage == Parked(world.ring.generation)
    decreases |events|
  {
    if events != [] {
      hide HasReached;
      WaitsInThePark(Next(world, events[0]), events[1..], i);
    }
  }

  // Whatever is written meanwhile, as long as its point is not reached: it
  // keeps waiting.
  lemma {:induction false} KeepsWaiting(world: World, events: seq<Event>, i: nat)
    requires i < |world.waiters| && !world.waiters[i].stage.Finished? && NeverExpires(events, i)
    requires forall k :: 0 <= k <= |events| ==>
               var w := Run(world, events[..k]); i < |w.waiters| ==> !TargetReached(w.ring, w.waiters[i])
    ensures i < |Run(world, events).waiters| && !Run(world, events).waiters[i].stage.Finished?
    decreases |events|
  {
    if events != [] {
      hide HasReached;
      assert Run(world, events[..0]) == world by { assert events[..0] == []; }
      var world' := Next(world, events[0]);
      forall k | 0 <= k <= |events| - 1 ensures Run(world', events[1..][..k]) == Run(world, events[..k + 1]) {
        assert events[..k + 1][0] == events[0] && events[..k + 1][1..] == events[1..][..k];
      }
      KeepsWaiting(world', events[1..], i);
    }
  }

  // What the requests of a run asked for, in order of arrival.
  function Asked(events: seq<Event>): seq<(nat, Option<nat>)> {
    if events == [] then []
    else
      var before, last := Asked(events[..|events| - 1]), events[|events| - 1];
      if last.Arrives? then before + [(last.msn, last.part)] else before
  }

  // Every waiter waits for what its request asked for.
  lemma {:induction false} WaitsForWhatWasAsked(capacity: nat, events: seq<Event>)
    ensures var world := Run(Start(capacity), events);
      && |world.waiters| == |Asked(events)|
      && forall i :: 0 <= i < |world.waiters| ==> (world.waiters[i].msn, world.waiters[i].part) == Asked(events)[i]
    decreases |events|
  {
    if events != [] {
      hide Advance;
      WaitsForWhatWasAsked(capacity, events[..|events| - 1]);
      RunLast(Start(capacity), events);
    }
  }
}
