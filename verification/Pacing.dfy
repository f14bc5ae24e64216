// Wall-clock pacing of forced keyframes.
module Pacing {
  const KEYFRAME_INTERVAL := 2_000_000_000 // nanoseconds

  // ---------------------------------------------------------------------
  // Keyframes.
  // ---------------------------------------------------------------------

  // The first grid point after `now`, on the grid through `next`.
  function CatchUp(next: nat, now: nat): nat {
    if now < next then next else next + KEYFRAME_INTERVAL * ((now - next) / KEYFRAME_INTERVAL + 1)
  }

  class KeyframePacer {
    var nextKeyframeAt: nat

    constructor (start: nat)
      ensures nextKeyframeAt == start
    {
      nextKeyframeAt := start;
    }

    // Called once for every captured frame.
    method OnFrame(now: nat) returns (request: bool)
      modifies this
      ensures request <==> now >= old(nextKeyframeAt)
      ensures nextKeyframeAt == CatchUp(old(nextKeyframeAt), now)
      ensures nextKeyframeAt > now
      ensures request ==> nextKeyframeAt <= now + 2_000_000_000
    {
      request := now >= nextKeyframeAt;
      if request {
        ghost var start := nextKeyframeAt;
        ghost var steps := 0;
        while nextKeyframeAt <= now
          invariant nextKeyframeAt == start + KEYFRAME_INTERVAL * steps
          invariant steps <= (now - start) / KEYFRAME_INTERVAL + 1
          decreases now + KEYFRAME_INTERVAL - nextKeyframeAt
        {
          nextKeyframeAt := nextKeyframeAt + KEYFRAME_INTERVAL;
          steps := steps + 1;
        }
        assert steps == (now - start) / KEYFRAME_INTERVAL + 1;
      }
    }
  }

  // The pacer's deadline after frames at these times.
  function NextAfter(start: nat, times: seq<nat>): nat {
    if times == [] then start else CatchUp(NextAfter(start, times[..|times| - 1]), times[|times| - 1])
  }

  // Whether the k-th frame of a run is made a keyframe.
  predicate Requested(start: nat, times: seq<nat>, k: nat)
    requires k < |times|
  {
    times[k] >= NextAfter(start, times[..k])
  }

  function Slot(start: nat, t: nat): nat
    requires start <= t
  {
    (t - start) / KEYFRAME_INTERVAL
  }

  predicate Clock(start: nat, times: seq<nat>) {
    && (forall i :: 0 <= i < |times| ==> start <= times[i])
    && (forall i, j :: 0 <= i <= j < |times| ==> times[i] <= times[j])
  }

  // After any frames the deadline is the end of the last frame's slot.
  lemma {:induction false} DeadlineOnGrid(start: nat, times: seq<nat>)
    requires Clock(start, times) && times != []
    ensures NextAfter(start, times)
         == start + 2_000_000_000 * ((times[|times| - 1] - start) / 2_000_000_000 + 1)
  {
    var init, now := times[..|times| - 1], times[|times| - 1];
    if init != [] {
      DeadlineOnGrid(start, init);
      CatchUpOnGrid(start, Slot(start, init[|init| - 1]) + 1, now);
    } else {
      CatchUpOnGrid(start, 0, now);
    }
  }

  lemma CatchUpOnGrid(start: nat, slot: nat, now: nat)
    requires start <= now && slot <= Slot(start, now) + 1
    ensures CatchUp(start + KEYFRAME_INTERVAL * slot, now) == start + KEYFRAME_INTERVAL * (Slot(start, now) + 1)
  {
  }

  // A frame is made a keyframe exactly when it is the first one of its
  // two-second slot: one request in each slot that has a frame, never two.
  lemma FirstFrameOfEachSlot(start: nat, times: seq<nat>, k: nat)
    requires Clock(start, times) && k < |times|
    ensures Requested(start, times, k)
       <==> forall i :: 0 <= i < k ==> Slot(start, times[i]) < Slot(start, times[k])
  {
    if k > 0 {
      DeadlineOnGrid(start, times[..k]);
      var previous := times[k - 1];
      assert times[..k][k - 1] == previous;
      SlotsOrdered(start, previous, times[k]);
      forall i | 0 <= i < k ensures Slot(start, times[i]) <= Slot(start, previous) {
        SlotsOrdered(start, times[i], previous);
      }
    }
  }

  lemma SlotsOrdered(start: nat, a: nat, b: nat)
    requires start <= a <= b
    ensures Slot(start, a) <= Slot(start, b)
    ensures Slot(start, a) < Slot(start, b) <==> b >= start + KEYFRAME_INTERVAL * (Slot(start, a) + 1)
  {
  }
}
