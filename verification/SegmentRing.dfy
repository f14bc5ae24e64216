// The bounded ring of finished segments and the parts of the segment being
// built, refined against the full history of everything ever pushed.
module SegmentRing {
  import opened Wrappers
  import opened Bytes

  // A 32-bit float duration, with the values that are not numbers set apart.
  datatype Secs = Finite(value: real) | NonFinite

  datatype Part = Part(idx: nat, durationSecs: Secs, independent: bool, producedAt: nat, data: seq<byte>)

  datatype Segment = Segment(
    seqNo: nat, durationSecs: Secs, discontinuity: bool, producedAt: nat,
    data: seq<byte>, parts: seq<Part>)

  // ---------------------------------------------------------------------
  // The state of a ring and what each operation makes of it.
  // ---------------------------------------------------------------------

  // `generation` counts the wake-ups sent to blocked readers.
  datatype Ring = Ring(
    capacity: nat, segments: seq<Segment>, nextSeq: nat,
    discontinuitySeq: nat, pending: seq<Part>, generation: nat)

  function Empty(capacity: nat): Ring {
    Ring(capacity, [], 0, 0, [], 0)
  }

  function Newest<T>(s: seq<T>, count: nat): seq<T> {
    if |s| <= count then s else s[|s| - count..]
  }

  // Indices are stored in 32 bits.
  function NewPart(position: nat, durationSecs: Secs, independent: bool, now: nat, data: seq<byte>): Part {
    Part(position % U32_COUNT, durationSecs, independent, now, data)
  }

  function PushPendingPart(r: Ring, durationSecs: Secs, independent: bool, now: nat, data: seq<byte>): Ring {
    r.(pending := r.pending + [NewPart(|r.pending|, durationSecs, independent, now, data)],
       generation := r.generation + 1)
  }

  function PushWithParts(r: Ring, durationSecs: Secs, discontinuity: bool, now: nat, data: seq<byte>,
                         parts: seq<Part>): Ring {
    r.(segments := Newest(r.segments + [Segment(r.nextSeq, durationSecs, discontinuity, now, data, parts)],
                          r.capacity),
       nextSeq := r.nextSeq + 1,
       discontinuitySeq :=
         if discontinuity && r.segments != [] && r.discontinuitySeq < U32_COUNT - 1
         then r.discontinuitySeq + 1 else r.discontinuitySeq,
       pending := [],
       generation := r.generation + 1)
  }

  function CompletePendingSegment(r: Ring, durationSecs: Secs, discontinuity: bool, now: nat,
                                  data: seq<byte>): Ring {
    PushWithParts(r, durationSecs, discontinuity, now, data, r.pending)
  }

  // The segment pushed is the newest stored, as given, and nothing is pending.
  lemma PushStores(r: Ring, durationSecs: Secs, discontinuity: bool, now: nat, data: seq<byte>, parts: seq<Part>)
    requires r.capacity > 0
    ensures var r' := PushWithParts(r, durationSecs, discontinuity, now, data, parts);
      && r'.segments != [] && r'.pending == []
      && r'.segments[|r'.segments| - 1] == Segment(r.nextSeq, durationSecs, discontinuity, now, data, parts)
  {
  }

  // ---------------------------------------------------------------------
  // Queries.
  // ---------------------------------------------------------------------

  function FindSegment(segments: seq<Segment>, seqNo: nat): Option<Segment> {
    if segments == [] then None
    else if segments[0].seqNo == seqNo then Some(segments[0])
    else FindSegment(segments[1..], seqNo)
  }

  function FindPart(parts: seq<Part>, idx: nat): Option<Part> {
    if parts == [] then None
    else if parts[0].idx == idx then Some(parts[0])
    else FindPart(parts[1..], idx)
  }

  function Get(r: Ring, seqNo: nat): Option<Segment> {
    FindSegment(r.segments, seqNo)
  }

  function GetPart(r: Ring, seqNo: nat, idx: nat): Option<Part> {
    match Get(r, seqNo)
    case Some(segment) => FindPart(segment.parts, idx)
    case None => if seqNo == r.nextSeq then FindPart(r.pending, idx) else None
  }

  predicate AnyAtLeast(parts: seq<Part>, idx: nat) {
    exists i :: 0 <= i < |parts| && parts[i].idx >= idx
  }

  predicate HasReached(r: Ring, msn: nat, part: Option<nat>) {
    match Get(r, msn)
    case Some(segment) => part.None? || AnyAtLeast(segment.parts, part.value)
    case None =>
      if msn == r.nextSeq then part.Some? && AnyAtLeast(r.pending, part.value)
      else r.segments != [] && msn < r.segments[0].seqNo
  }

  // ---------------------------------------------------------------------
  // The object the program shares behind its lock.
  // ---------------------------------------------------------------------

  class SharedRing {
    const capacity: nat
    var segments: seq<Segment>
    var nextSeq: nat
    var discontinuitySeq: nat
    var pending: seq<Part>
    var generation: nat

    ghost function Value(): Ring
      reads this
    {
      Ring(capacity, segments, nextSeq, discontinuitySeq, pending, generation)
    }

    constructor (capacity: nat)
      ensures Value() == Empty(capacity)
      ensures this.capacity == capacity && segments == [] && pending == [] && nextSeq == 0
    {
      this.capacity := capacity;
      segments, nextSeq, discontinuitySeq, pending, generation := [], 0, 0, [], 0;
    }

    method AddPendingPart(durationSecs: Secs, independent: bool, now: nat, data: seq<byte>)
      returns (seqNo: nat, idx: nat)
      modifies this
      ensures Value() == PushPendingPart(old(Value()), durationSecs, independent, now, data)
      ensures seqNo == nextSeq == old(nextSeq) && idx == |old(pending)| % 0x1_0000_0000
      ensures pending == old(pending) + [Part(idx, durationSecs, independent, now, data)] && segments == old(segments)
    {
      idx := |pending| % U32_COUNT;
      seqNo := nextSeq;
      pending := pending + [Part(idx, durationSecs, independent, now, data)];
      generation := generation + 1;
    }

    method Append(durationSecs: Secs, discontinuity: bool, now: nat, data: seq<byte>, parts: seq<Part>)
      returns (seqNo: nat)
      requires |segments| <= capacity
      modifies this
      ensures Value() == PushWithParts(old(Value()), durationSecs, discontinuity, now, data, parts)
      ensures seqNo == old(nextSeq) && |segments| <= capacity && pending == []
    {
      if discontinuity && segments != [] {
        discontinuitySeq := if discontinuitySeq < U32_COUNT - 1 then discontinuitySeq + 1 else discontinuitySeq;
      }
      seqNo := nextSeq;
      nextSeq := nextSeq + 1;
      segments := segments + [Segment(seqNo, durationSecs, discontinuity, now, data, parts)];
      ghost var all, evicted := segments, 0;
      while |segments| > capacity
        invariant 0 <= evicted <= |all| && segments == all[evicted..]
        invariant evicted > 0 ==> |segments| >= capacity
        modifies this`segments
      {
        assert all[evicted..][1..] == all[evicted + 1..];
        segments, evicted := segments[1..], evicted + 1;
      }
      assert segments == Newest(all, capacity);
      pending := [];
      generation := generation + 1;
    }

    method CloseSegment(durationSecs: Secs, discontinuity: bool, now: nat, data: seq<byte>)
      returns (seqNo: nat)
      requires |segments| <= capacity
      modifies this
      ensures Value() == CompletePendingSegment(old(Value()), durationSecs, discontinuity, now, data)
      ensures seqNo == old(nextSeq) && |segments| <= capacity && pending == []
    {
      var parts := pending;
      pending := [];
      seqNo := Append(durationSecs, discontinuity, now, data, parts);
    }
  }
}
