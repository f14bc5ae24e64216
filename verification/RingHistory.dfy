// What the ring promises over whole runs: it is the newest part of the full
// history, nothing published ever changes while it is listed, and a point
// once reached stays reached.
module RingHistory {
  import opened Wrappers
  import opened Bytes
  import opened SegmentRing

  // One write of the segmenter.
  datatype Write =
    | AddPart(durationSecs: Secs, independent: bool, now: nat, data: seq<byte>)
    | Close(durationSecs: Secs, discontinuity: bool, now: nat, data: seq<byte>)
    | PushPlain(durationSecs: Secs, discontinuity: bool, now: nat, data: seq<byte>)

  function Apply(r: Ring, w: Write): Ring {
    match w
    case AddPart(d, independent, now, data) => PushPendingPart(r, d, independent, now, data)
    case Close(d, discontinuity, now, data) => CompletePendingSegment(r, d, discontinuity, now, data)
    case PushPlain(d, discontinuity, now, data) => PushWithParts(r, d, discontinuity, now, data, [])
  }

  function ApplyAll(r: Ring, writes: seq<Write>): Ring
    decreases |writes|
  {
    if writes == [] then r else ApplyAll(Apply(r, writes[0]), writes[1..])
  }

  // Everything ever pushed, with no bound and no eviction.
  datatype History = History(closed: seq<Segment>, open: seq<Part>)

  function Record(h: History, w: Write): History {
    match w
    case AddPart(d, independent, now, data) =>
      h.(open := h.open + [Part(|h.open| % U32_COUNT, d, independent, now, data)])
    case Close(d, discontinuity, now, data) =>
      History(h.closed + [Segment(|h.closed|, d, discontinuity, now, data, h.open)], [])
    case PushPlain(d, discontinuity, now, data) =>
      History(h.closed + [Segment(|h.closed|, d, discontinuity, now, data, [])], [])
  }

  function RecordAll(h: History, writes: seq<Write>): History
    decreases |writes|
  {
    if writes == [] then h else RecordAll(Record(h, writes[0]), writes[1..])
  }

  predicate Numbered(parts: seq<Part>) {
    forall i :: 0 <= i < |parts| ==> parts[i].idx == i % U32_COUNT
  }

  ghost predicate WellNumbered(h: History) {
    && (forall i :: 0 <= i < |h.closed| ==> h.closed[i].seqNo == i && Numbered(h.closed[i].parts))
    && Numbered(h.open)
  }

  ghost predicate Refines(r: Ring, h: History) {
    && WellNumbered(h)
    && r.nextSeq == |h.closed|
    && r.segments == Newest(h.closed, r.capacity)
    && r.pending == h.open
  }

  // The oldest sequence number still stored.
  function FirstSeq(r: Ring): int {
    r.nextSeq - |r.segments|
  }

  // ---------------------------------------------------------------------
  // Refinement.
  // ---------------------------------------------------------------------

  lemma NewestOfNewest<T>(s: seq<T>, x: T, count: nat)
    ensures Newest(Newest(s, count) + [x], count) == Newest(s + [x], count)
  {
    if |s| > count {
      assert (s + [x])[|s| - count..] == s[|s| - count..] + [x];
    }
  }

  lemma StepRefines(r: Ring, h: History, w: Write)
    requires Refines(r, h)
    ensures Refines(Apply(r, w), Record(h, w))
  {
    if !w.AddPart? {
      var parts := if w.Close? then h.open else [];
      NewestOfNewest(h.closed, Segment(|h.closed|, w.durationSecs, w.discontinuity, w.now, w.data, parts), r.capacity);
    }
  }

  lemma {:induction false} RunRefinesFrom(r: Ring, h: History, writes: seq<Write>)
    requires Refines(r, h)
    ensures Refines(ApplyAll(r, writes), RecordAll(h, writes))
    ensures ApplyAll(r, writes).capacity == r.capacity
    decreases |writes|
  {
    if writes != [] {
      StepRefines(r, h, writes[0]);
      RunRefinesFrom(Apply(r, writes[0]), Record(h, writes[0]), writes[1..]);
    }
  }

  lemma {:induction false} FindNumbered(segments: seq<Segment>, first: nat, seqNo: nat)
    requires forall i :: 0 <= i < |segments| ==> segments[i].seqNo == first + i
    ensures FindSegment(segments, seqNo)
         == if first <= seqNo < first + |segments| then Some(segments[seqNo - first]) else None
  {
    if segments != [] && segments[0].seqNo != seqNo {
      FindNumbered(segments[1..], first + 1, seqNo);
    }
  }

  lemma GetFromHistory(r: Ring, h: History, seqNo: nat)
    requires Refines(r, h)
    ensures |r.segments| == (if |h.closed| <= r.capacity then |h.closed| else r.capacity)
    ensures forall i :: 0 <= i < |r.segments| ==> r.segments[i] == h.closed[FirstSeq(r) + i]
    ensures Get(r, seqNo)
         == if |h.closed| - r.capacity <= seqNo < |h.closed| then Some(h.closed[seqNo]) else None
  {
    hide FindSegment, Refines;
    WindowOfHistory(r, h);
    FindNumbered(r.segments, FirstSeq(r), seqNo);
  }

  lemma WindowOfHistory(r: Ring, h: History)
    requires Refines(r, h)
    ensures |r.segments| == (if |h.closed| <= r.capacity then |h.closed| else r.capacity)
    ensures forall i :: 0 <= i < |r.segments| ==> r.segments[i] == h.closed[FirstSeq(r) + i]
    ensures forall i :: 0 <= i < |r.segments| ==> r.segments[i].seqNo == FirstSeq(r) + i
    ensures r.nextSeq == |h.closed|
  {
    hide Numbered, Newest;
    NewestLength(h.closed, r.capacity);
    forall i | 0 <= i < |r.segments|
      ensures r.segments[i] == h.closed[FirstSeq(r) + i] && r.segments[i].seqNo == FirstSeq(r) + i
    {
      NewestAt(h.closed, r.capacity, i);
    }
  }

  lemma NewestLength<T>(s: seq<T>, count: nat)
    ensures |Newest(s, count)| == if |s| <= count then |s| else count
  {
  }

  lemma NewestAt<T>(s: seq<T>, count: nat, i: nat)
    requires i < |Newest(s, count)|
    ensures |Newest(s, count)| <= |s| && Newest(s, count)[i] == s[|s| - |Newest(s, count)| + i]
  {
  }

  // In every reachable state the ring holds exactly the newest `capacity`
  // segments ever closed, numbered without gaps up to the next number, and a
  // lookup finds a segment exactly when it is one of those.
  lemma RingRefinesHistory(capacity: nat, writes: seq<Write>, seqNo: nat)
    ensures var r, h := ApplyAll(Empty(capacity), writes), RecordAll(History([], []), writes);
      && Refines(r, h)
      && |r.segments| == (if |h.closed| <= capacity then |h.closed| else capacity)
      && (forall i :: 0 <= i < |r.segments| ==> r.segments[i].seqNo == r.nextSeq - |r.segments| + i)
      && Get(r, seqNo) == (if |h.closed| - capacity <= seqNo < |h.closed| then Some(h.closed[seqNo]) else None)
  {
    var r, h := ApplyAll(Empty(capacity), writes), RecordAll(History([], []), writes);
    RunRefinesFrom(Empty(capacity), History([], []), writes);
    GetFromHistory(r, h, seqNo);
  }

  // ---------------------------------------------------------------------
  // Published parts do not change.
  // ---------------------------------------------------------------------

  // A plain push throws away the parts of the segment being built, so the
  // segmenter uses it only when there are none.
  predicate Disciplined(r: Ring, w: Write) {
    w.PushPlain? ==> r.pending == []
  }

  ghost predicate AllDisciplined(r: Ring, writes: seq<Write>)
    decreases |writes|
  {
    writes != [] ==> Disciplined(r, writes[0]) && AllDisciplined(Apply(r, writes[0]), writes[1..])
  }

  // The segmenter runs in one mode for its whole life; both are disciplined.
  lemma {:induction false} SegmenterModes(r: Ring, writes: seq<Write>)
    requires || (forall i :: 0 <= i < |writes| ==> !writes[i].PushPlain?)
             || (r.pending == [] && forall i :: 0 <= i < |writes| ==> writes[i].PushPlain?)
    ensures AllDisciplined(r, writes)
    decreases |writes|
  {
    if writes != [] {
      SegmenterModes(Apply(r, writes[0]), writes[1..]);
    }
  }

  lemma {:induction false} FindPartInPrefix(parts: seq<Part>, more: seq<Part>, idx: nat)
    requires FindPart(parts, idx).Some?
    ensures FindPart(parts + more, idx) == FindPart(parts, idx)
  {
    if parts[0].idx != idx {
      FindPartInPrefix(parts[1..], more, idx);
      assert (parts + more)[1..] == parts[1..] + more;
    }
  }

  lemma RefinesMeans(r: Ring, h: History)
    requires Refines(r, h)
    ensures r.nextSeq == |h.closed| && r.pending == h.open
  {
  }

  lemma PartStableStep(r: Ring, h: History, w: Write, seqNo: nat, idx: nat)
    requires Refines(r, h) && Disciplined(r, w)
    requires GetPart(r, seqNo, idx).Some?
    ensures seqNo < FirstSeq(Apply(r, w)) || GetPart(Apply(r, w), seqNo, idx) == GetPart(r, seqNo, idx)
  {
    hide Refines, Apply, Get;
    var r', h' := Apply(r, w), Record(h, w);
    StepRefines(r, h, w);
    RefinesMeans(r, h);
    RefinesMeans(r', h');
    GetFromHistory(r, h, seqNo);
    GetFromHistory(r', h', seqNo);
    if w.AddPart? && seqNo == r.nextSeq {
      FindPartInPrefix(r.pending, [NewPart(|r.pending|, w.durationSecs, w.independent, w.now, w.data)], idx);
    }
  }

  // A part that could be fetched stays that same part, through the closing of
  // its segment, until the segment is evicted.
  lemma {:induction false} PartStable(r: Ring, h: History, writes: seq<Write>, seqNo: nat, idx: nat)
    requires Refines(r, h) && AllDisciplined(r, writes)
    requires GetPart(r, seqNo, idx).Some?
    ensures seqNo < FirstSeq(ApplyAll(r, writes))
         || GetPart(ApplyAll(r, writes), seqNo, idx) == GetPart(r, seqNo, idx)
    decreases |writes|
  {
    if writes != [] {
      var r', h' := Apply(r, writes[0]), Record(h, writes[0]);
      StepRefines(r, h, writes[0]);
      PartStableStep(r, h, writes[0], seqNo, idx);
      if seqNo < FirstSeq(r') {
        FirstSeqMonotone(r', h', writes[1..]);
      } else {
        PartStable(r', h', writes[1..], seqNo, idx);
      }
    }
  }

  lemma {:induction false} FirstSeqMonotone(r: Ring, h: History, writes: seq<Write>)
    requires Refines(r, h)
    ensures FirstSeq(r) <= FirstSeq(ApplyAll(r, writes))
    decreases |writes|
  {
    if writes != [] {
      StepRefines(r, h, writes[0]);
      FirstSeqMonotone(Apply(r, writes[0]), Record(h, writes[0]), writes[1..]);
    }
  }

  // The segment that a number names never changes between two moments of a
  // run at which it can be fetched.
  lemma SegmentStable(r: Ring, h: History, writes: seq<Write>, seqNo: nat)
    requires Refines(r, h)
    requires Get(r, seqNo).Some? && Get(ApplyAll(r, writes), seqNo).Some?
    ensures Get(ApplyAll(r, writes), seqNo) == Get(r, seqNo)
  {
    RunRefinesFrom(r, h, writes);
    GetFromHistory(r, h, seqNo);
    GetFromHistory(ApplyAll(r, writes), RecordAll(h, writes), seqNo);
    HistoryGrows(h, writes);
  }

  lemma {:induction false} HistoryGrows(h: History, writes: seq<Write>)
    ensures h.closed <= RecordAll(h, writes).closed
    decreases |writes|
  {
    if writes != [] {
      HistoryGrows(Record(h, writes[0]), writes[1..]);
    }
  }

  // ---------------------------------------------------------------------
  // Reached points stay reached.
  // ---------------------------------------------------------------------

  // What it means to have reached a point, told from the full history.
  ghost predicate ReachedIn(h: History, first: int, msn: nat, part: Option<nat>) {
    || msn < first
    || (first <= msn < |h.closed| && (part.None? || AnyAtLeast(h.closed[msn].parts, part.value)))
    || (msn == |h.closed| && part.Some? && AnyAtLeast(h.open, part.value))
  }

  lemma HasReachedMeaning(r: Ring, h: History, msn: nat, part: Option<nat>)
    requires Refines(r, h) && r.capacity >= 1
    ensures HasReached(r, msn, part) <==> ReachedIn(h, FirstSeq(r), msn, part)
  {
    GetFromHistory(r, h, msn);
  }

  // With room for at least one segment, a write keeps every reached point
  // reached exactly when it is not a plain push over pending parts.
  lemma ReachedMonotone(r: Ring, h: History, w: Write)
    requires Refines(r, h) && r.capacity >= 1
    ensures (forall msn, part :: HasReached(r, msn, part) ==> HasReached(Apply(r, w), msn, part))
       <==> Disciplined(r, w)
  {
    if Disciplined(r, w) {
      forall msn, part | HasReached(r, msn, part) ensures HasReached(Apply(r, w), msn, part) {
        ReachedStep(r, h, w, msn, part);
      }
    } else {
      PlainPushLosesParts(r, h, w);
    }
  }

  lemma ReachedStep(r: Ring, h: History, w: Write, msn: nat, part: Option<nat>)
    requires Refines(r, h) && r.capacity >= 1 && Disciplined(r, w)
    requires HasReached(r, msn, part)
    ensures HasReached(Apply(r, w), msn, part)
  {
    StepRefines(r, h, w);
    HasReachedMeaning(r, h, msn, part);
    HasReachedMeaning(Apply(r, w), Record(h, w), msn, part);
    if w.AddPart? && part.Some? && msn == r.nextSeq && AnyAtLeast(r.pending, part.value) {
      var i :| 0 <= i < |r.pending| && r.pending[i].idx >= part.value;
      assert Apply(r, w).pending[i] == r.pending[i];
    }
  }

  lemma PlainPushLosesParts(r: Ring, h: History, w: Write)
    requires Refines(r, h) && r.capacity >= 1 && !Disciplined(r, w)
    ensures HasReached(r, r.nextSeq, Some(0)) && !HasReached(Apply(r, w), r.nextSeq, Some(0))
  {
    StepRefines(r, h, w);
    assert r.pending[0].idx >= 0;
    HasReachedMeaning(r, h, r.nextSeq, Some(0));
    HasReachedMeaning(Apply(r, w), Record(h, w), r.nextSeq, Some(0));
  }

  // A ring with no room for a segment forgets a point as soon as it closes.
  lemma NoRoomForgets(part: Part, w: Write)
    requires w.Close?
    ensures var r := Ring(0, [], 0, 0, [part], 1);
      HasReached(r, 0, Some(0)) && !HasReached(Apply(r, w), 0, Some(0))
  {
    var r := Ring(0, [], 0, 0, [part], 1);
    assert r.pending[0].idx >= 0;
    assert Apply(r, w).segments == [];
  }

  lemma {:induction false} ReachedForever(r: Ring, h: History, writes: seq<Write>, msn: nat, part: Option<nat>)
    requires Refines(r, h) && r.capacity >= 1 && AllDisciplined(r, writes)
    requires HasReached(r, msn, part)
    ensures HasReached(ApplyAll(r, writes), msn, part)
    decreases |writes|
  {
    if writes != [] {
      StepRefines(r, h, writes[0]);
      ReachedStep(r, h, writes[0], msn, part);
      ReachedForever(Apply(r, writes[0]), Record(h, writes[0]), writes[1..], msn, part);
    }
  }

  // ---------------------------------------------------------------------
  // Lookups and reached points, counted out.
  // ---------------------------------------------------------------------

  // The parts that can be told apart by a 32-bit index.
  function Distinct(parts: seq<Part>): nat {
    if |parts| < U32_COUNT then |parts| else U32_COUNT
  }

  lemma {:induction false} FindPartExactly(parts: seq<Part>, first: nat, idx: nat)
    requires first <= idx && idx < U32_COUNT
    requires forall i :: 0 <= i < |parts| ==> parts[i].idx == (first + i) % U32_COUNT
    ensures FindPart(parts, idx) == if idx < first + |parts| then Some(parts[idx - first]) else None
  {
    if parts != [] {
      assert parts[0].idx == first;
      if first < idx {
        FindPartExactly(parts[1..], first + 1, idx);
      }
    }
  }

  lemma {:induction false} NoPartBeyond(parts: seq<Part>, idx: nat)
    requires idx >= U32_COUNT && forall i :: 0 <= i < |parts| ==> parts[i].idx < U32_COUNT
    ensures FindPart(parts, idx) == None
  {
    if parts != [] {
      NoPartBeyond(parts[1..], idx);
    }
  }

  lemma PartByIndex(parts: seq<Part>, idx: nat)
    requires Numbered(parts)
    ensures FindPart(parts, idx) == if idx < Distinct(parts) then Some(parts[idx]) else None
  {
    if idx < U32_COUNT {
      FindPartExactly(parts, 0, idx);
    } else {
      NoPartBeyond(parts, idx);
    }
  }

  // A part lookup, told from the history: the part at that place of a segment
  // still stored or being built, and nothing otherwise.
  lemma GetPartMeaning(r: Ring, h: History, seqNo: nat, idx: nat)
    requires Refines(r, h)
    ensures GetPart(r, seqNo, idx)
         == if |h.closed| - r.capacity <= seqNo < |h.closed| && idx < Distinct(h.closed[seqNo].parts)
            then Some(h.closed[seqNo].parts[idx])
            else if seqNo == |h.closed| && idx < Distinct(h.open) then Some(h.open[idx])
            else None
  {
    hide FindPart, FindSegment, Distinct, Newest;
    GetFromHistory(r, h, seqNo);
    if |h.closed| - r.capacity <= seqNo < |h.closed| {
      PartByIndex(h.closed[seqNo].parts, idx);
    }
    PartByIndex(h.open, idx);
  }

  lemma AnyAtLeastCount(parts: seq<Part>, idx: nat)
    requires Numbered(parts)
    ensures AnyAtLeast(parts, idx) <==> idx < Distinct(parts)
  {
    if idx < Distinct(parts) {
      assert parts[idx].idx >= idx;
    }
  }

  // A point is reached exactly when its segment is gone, or closed with more
  // parts than the one asked for, or being built with more parts than that.
  lemma ReachedByCounts(r: Ring, h: History, msn: nat, part: Option<nat>)
    requires Refines(r, h) && r.capacity >= 1
    ensures HasReached(r, msn, part)
       <==> || msn < |h.closed| - r.capacity
            || (msn < |h.closed| && (part.None? || part.value < Distinct(h.closed[msn].parts)))
            || (msn == |h.closed| && part.Some? && part.value < Distinct(h.open))
  {
    hide AnyAtLeast, HasReached, Distinct;
    HasReachedMeaning(r, h, msn, part);
    GetFromHistory(r, h, msn);
    if part.Some? {
      if msn < |h.closed| {
        AnyAtLeastCount(h.closed[msn].parts, part.value);
      }
      AnyAtLeastCount(h.open, part.value);
    }
  }

  // ---------------------------------------------------------------------
  // Told from the writes alone.
  // ---------------------------------------------------------------------

  function Closes(writes: seq<Write>): nat {
    if writes == [] then 0
    else Closes(writes[..|writes| - 1]) + if writes[|writes| - 1].AddPart? then 0 else 1
  }

  // The parts added since the last segment was closed.
  function OpenParts(writes: seq<Write>): nat {
    if writes == [] || !writes[|writes| - 1].AddPart? then 0 else OpenParts(writes[..|writes| - 1]) + 1
  }

  // Discontinuities announced after the first segment.
  function Discontinuities(writes: seq<Write>): nat {
    if writes == [] then 0
    else
      var init, last := writes[..|writes| - 1], writes[|writes| - 1];
      Discontinuities(init) + if !last.AddPart? && last.discontinuity && Closes(init) > 0 then 1 else 0
  }

  lemma {:induction false} ApplyConcat(r: Ring, a: seq<Write>, b: seq<Write>)
    ensures ApplyAll(r, a + b) == ApplyAll(ApplyAll(r, a), b)
    decreases |a|
  {
    hide Apply;
    if a == [] {
      assert a + b == b;
    } else {
      ApplyConcat(Apply(r, a[0]), a[1..], b);
      assert (a + b)[1..] == a[1..] + b;
    }
  }

  lemma ApplyLast(r: Ring, writes: seq<Write>)
    requires writes != []
    ensures ApplyAll(r, writes) == Apply(ApplyAll(r, writes[..|writes| - 1]), writes[|writes| - 1])
  {
    hide Apply;
    var init, last := writes[..|writes| - 1], writes[|writes| - 1];
    ApplyConcat(r, init, [last]);
    assert writes == init + [last] && [last][1..] == [];
  }

  // The numbers of a ring count its writes: the next segment's number, the
  // next part's, the discontinuities, and the wake-ups.
  lemma {:induction false} RingCounts(capacity: nat, writes: seq<Write>)
    requires capacity >= 1
    ensures var r := ApplyAll(Empty(capacity), writes);
      && r.capacity == capacity && r.nextSeq == Closes(writes) && |r.pending| == OpenParts(writes)
      && r.discontinuitySeq
         == (if Discontinuities(writes) < U32_COUNT then Discontinuities(writes) else U32_COUNT - 1)
      && r.generation == |writes|
      && (r.segments == [] <==> Closes(writes) == 0)
  {
    if writes != [] {
      RingCounts(capacity, writes[..|writes| - 1]);
      ApplyLast(Empty(capacity), writes);
    }
  }

  // A part added to the segment being built, for ever after: until its
  // segment is evicted, a lookup by its place finds it with exactly what was
  // written; after that, nothing.
  lemma PartAsWritten(capacity: nat, before: seq<Write>, w: Write, after: seq<Write>)
    requires capacity >= 1 && w.AddPart? && OpenParts(before) < U32_COUNT
    requires AllDisciplined(ApplyAll(Empty(capacity), before + [w]), after)
    ensures GetPart(ApplyAll(Empty(capacity), before + [w] + after), Closes(before), OpenParts(before))
         == if Closes(before + [w] + after) > Closes(before) + capacity then None
            else Some(Part(OpenParts(before), w.durationSecs, w.independent, w.now, w.data))
  {
    hide GetPart, Refines, Apply, Record, Newest;
    var start, h0 := Empty(capacity), History([], []);
    var seqNo, idx := Closes(before), OpenParts(before);
    var r, h := ApplyAll(start, before + [w]), RecordAll(h0, before + [w]);
    EmptyRefines(capacity);
    RunRefinesFrom(start, h0, before + [w]);
    JustAdded(capacity, before, w);
    PartStable(r, h, after, seqNo, idx);
    RunRefinesFrom(r, h, after);
    ApplyConcat(start, before + [w], after);
    RingCounts(capacity, before + [w] + after);
    var r', h' := ApplyAll(r, after), RecordAll(h, after);
    FirstStored(r', h');
    GetPartMeaning(r', h', seqNo, idx);
    if seqNo < FirstSeq(r') {
      assert Closes(before + [w] + after) > seqNo + capacity;
    } else {
      assert Closes(before + [w] + after) <= seqNo + capacity;
    }
  }

  lemma EmptyRefines(capacity: nat)
    ensures Refines(Empty(capacity), History([], []))
  {
  }

  lemma FirstStored(r: Ring, h: History)
    requires Refines(r, h)
    ensures FirstSeq(r) == if |h.closed| <= r.capacity then 0 else |h.closed| - r.capacity
    ensures r.nextSeq == |h.closed|
  {
    WindowOfHistory(r, h);
  }

  lemma JustAdded(capacity: nat, before: seq<Write>, w: Write)
    requires capacity >= 1 && w.AddPart? && OpenParts(before) < U32_COUNT
    ensures GetPart(ApplyAll(Empty(capacity), before + [w]), Closes(before), OpenParts(before))
         == Some(Part(OpenParts(before), w.durationSecs, w.independent, w.now, w.data))
  {
    hide GetPart, Newest;
    var start, h0 := Empty(capacity), History([], []);
    var writes := before + [w];
    assert writes[..|before|] == before;
    RingCounts(capacity, before);
    ApplyLast(start, writes);
    EmptyRefines(capacity);
    RunRefinesFrom(start, h0, before);
    var r, h := ApplyAll(start, before), RecordAll(h0, before);
    StepRefines(r, h, w);
    GetPartMeaning(Apply(r, w), Record(h, w), Closes(before), OpenParts(before));
  }

  // A segment, from the write that closes it until it is evicted: a lookup
  // finds it with exactly what was written; after that, nothing.
  lemma SegmentAsWritten(capacity: nat, before: seq<Write>, w: Write, after: seq<Write>)
    requires capacity >= 1 && !w.AddPart?
    ensures var r := ApplyAll(Empty(capacity), before + [w] + after);
      var found := Get(r, Closes(before));
      && (found.None? <==> Closes(before + [w] + after) > Closes(before) + capacity)
      && (found.Some? ==>
            && found.value.seqNo == Closes(before) && found.value.durationSecs == w.durationSecs
            && found.value.discontinuity == w.discontinuity && found.value.producedAt == w.now
            && found.value.data == w.data
            && |found.value.parts| == if w.Close? then OpenParts(before) else 0)
  {
    hide Get, Refines, Apply, Newest;
    var start, h0 := Empty(capacity), History([], []);
    EmptyRefines(capacity);
    RunRefinesFrom(start, h0, before);
    var h := RecordAll(h0, before);
    RefinesMeans(ApplyAll(start, before), h);
    RingCounts(capacity, before);
    var all := before + [w] + after;
    RunRefinesFrom(start, h0, all);
    RefinesMeans(ApplyAll(start, all), RecordAll(h0, all));
    RingCounts(capacity, all);
    RecordConcat(h0, before, [w] + after);
    assert all == before + ([w] + after) && ([w] + after)[0] == w && ([w] + after)[1..] == after;
    assert RecordAll(h, [w] + after) == RecordAll(Record(h, w), after);
    HistoryGrows(Record(h, w), after);
    GetFromHistory(ApplyAll(start, all), RecordAll(h0, all), Closes(before));
  }

  lemma {:induction false} RecordConcat(h: History, a: seq<Write>, b: seq<Write>)
    ensures RecordAll(h, a + b) == RecordAll(RecordAll(h, a), b)
    decreases |a|
  {
    hide Record;
    if a == [] {
      assert a + b == b;
    } else {
      RecordConcat(Record(h, a[0]), a[1..], b);
      assert (a + b)[1..] == a[1..] + b;
    }
  }
}
