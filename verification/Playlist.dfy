// Building the live media playlist from a ring.
module Playlist {
  import opened Wrappers
  import opened Numbers
  import opened Bytes
  import opened Decimal
  import opened SegmentRing
  import opened RingHistory

  const PARTS_WINDOW := 3

  datatype PartEntry = PartEntry(uri: string, durationSecs: Secs, independent: bool, lastOfSegment: bool)

  datatype SegmentEntry = SegmentEntry(uri: string, durationSecs: Secs, discontinuity: bool, parts: seq<PartEntry>)

  datatype Playlist = Playlist(
    version: nat, target: nat, mediaSequence: nat, discontinuitySequence: nat,
    partTarget: Option<Secs>, entries: seq<SegmentEntry>, pending: seq<PartEntry>)

  datatype PlaylistError = BadDuration(seqNo: nat)

  function SegmentUri(seqNo: nat): string {
    "segment-" + Print(seqNo) + ".ts"
  }

  function PartUri(seqNo: nat, idx: nat): string {
    "part-" + Print(seqNo) + "." + Print(idx) + ".ts"
  }

  // ---------------------------------------------------------------------
  // Durations.
  // ---------------------------------------------------------------------

  function Ceil(x: real): int {
    if x.Floor as real == x then x.Floor else x.Floor + 1
  }

  // Rounding half away from zero, for values that are not negative.
  function Round(x: real): int
    requires x >= 0.0
  {
    (x + 0.5).Floor
  }

  // The longest positive duration, or zero.
  function ObservedMax(segments: seq<Segment>): real {
    if segments == [] then 0.0
    else
      var rest := ObservedMax(segments[..|segments| - 1]);
      var d := segments[|segments| - 1].durationSecs;
      if d.Finite? && d.value > rest then d.value else rest
  }

  function TargetDuration(segments: seq<Segment>, minTarget: nat): nat {
    Max(Max(minTarget, Min(Ceil(ObservedMax(segments)), 255)), 1)
  }

  // The writer's own check on each segment it is given.
  predicate Accepted(d: Secs, target: nat) {
    d.Finite? && d.value >= 0.0 && Max(Round(d.value), 1) <= target
  }

  // ---------------------------------------------------------------------
  // Entries.
  // ---------------------------------------------------------------------

  function PartEntries(seqNo: nat, parts: seq<Part>, closed: bool): (entries: seq<PartEntry>)
    ensures |entries| == |parts|
  {
    seq(|parts|, i requires 0 <= i < |parts| =>
      PartEntry(PartUri(seqNo, parts[i].idx), parts[i].durationSecs, parts[i].independent,
                closed && parts[i].idx + 1 == |parts|))
  }

  function EntryAt(segments: seq<Segment>, i: nat): SegmentEntry
    requires i < |segments|
  {
    var s := segments[i];
    SegmentEntry(SegmentUri(s.seqNo), s.durationSecs, s.discontinuity,
                 if i + PARTS_WINDOW >= |segments| then PartEntries(s.seqNo, s.parts, true) else [])
  }

  ghost predicate Lists(p: Playlist, r: Ring, minTarget: nat, partTarget: Option<Secs>) {
    && p.version == (if partTarget.Some? then 6 else 3)
    && p.target == TargetDuration(r.segments, minTarget)
    && p.mediaSequence == (if r.segments == [] then 0 else r.segments[0].seqNo)
    && p.discontinuitySequence == r.discontinuitySeq
    && p.partTarget == partTarget
    && |p.entries| == |r.segments|
    && (forall i :: 0 <= i < |r.segments| ==> p.entries[i] == EntryAt(r.segments, i))
    && p.pending == PartEntries(r.nextSeq, r.pending, false)
  }

  // The scan for the longest duration.
  method Target(segments: seq<Segment>, minTarget: nat) returns (target: nat)
    ensures target == TargetDuration(segments, minTarget)
  {
    var longest := 0.0;
    var k := 0;
    while k < |segments|
      invariant 0 <= k <= |segments|
      invariant longest == ObservedMax(segments[..k])
    {
      var d := segments[k].durationSecs;
      assert segments[..k + 1][..k] == segments[..k];
      if d.Finite? && d.value > longest {
        longest := d.value;
      }
      k := k + 1;
    }
    assert segments[..k] == segments;
    target := Max(Max(minTarget, Min(Ceil(longest), 255)), 1);
  }

  // The segment named is the first one whose duration is refused.
  ghost predicate FirstRejected(segments: seq<Segment>, target: nat, seqNo: nat) {
    exists i :: 0 <= i < |segments| && segments[i].seqNo == seqNo && !Accepted(segments[i].durationSecs, target)
             && forall j :: 0 <= j < i ==> Accepted(segments[j].durationSecs, target)
  }

  // Build the playlist entry by entry, as the writer does.
  method Build(r: Ring, minTarget: nat, partTarget: Option<Secs>) returns (result: Result<Playlist, PlaylistError>)
    ensures result.Ok? ==> Lists(result.value, r, minTarget, partTarget)
    ensures result.Ok? <==>
            forall i :: 0 <= i < |r.segments| ==>
              Accepted(r.segments[i].durationSecs, TargetDuration(r.segments, minTarget))
    ensures result.Err? ==> FirstRejected(r.segments, TargetDuration(r.segments, minTarget), result.error.seqNo)
  {
    hide TargetDuration, Accepted, SegmentUri, PartUri, PartEntries;
    var target := Target(r.segments, minTarget);
    var first := if r.segments == [] then 0 else r.segments[0].seqNo;
    var visibleFrom := if |r.segments| >= PARTS_WINDOW then |r.segments| - PARTS_WINDOW else 0;
    var entries: seq<SegmentEntry> := [];
    var i := 0;
    while i < |r.segments|
      invariant 0 <= i == |entries| <= |r.segments|
      invariant forall j :: 0 <= j < i ==> entries[j] == EntryAt(r.segments, j)
      invariant forall j :: 0 <= j < i ==> Accepted(r.segments[j].durationSecs, target)
    {
      var s := r.segments[i];
      if !Accepted(s.durationSecs, target) {
        assert FirstRejected(r.segments, target, s.seqNo);
        return Err(BadDuration(s.seqNo));
      }
      var entry := SegmentEntry(SegmentUri(s.seqNo), s.durationSecs, s.discontinuity, []);
      if i >= visibleFrom && s.parts != [] {
        entry := entry.(parts := PartEntries(s.seqNo, s.parts, true));
      }
      entries := entries + [entry];
      i := i + 1;
    }
    var pending := if r.pending != [] then PartEntries(r.nextSeq, r.pending, false) else [];
    return Ok(Playlist(if partTarget.Some? then 6 else 3, target, first, r.discontinuitySeq, partTarget,
                       entries, pending));
  }

  // ---------------------------------------------------------------------
  // The advertised target duration (section 4.3.3.1 of RFC 8216).
  // ---------------------------------------------------------------------

  lemma {:induction false} ObservedMaxBounds(segments: seq<Segment>, i: nat)
    requires i < |segments| && segments[i].durationSecs.Finite?
    ensures segments[i].durationSecs.value <= ObservedMax(segments)
  {
    if i < |segments| - 1 {
      ObservedMaxBounds(segments[..|segments| - 1], i);
    }
  }

  lemma RoundBelowCeil(x: real, y: real)
    requires 0.0 <= x <= y
    ensures Round(x) <= Ceil(y)
  {
  }

  // A duration the target cannot cover.
  predicate TooLong(d: Secs) {
    d.Finite? && d.value >= 255.5
  }

  // The playlist can be built exactly when every stored duration is a number,
  // not negative, and rounds to no more than 255 seconds; the target derived
  // from the segments covers all the others.
  lemma BuildableExactly(segments: seq<Segment>, minTarget: nat)
    requires minTarget <= 255
    ensures (forall i :: 0 <= i < |segments| ==> Accepted(segments[i].durationSecs, TargetDuration(segments, minTarget)))
       <==> (forall i :: 0 <= i < |segments| ==>
               var d := segments[i].durationSecs; d.Finite? && d.value >= 0.0 && !TooLong(d))
  {
    forall i | 0 <= i < |segments|
      ensures Accepted(segments[i].durationSecs, TargetDuration(segments, minTarget))
         <==> var d := segments[i].durationSecs; d.Finite? && d.value >= 0.0 && !TooLong(d)
    {
      var d := segments[i].durationSecs;
      if d.Finite? && d.value >= 0.0 {
        ObservedMaxBounds(segments, i);
        RoundBelowCeil(d.value, ObservedMax(segments));
      }
    }
  }

  // The target is the least that will do: at least one and the minimum, no
  // stored duration above it short of 255, and none of that without a cause.
  lemma TargetIsLeast(segments: seq<Segment>, minTarget: nat)
    ensures var target := TargetDuration(segments, minTarget);
      && target >= 1 && target >= minTarget
      && (forall s :: s in segments && s.durationSecs.Finite? && s.durationSecs.value > target as real ==> target >= 255)
      && (target > 1 && target > minTarget ==>
            target <= 255
            && exists s :: s in segments && s.durationSecs.Finite? && s.durationSecs.value > (target - 1) as real)
  {
    var most := ObservedMax(segments);
    forall s | s in segments && s.durationSecs.Finite? ensures s.durationSecs.value <= most {
      var i :| 0 <= i < |segments| && segments[i] == s;
      ObservedMaxBounds(segments, i);
    }
    ObservedMaxStored(segments);
  }

  lemma {:induction false} ObservedMaxStored(segments: seq<Segment>)
    ensures ObservedMax(segments) >= 0.0
    ensures ObservedMax(segments) > 0.0 ==>
              exists s :: s in segments && s.durationSecs.Finite? && s.durationSecs.value == ObservedMax(segments)
  {
    if segments != [] {
      var init, last := segments[..|segments| - 1], segments[|segments| - 1];
      ObservedMaxStored(init);
      assert last in segments && forall s :: s in init ==> s in segments;
    }
  }

  // What a playlist says of its segments and parts: durations and flags as
  // stored, parts on the newest three segments alone, and the last part of a
  // closed segment marked.
  lemma EntriesSay(r: Ring, h: History, p: Playlist, minTarget: nat, partTarget: Option<Secs>, i: nat)
    requires Refines(r, h) && Lists(p, r, minTarget, partTarget) && i < |r.segments|
    ensures var s, e := r.segments[i], p.entries[i];
      && e.durationSecs == s.durationSecs && e.discontinuity == s.discontinuity
      && |e.parts| == (if i + 3 >= |r.segments| then |s.parts| else 0)
      && forall k :: 0 <= k < |e.parts| ==>
           && e.parts[k].durationSecs == s.parts[k].durationSecs && e.parts[k].independent == s.parts[k].independent
           && (e.parts[k].lastOfSegment <==> k % 0x1_0000_0000 + 1 == |s.parts|)
  {
    hide TargetDuration, SegmentUri, PartUri, Newest;
    WindowOfHistory(r, h);
    assert p.entries[i] == EntryAt(r.segments, i) && r.segments[i] == h.closed[FirstSeq(r) + i];
  }

  lemma PendingSay(r: Ring, p: Playlist, minTarget: nat, partTarget: Option<Secs>)
    requires Lists(p, r, minTarget, partTarget)
    ensures |p.pending| == |r.pending|
    ensures forall k :: 0 <= k < |p.pending| ==>
              && p.pending[k].durationSecs == r.pending[k].durationSecs
              && p.pending[k].independent == r.pending[k].independent && !p.pending[k].lastOfSegment
  {
    hide TargetDuration, SegmentUri, PartUri;
  }

  // ---------------------------------------------------------------------
  // What a blocked client is promised.
  // ---------------------------------------------------------------------

  ghost predicate CarriesPendingFrom(p: Playlist, r: Ring, idx: nat) {
    exists i :: 0 <= i < |p.pending| && i < |r.pending| && r.pending[i].idx >= idx
             && p.pending[i].uri == PartUri(r.nextSeq, r.pending[i].idx)
  }

  // A playlist of a ring that has reached a point either lists that segment,
  // or starts after it, or carries a pending part at or past the one asked for.
  lemma ReachedIsListed(r: Ring, h: History, p: Playlist, minTarget: nat, partTarget: Option<Secs>,
                        msn: nat, part: Option<nat>)
    requires Refines(r, h) && r.capacity >= 1 && Lists(p, r, minTarget, partTarget)
    requires HasReached(r, msn, part)
    ensures || (exists i :: 0 <= i < |p.entries| && p.entries[i].uri == SegmentUri(msn))
            || p.mediaSequence > msn
            || (msn == r.nextSeq && part.Some? && CarriesPendingFrom(p, r, part.value))
  {
    HasReachedMeaning(r, h, msn, part);
    GetFromHistory(r, h, msn);
    if FirstSeq(r) <= msn < |h.closed| {
      assert p.entries[msn - FirstSeq(r)].uri == SegmentUri(msn);
    } else if msn == |h.closed| {
      var i :| 0 <= i < |r.pending| && r.pending[i].idx >= part.value;
      assert p.pending[i].uri == PartUri(r.nextSeq, r.pending[i].idx);
    }
  }

  // The media sequence of the playlists built along a run never decreases.
  lemma MediaSequenceMonotone(r: Ring, h: History, writes: seq<Write>, p: Playlist, p': Playlist,
                              minTarget: nat, partTarget: Option<Secs>)
    requires Refines(r, h) && r.capacity >= 1
    requires Lists(p, r, minTarget, partTarget) && Lists(p', ApplyAll(r, writes), minTarget, partTarget)
    ensures p.mediaSequence <= p'.mediaSequence
  {
    var r', h' := ApplyAll(r, writes), RecordAll(h, writes);
    RunRefinesFrom(r, h, writes);
    FirstSeqMonotone(r, h, writes);
    GetFromHistory(r, h, 0);
    GetFromHistory(r', h', 0);
    HistoryGrows(h, writes);
  }
}
