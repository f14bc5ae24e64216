// Request paths, byte ranges and what the server answers from a ring.
module Routes {
  import opened Wrappers
  import opened Numbers
  import opened Bytes
  import opened Decimal
  import opened SegmentRing
  import opened RingHistory
  import opened Playlist

  // ---------------------------------------------------------------------
  // Text helpers.
  // ---------------------------------------------------------------------

  predicate StartsWith(s: string, prefix: string) {
    |prefix| <= |s| && s[..|prefix|] == prefix
  }

  predicate EndsWith(s: string, suffix: string) {
    |suffix| <= |s| && s[|s| - |suffix|..] == suffix
  }

  function StripPrefix(s: string, prefix: string): Option<string> {
    if StartsWith(s, prefix) then Some(s[|prefix|..]) else None
  }

  function StripSuffix(s: string, suffix: string): Option<string> {
    if EndsWith(s, suffix) then Some(s[..|s| - |suffix|]) else None
  }

  // The text before and after the first occurrence of `sep`.
  function SplitOnce(s: string, sep: char): Option<(string, string)> {
    if s == [] then None
    else if s[0] == sep then Some(([], s[1..]))
    else match SplitOnce(s[1..], sep)
      case None => None
      case Some(pair) => Some(([s[0]] + pair.0, pair.1))
  }

  function TrimStart(s: string): string {
    if s != [] && s[0] in " \t\r\n" then TrimStart(s[1..]) else s
  }

  function TrimEnd(s: string): string {
    if s != [] && s[|s| - 1] in " \t\r\n" then TrimEnd(s[..|s| - 1]) else s
  }

  function Trim(s: string): string {
    TrimEnd(TrimStart(s))
  }

  lemma {:induction false} SplitOnceAt(before: string, sep: char, after: string)
    requires sep !in before
    ensures SplitOnce(before + [sep] + after, sep) == Some((before, after))
  {
    var s := before + [sep] + after;
    if before != [] {
      SplitOnceAt(before[1..], sep, after);
      assert s[1..] == before[1..] + [sep] + after;
      assert [before[0]] + before[1..] == before;
    } else {
      assert s[1..] == after;
    }
  }

  lemma {:induction false} SplitOnceNone(s: string, sep: char)
    ensures SplitOnce(s, sep).None? <==> sep !in s
  {
    if s != [] && s[0] != sep {
      SplitOnceNone(s[1..], sep);
    }
  }

  // ---------------------------------------------------------------------
  // Paths.
  // ---------------------------------------------------------------------

  predicate IsSegmentPath(path: string) {
    StartsWith(path, "/segment-") && EndsWith(path, ".ts")
  }

  function ParseSegmentSeq(path: string): Option<nat> {
    match StripPrefix(path, "/segment-")
    case None => None
    case Some(body) =>
      match StripSuffix(body, ".ts")
      case None => None
      case Some(num) => ParseUnsigned(num, U64_MAX)
  }

  predicate IsPartPath(path: string) {
    StartsWith(path, "/part-") && EndsWith(path, ".ts")
  }

  function ParsePartSeqAndIdx(path: string): Option<(nat, nat)> {
    match StripPrefix(path, "/part-")
    case None => None
    case Some(rest) =>
      match StripSuffix(rest, ".ts")
      case None => None
      case Some(body) =>
        match SplitOnce(body, '.')
        case None => None
        case Some(pair) =>
          var seqNo, idx := ParseUnsigned(pair.0, U64_MAX), ParseUnsigned(pair.1, U32_MAX);
          if seqNo.Some? && idx.Some? then Some((seqNo.value, idx.value)) else None
  }

  lemma Stripped(prefix: string, body: string, suffix: string)
    ensures var path := prefix + (body + suffix);
      && StartsWith(path, prefix) && EndsWith(path, suffix)
      && StripPrefix(path, prefix) == Some(body + suffix)
      && StripSuffix(body + suffix, suffix) == Some(body)
  {
    var path := prefix + (body + suffix);
    assert path[|prefix|..] == body + suffix;
    assert path[|path| - |suffix|..] == suffix;
  }

  // A printed segment URI is routed to segments, never to parts, and parses
  // back to its number exactly when that number fits 64 bits.
  lemma SegmentPathRoundTrip(seqNo: nat)
    ensures IsSegmentPath("/" + SegmentUri(seqNo)) && !IsPartPath("/" + SegmentUri(seqNo))
    ensures ParseSegmentSeq("/" + SegmentUri(seqNo)) == if seqNo <= U64_MAX then Some(seqNo) else None
  {
    hide Print, ParseUnsigned;
    var path, num := "/" + SegmentUri(seqNo), Print(seqNo);
    assert path == "/segment-" + (num + ".ts");
    Stripped("/segment-", num, ".ts");
    assert path[..6][1] == 's' && "/part-"[1] == 'p';
    ParsePrint(seqNo, U64_MAX);
  }

  lemma PartPathRoundTrip(seqNo: nat, idx: nat)
    ensures IsPartPath("/" + PartUri(seqNo, idx))
    ensures ParsePartSeqAndIdx("/" + PartUri(seqNo, idx))
         == if seqNo <= U64_MAX && idx <= U32_MAX then Some((seqNo, idx)) else None
  {
    hide Print, ParseUnsigned, SplitOnce;
    var path := "/" + PartUri(seqNo, idx);
    var body := Print(seqNo) + "." + Print(idx);
    assert path == "/part-" + (body + ".ts");
    Stripped("/part-", body, ".ts");
    assert '.' !in Print(seqNo);
    assert body == Print(seqNo) + ['.'] + Print(idx);
    SplitOnceAt(Print(seqNo), '.', Print(idx));
    ParsePrint(seqNo, U64_MAX);
    ParsePrint(idx, U32_MAX);
  }

  // ---------------------------------------------------------------------
  // Byte ranges (sections 2.1 and 4.1 of RFC 7233).
  // ---------------------------------------------------------------------

  datatype ByteRange = ByteRange(start: nat, end: Option<nat>)

  function ParseRange(value: string): Option<ByteRange> {
    match StripPrefix(value, "bytes=")
    case None => None
    case Some(rest) =>
      if ',' in rest then None
      else match SplitOnce(rest, '-')
        case None => None
        case Some(pair) =>
          var start, endText := ParseUnsigned(Trim(pair.0), U64_MAX), Trim(pair.1);
          if start.None? then None
          else if endText == [] then Some(ByteRange(start.value, None))
          else
            var end := ParseUnsigned(endText, U64_MAX);
            if end.None? then None else Some(ByteRange(start.value, end))
  }

  function RangeText(range: ByteRange): string {
    "bytes=" + Print(range.start) + "-" + (if range.end.Some? then Print(range.end.value) else "")
  }

  lemma TrimDigits(s: string)
    requires AllDigits(s)
    ensures Trim(s) == s
  {
  }

  lemma RangeRoundTrip(range: ByteRange)
    requires range.start <= U64_MAX && (range.end.Some? ==> range.end.value <= U64_MAX)
    ensures ParseRange(RangeText(range)) == Some(range)
  {
    var text := RangeText(range);
    var start, end := Print(range.start), if range.end.Some? then Print(range.end.value) else "";
    var rest := start + ['-'] + end;
    assert text == "bytes=" + rest;
    assert text[..6] == "bytes=" && text[6..] == rest;
    assert ',' !in rest;
    SplitOnceAt(start, '-', end);
    TrimDigits(start);
    TrimDigits(end);
    ParsePrint(range.start, U64_MAX);
    if range.end.Some? {
      ParsePrint(range.end.value, U64_MAX);
    }
  }

  // The half-open interval of the body that a range asks for, or none.
  function ResolveRange(range: ByteRange, total: nat): Option<(nat, nat)> {
    if range.start >= total then None
    else
      var last := if range.end.Some? then Min(range.end.value, total - 1) else total - 1;
      if last < range.start then None else Some((range.start, last + 1))
  }

  predicate Asked(range: ByteRange, i: nat) {
    range.start <= i && (range.end.Some? ==> i <= range.end.value)
  }

  // The resolved interval is exactly the asked-for bytes the body has, and
  // nothing is resolved exactly when the body has none of them.
  lemma ResolveExact(range: ByteRange, total: nat)
    ensures match ResolveRange(range, total)
            case Some(interval) =>
              && interval.0 < interval.1 <= total
              && (forall i: nat :: interval.0 <= i < interval.1 <==> i < total && Asked(range, i))
            case None => forall i: nat :: i < total ==> !Asked(range, i)
  {
  }

  // ---------------------------------------------------------------------
  // Answers.
  // ---------------------------------------------------------------------

  datatype Response =
    | NoContent
    | PlaylistReply
    | Full(body: seq<byte>)
    | Partial(body: seq<byte>, first: nat, last: nat, total: nat)
    | BadRequest
    | NotFound

  predicate IsPlaylistPath(path: string) {
    path == "/" || path == "/playlist.m3u8" || path == "/index.m3u8"
  }

  // The path without its query.
  function PathOnly(target: string): string {
    match SplitOnce(target, '?')
    case Some(pair) => pair.0
    case None => target
  }

  function ServeSegment(data: seq<byte>, range: Option<ByteRange>): Response {
    match range
    case None => Full(data)
    case Some(asked) =>
      var interval := match ResolveRange(asked, |data|) case Some(found) => found case None => (0, |data|);
      ResolveExact(asked, |data|);
      Partial(data[interval.0..interval.1], interval.0, if interval.1 > 0 then interval.1 - 1 else 0, |data|)
  }

  // The answer to a request, before a HEAD reply drops the body.
  function Serve(r: Ring, method_: string, target: string, range: Option<ByteRange>): Response {
    var path := PathOnly(target);
    if method_ == "OPTIONS" then NoContent
    else if method_ != "GET" && method_ != "HEAD" then NotFound
    else if IsPlaylistPath(path) then PlaylistReply
    else if IsPartPath(path) then
      match ParsePartSeqAndIdx(path)
      case None => BadRequest
      case Some(pair) =>
        match GetPart(r, pair.0, pair.1)
        case Some(part) => Full(part.data)
        case None => NotFound
    else if IsSegmentPath(path) then
      match ParseSegmentSeq(path)
      case None => BadRequest
      case Some(seqNo) =>
        match Get(r, seqNo)
        case Some(segment) => ServeSegment(segment.data, range)
        case None => NotFound
    else NotFound
  }

  // What the Content-Range of a partial answer says is true of the octets
  // sent exactly when there is a body: an empty one is announced as its octet
  // zero. They are what was asked for exactly when the body has some of the
  // octets asked for, or has none at all; otherwise the whole body goes out,
  // still marked partial.
  lemma PartialMatchesRequest(data: seq<byte>, asked: ByteRange)
    ensures var reply := ServeSegment(data, Some(asked));
      && reply.Partial? && reply.total == |data|
      && (Describes(reply, data) <==> data != [])
      && (reply.body == [] <==> data == [])
      && ((forall i: nat :: i < |data| && reply.first <= i <= reply.last <==> i < |data| && Asked(asked, i))
          <==> data == [] || ResolveRange(asked, |data|).Some?)
  {
    ResolveExact(asked, |data|);
    if ResolveRange(asked, |data|).None? && data != [] {
      assert !Asked(asked, 0);
    }
  }

  // The announced interval lies inside the announced total and names exactly
  // the octets sent.
  predicate Describes(reply: Response, data: seq<byte>)
    requires reply.Partial?
  {
    reply.first <= reply.last < reply.total == |data| && reply.body == data[reply.first..reply.last + 1]
  }

  // Any range of an empty body: octet 0 of 0 is announced, and none is sent.
  lemma EmptyBodyAnnounced(asked: ByteRange)
    ensures ServeSegment([], Some(asked)) == Partial([], 0, 0, 0)
  {
  }

  // A range past the end: everything is sent, as octets that were not asked for.
  lemma PastTheEnd(data: seq<byte>, asked: ByteRange)
    requires data != [] && asked.start >= |data|
    ensures ServeSegment(data, Some(asked)) == Partial(data, 0, |data| - 1, |data|)
    ensures forall i: nat :: i < |data| ==> !Asked(asked, i)
  {
  }

  lemma NoQuery(path: string)
    requires '?' !in path
    ensures PathOnly(path) == path
  {
    SplitOnceNone(path, '?');
  }

  lemma SegmentRequestServed(r: Ring, seqNo: nat, range: Option<ByteRange>)
    requires seqNo <= U64_MAX
    ensures Serve(r, "GET", "/" + SegmentUri(seqNo), range)
         == match Get(r, seqNo) case Some(s) => ServeSegment(s.data, range) case None => NotFound
  {
    hide IsPlaylistPath, IsPartPath, IsSegmentPath, ParseSegmentSeq, SegmentUri, PathOnly, ServeSegment, Get;
    SegmentPathRoundTrip(seqNo);
    SegmentPathPlain(seqNo);
    NoQuery("/" + SegmentUri(seqNo));
  }

  lemma SegmentPathPlain(seqNo: nat)
    ensures '?' !in "/" + SegmentUri(seqNo) && !IsPlaylistPath("/" + SegmentUri(seqNo))
  {
    var path := "/" + SegmentUri(seqNo);
    assert path[1] == 's' && "/playlist.m3u8"[1] == 'p' && "/index.m3u8"[1] == 'i';
  }

  lemma PartPathPlain(seqNo: nat, idx: nat)
    ensures '?' !in "/" + PartUri(seqNo, idx) && !IsPlaylistPath("/" + PartUri(seqNo, idx))
  {
    var path := "/" + PartUri(seqNo, idx);
    assert path[2] == 'a' && "/playlist.m3u8"[2] == 'l' && "/index.m3u8"[2] == 'n';
  }

  lemma PartRequestServed(r: Ring, seqNo: nat, idx: nat)
    requires seqNo <= U64_MAX && idx <= U32_MAX
    ensures Serve(r, "GET", "/" + PartUri(seqNo, idx), None)
         == match GetPart(r, seqNo, idx) case Some(p) => Full(p.data) case None => NotFound
  {
    hide IsPlaylistPath, IsPartPath, ParsePartSeqAndIdx, PartUri, PathOnly, GetPart;
    PartPathRoundTrip(seqNo, idx);
    PartPathPlain(seqNo, idx);
    NoQuery("/" + PartUri(seqNo, idx));
  }

  // Every segment URI of a playlist fetches that very segment.
  lemma SegmentUrisResolve(r: Ring, h: History, p: Playlist, minTarget: nat, partTarget: Option<Secs>, i: nat)
    requires Refines(r, h) && Lists(p, r, minTarget, partTarget) && r.nextSeq <= U64_MAX
    requires i < |p.entries|
    ensures Serve(r, "GET", "/" + p.entries[i].uri, None) == Full(r.segments[i].data)
  {
    hide Serve, SegmentUri, PartUri, TargetDuration, Get, Newest, Numbered;
    assert p.entries[i] == EntryAt(r.segments, i);
    GetFromHistory(r, h, r.segments[i].seqNo);
    WindowOfHistory(r, h);
    SegmentRequestServed(r, r.segments[i].seqNo, None);
  }

  lemma {:induction false} FindPartAt(parts: seq<Part>, first: nat, k: nat)
    requires forall i :: 0 <= i < |parts| ==> parts[i].idx == (first + i) % U32_COUNT
    requires k < |parts| && first + k < U32_COUNT
    ensures FindPart(parts, first + k) == Some(parts[k])
  {
    if k > 0 {
      FindPartAt(parts[1..], first + 1, k - 1);
    }
  }

  // Every part URI of a playlist, of a closed segment or of the one being
  // built, fetches that very part; past 2^32 parts, where the stored indices
  // start over, it fetches the first part with the same index.
  lemma PartUrisResolve(r: Ring, h: History, p: Playlist, minTarget: nat, partTarget: Option<Secs>, i: nat, k: nat)
    requires Refines(r, h) && Lists(p, r, minTarget, partTarget) && r.nextSeq <= U64_MAX
    requires i < |p.entries| && k < |p.entries[i].parts|
    ensures k % U32_COUNT <= k < |r.segments[i].parts|
    ensures Serve(r, "GET", "/" + p.entries[i].parts[k].uri, None) == Full(r.segments[i].parts[k % U32_COUNT].data)
  {
    hide Serve, PartUri, SegmentUri, TargetDuration, GetPart, Newest;
    var s, idx := r.segments[i], k % U32_COUNT;
    assert p.entries[i] == EntryAt(r.segments, i);
    IndexBelow(k);
    StoredPartFound(r, h, i, k);
    PartRequestServed(r, s.seqNo, idx);
  }

  lemma IndexBelow(k: nat)
    ensures k % U32_COUNT <= k && k % U32_COUNT <= U32_MAX && k % U32_COUNT % U32_COUNT == k % U32_COUNT
  {
  }

  lemma StoredPartFound(r: Ring, h: History, i: nat, k: nat)
    requires Refines(r, h) && i < |r.segments| && k < |r.segments[i].parts| && k % U32_COUNT <= k
    ensures GetPart(r, r.segments[i].seqNo, k % U32_COUNT) == Some(r.segments[i].parts[k % U32_COUNT])
    ensures r.segments[i].parts[k].idx == k % U32_COUNT && r.segments[i].seqNo < r.nextSeq
  {
    hide FindPart, FindSegment, Newest;
    var s := r.segments[i];
    GetFromHistory(r, h, s.seqNo);
    assert s == h.closed[FirstSeq(r) + i];
    FindPartAt(s.parts, 0, k % U32_COUNT);
  }

  lemma PendingUrisResolve(r: Ring, h: History, p: Playlist, minTarget: nat, partTarget: Option<Secs>, k: nat)
    requires Refines(r, h) && Lists(p, r, minTarget, partTarget) && r.nextSeq <= U64_MAX
    requires k < |p.pending|
    ensures k % U32_COUNT <= k < |r.pending|
    ensures Serve(r, "GET", "/" + p.pending[k].uri, None) == Full(r.pending[k % U32_COUNT].data)
  {
    hide Serve, PartUri, SegmentUri, TargetDuration, FindPart, FindSegment, Newest;
    IndexBelow(k);
    GetFromHistory(r, h, r.nextSeq);
    FindPartAt(r.pending, 0, k % U32_COUNT);
    PartRequestServed(r, r.nextSeq, k % U32_COUNT);
  }

  // Along a run, a segment URI never fetches two different bodies.
  lemma SegmentUriNamesOneBody(r: Ring, h: History, writes: seq<Write>, seqNo: nat)
    requires Refines(r, h) && seqNo <= U64_MAX
    ensures var uri := "/" + SegmentUri(seqNo);
      var before, after := Serve(r, "GET", uri, None), Serve(ApplyAll(r, writes), "GET", uri, None);
      before.Full? && after.Full? ==> before == after
  {
    SegmentRequestServed(r, seqNo, None);
    SegmentRequestServed(ApplyAll(r, writes), seqNo, None);
    if Get(r, seqNo).Some? && Get(ApplyAll(r, writes), seqNo).Some? {
      SegmentStable(r, h, writes, seqNo);
    }
  }

  // ---------------------------------------------------------------------
  // From the writes to the answers.
  // ---------------------------------------------------------------------

  // The octets of a part, from the write that adds it until its segment is
  // evicted, are what a GET of its URI answers; after that, 404.
  lemma PublishedPartServed(capacity: nat, before: seq<Write>, w: Write, after: seq<Write>)
    requires capacity >= 1 && w.AddPart? && OpenParts(before) < U32_COUNT && Closes(before) <= U64_MAX
    requires AllDisciplined(ApplyAll(Empty(capacity), before + [w]), after)
    ensures Serve(ApplyAll(Empty(capacity), before + [w] + after), "GET",
                  "/part-" + Print(Closes(before)) + "." + Print(OpenParts(before)) + ".ts", None)
         == if Closes(before + [w] + after) > Closes(before) + capacity then NotFound else Full(w.data)
  {
    hide Serve, GetPart, ApplyAll, AllDisciplined, Print, Closes, OpenParts;
    PartAsWritten(capacity, before, w, after);
    PartRequestServed(ApplyAll(Empty(capacity), before + [w] + after), Closes(before), OpenParts(before));
    var seqText, idxText := Print(Closes(before)), Print(OpenParts(before));
    assert "/" + PartUri(Closes(before), OpenParts(before)) == "/part-" + seqText + "." + idxText + ".ts";
  }

  // The same of a segment.
  lemma ClosedSegmentServed(capacity: nat, before: seq<Write>, w: Write, after: seq<Write>)
    requires capacity >= 1 && !w.AddPart? && Closes(before) <= U64_MAX
    ensures Serve(ApplyAll(Empty(capacity), before + [w] + after), "GET", "/segment-" + Print(Closes(before)) + ".ts", None)
         == if Closes(before + [w] + after) > Closes(before) + capacity then NotFound else Full(w.data)
  {
    hide Serve, Get, ApplyAll, Print, Closes, OpenParts;
    SegmentAsWritten(capacity, before, w, after);
    SegmentRequestServed(ApplyAll(Empty(capacity), before + [w] + after), Closes(before), None);
    assert "/" + SegmentUri(Closes(before)) == "/segment-" + Print(Closes(before)) + ".ts";
  }

  // ---------------------------------------------------------------------
  // Methods, playlist paths and queries.
  // ---------------------------------------------------------------------

  // The query of a target, empty when there is none.
  function QueryOf(target: string): string {
    match SplitOnce(target, '?')
    case Some(pair) => pair.1
    case None => ""
  }

  // A query takes no part in routing, and is what stands after the first
  // question mark, whole.
  lemma QueryIgnored(r: Ring, method_: string, path: string, query: string, range: Option<ByteRange>)
    requires '?' !in path
    ensures Serve(r, method_, path + "?" + query, range) == Serve(r, method_, path, range)
    ensures QueryOf(path + "?" + query) == query && QueryOf(path) == ""
  {
    hide Get, GetPart, ServeSegment, IsPartPath, IsSegmentPath, ParsePartSeqAndIdx, ParseSegmentSeq;
    SplitOnceAt(path, '?', query);
    SplitOnceNone(path, '?');
    assert path + "?" + query == path + ['?'] + query;
  }

  // The three playlist paths answer with the playlist, any path at all answers
  // OPTIONS with no content, and no other method than GET and HEAD with 404.
  lemma FixedRoutes(r: Ring, method_: string, path: string, range: Option<ByteRange>)
    requires '?' !in path
    ensures method_ == "OPTIONS" ==> Serve(r, method_, path, range) == NoContent
    ensures method_ != "OPTIONS" && method_ != "GET" && method_ != "HEAD" ==> Serve(r, method_, path, range) == NotFound
    ensures method_ == "GET" || method_ == "HEAD" ==>
              (Serve(r, method_, path, range) == PlaylistReply
               <==> path == "/" || path == "/playlist.m3u8" || path == "/index.m3u8")
    ensures Serve(r, "HEAD", path, range) == Serve(r, "GET", path, range)
  {
    hide Get, GetPart, ServeSegment, IsPartPath, IsSegmentPath, ParsePartSeqAndIdx, ParseSegmentSeq;
    NoQuery(path);
    ServesNoPlaylist(r, path, range);
  }

  lemma ServesNoPlaylist(r: Ring, path: string, range: Option<ByteRange>)
    ensures forall data: seq<byte> :: ServeSegment(data, range) != PlaylistReply
  {
  }

  // ---------------------------------------------------------------------
  // What the readers accept.
  // ---------------------------------------------------------------------

  // A path is read as a segment exactly when it has a number that fits 64
  // bits between the two fixed pieces of text.
  lemma SegmentPathExactly(path: string, seqNo: nat)
    ensures ParseSegmentSeq(path) == Some(seqNo)
       <==> exists num: string :: path == "/segment-" + num + ".ts" && ParseUnsigned(num, U64_MAX) == Some(seqNo)
  {
    hide ParseUnsigned;
    if ParseSegmentSeq(path) == Some(seqNo) {
      var num := StripSuffix(StripPrefix(path, "/segment-").value, ".ts").value;
      Unstripped(path, "/segment-", num, ".ts");
      assert path == "/segment-" + num + ".ts";
    }
    forall num: string | path == "/segment-" + num + ".ts" && ParseUnsigned(num, U64_MAX) == Some(seqNo)
      ensures ParseSegmentSeq(path) == Some(seqNo)
    {
      assert path == "/segment-" + (num + ".ts");
      Stripped("/segment-", num, ".ts");
    }
  }

  lemma Unstripped(path: string, prefix: string, body: string, suffix: string)
    requires StripPrefix(path, prefix).Some? && StripSuffix(StripPrefix(path, prefix).value, suffix) == Some(body)
    ensures path == prefix + body + suffix
  {
    var rest := path[|prefix|..];
    assert path == prefix + rest && rest == body + suffix;
  }

  // A part path: two numbers that fit, with the first dot between them.
  lemma PartPathExactly(path: string, seqNo: nat, idx: nat)
    ensures ParsePartSeqAndIdx(path) == Some((seqNo, idx))
       <==> exists num: string, part: string ::
              path == "/part-" + num + "." + part + ".ts" && '.' !in num
              && ParseUnsigned(num, U64_MAX) == Some(seqNo) && ParseUnsigned(part, U32_MAX) == Some(idx)
  {
    hide ParseUnsigned;
    if ParsePartSeqAndIdx(path) == Some((seqNo, idx)) {
      var body := StripSuffix(StripPrefix(path, "/part-").value, ".ts").value;
      var pair := SplitOnce(body, '.').value;
      Unstripped(path, "/part-", body, ".ts");
      SplitOnceJoins(body, '.');
      assert path == "/part-" + pair.0 + "." + pair.1 + ".ts";
    }
    forall num: string, part: string
      | path == "/part-" + num + "." + part + ".ts" && '.' !in num
        && ParseUnsigned(num, U64_MAX) == Some(seqNo) && ParseUnsigned(part, U32_MAX) == Some(idx)
      ensures ParsePartSeqAndIdx(path) == Some((seqNo, idx))
    {
      var body := num + ['.'] + part;
      assert path == "/part-" + (body + ".ts");
      Stripped("/part-", body, ".ts");
      SplitOnceAt(num, '.', part);
    }
  }

  lemma {:induction false} SplitOnceJoins(s: string, sep: char)
    requires SplitOnce(s, sep).Some?
    ensures var pair := SplitOnce(s, sep).value; s == pair.0 + [sep] + pair.1 && sep !in pair.0
  {
    if s[0] != sep {
      SplitOnceJoins(s[1..], sep);
      assert s == [s[0]] + s[1..];
    }
  }

  predicate Blank(s: string) {
    forall i :: 0 <= i < |s| ==> s[i] in " \t\r\n"
  }

  // Blanks around the two numbers of a range do not matter.
  lemma SpacedRange(range: ByteRange, a: string, b: string, c: string, d: string)
    requires range.start <= U64_MAX && (range.end.Some? ==> range.end.value <= U64_MAX)
    requires Blank(a) && Blank(b) && Blank(c) && Blank(d)
    ensures var end := if range.end.Some? then Print(range.end.value) else "";
      ParseRange("bytes=" + (a + Print(range.start) + b + ['-'] + (c + end + d))) == Some(range)
  {
    hide ParseUnsigned;
    var start, end := Print(range.start), if range.end.Some? then Print(range.end.value) else "";
    var rest := a + start + b + ['-'] + (c + end + d);
    var text := "bytes=" + rest;
    assert text[..6] == "bytes=" && text[6..] == rest;
    assert ',' !in rest;
    SplitOnceAt(a + start + b, '-', c + end + d);
    TrimBlanks(a, start, b);
    TrimBlanks(c, end, d);
    ParsePrint(range.start, U64_MAX);
    if range.end.Some? {
      ParsePrint(range.end.value, U64_MAX);
    }
  }

  lemma TrimBlanks(a: string, digits: string, b: string)
    requires Blank(a) && Blank(b) && AllDigits(digits)
    ensures Trim(a + digits + b) == digits
  {
    TrimFront(a, digits, b);
    if digits == [] {
      assert TrimEnd("") == "";
    } else {
      TrimBack(digits, b);
    }
  }

  lemma {:induction false} TrimFront(a: string, digits: string, b: string)
    requires Blank(a) && Blank(b) && AllDigits(digits)
    ensures TrimStart(a + digits + b) == if digits == [] then "" else digits + b
  {
    var s := a + digits + b;
    if a != [] {
      assert s[1..] == a[1..] + digits + b;
      TrimFront(a[1..], digits, b);
    } else if digits == [] && b != [] {
      assert s == b && b[1..] == [] + digits + b[1..];
      TrimFront([], digits, b[1..]);
    } else {
      assert s == digits + b;
    }
  }

  lemma {:induction false} TrimBack(digits: string, b: string)
    requires Blank(b) && AllDigits(digits) && digits != []
    ensures TrimEnd(digits + b) == digits
  {
    var s := digits + b;
    if b != [] {
      assert s[..|s| - 1] == digits + b[..|b| - 1];
      TrimBack(digits, b[..|b| - 1]);
    } else {
      assert s == digits;
    }
  }

  // What is not read as a range: another unit, several ranges, no hyphen, and
  // a range with only an end.
  lemma NotARange(rest: string)
    ensures !StartsWith(rest, "bytes=") ==> ParseRange(rest) == None
    ensures ',' in rest || '-' !in rest || (rest != [] && rest[0] == '-') ==> ParseRange("bytes=" + rest) == None
  {
    var text := "bytes=" + rest;
    assert text[6..] == rest;
    SplitOnceNone(rest, '-');
    if rest != [] && rest[0] == '-' {
      assert SplitOnce(rest, '-').value.0 == [];
      assert Trim([]) == [] && ParseUnsigned([], U64_MAX) == None;
    }
  }
}
