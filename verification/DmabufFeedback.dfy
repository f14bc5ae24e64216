// The compositor's dmabuf feedback: collecting its events and resolving the
// format table into the modifiers it accepts.
module DmabufFeedback {
  import opened Wrappers
  import opened Bytes

  const ENTRY_SIZE := 16

  datatype Tranche = Tranche(targetDevice: Option<nat>, indices: seq<nat>)

  datatype Event =
    | Done
    | FormatTable(table: seq<byte>)
    | MainDevice(device: seq<byte>)
    | TrancheTargetDevice(device: seq<byte>)
    | TrancheFormats(indices: seq<byte>)
    | TrancheFlags
    | TrancheDone

  datatype Feedback = Feedback(
    done: bool, mainDevice: Option<nat>, table: Option<seq<byte>>,
    tranches: seq<Tranche>, current: Option<Tranche>)

  const INITIAL := Feedback(false, None, None, [], None)

  // A device number is eight octets; anything else is no device.
  function DecodeDevice(device: seq<byte>): Option<nat> {
    if |device| == 8 then Some(FromLittleEndian(device)) else None
  }

  // Pairs of octets; an odd one at the end is dropped.
  function DecodeIndices(bytes: seq<byte>): seq<nat> {
    if |bytes| < 2 then [] else [FromLittleEndian(bytes[..2])] + DecodeIndices(bytes[2..])
  }

  function CurrentOrNew(f: Feedback): Tranche {
    if f.current.Some? then f.current.value else Tranche(None, [])
  }

  function Handle(f: Feedback, e: Event): Feedback {
    match e
    case Done => f.(done := true)
    case FormatTable(table) => f.(table := Some(table))
    case MainDevice(device) => f.(mainDevice := DecodeDevice(device))
    case TrancheTargetDevice(device) =>
      f.(current := Some(CurrentOrNew(f).(targetDevice := DecodeDevice(device))))
    case TrancheFormats(indices) =>
      var tranche := CurrentOrNew(f);
      f.(current := Some(tranche.(indices := tranche.indices + DecodeIndices(indices))))
    case TrancheFlags => f
    case TrancheDone =>
      if f.current.Some? then f.(tranches := f.tranches + [f.current.value], current := None) else f
  }

  function HandleAll(f: Feedback, events: seq<Event>): Feedback
    decreases |events|
  {
    if events == [] then f else HandleAll(Handle(f, events[0]), events[1..])
  }

  class FeedbackState {
    var done: bool
    var mainDevice: Option<nat>
    var table: Option<seq<byte>>
    var tranches: seq<Tranche>
    var current: Option<Tranche>

    ghost function Value(): Feedback
      reads this
    {
      Feedback(done, mainDevice, table, tranches, current)
    }

    constructor ()
      ensures Value() == INITIAL
    {
      done, mainDevice, table, tranches, current := false, None, None, [], None;
    }

    method OnEvent(e: Event)
      modifies this
      ensures Value() == Handle(old(Value()), e)
    {
      match e {
        case Done => done := true;
        case FormatTable(bytes) => table := Some(bytes);
        case MainDevice(device) => mainDevice := DecodeDevice(device);
        case TrancheTargetDevice(device) =>
          var tranche := if current.Some? then current.value else Tranche(None, []);
          current := Some(tranche.(targetDevice := DecodeDevice(device)));
        case TrancheFormats(bytes) =>
          var tranche := if current.Some? then current.value else Tranche(None, []);
          current := Some(tranche.(indices := tranche.indices + DecodeIndices(bytes)));
        case TrancheFlags =>
        case TrancheDone =>
          if current.Some? {
            tranches := tranches + [current.value];
            current := None;
          }
      }
    }

    // The accept list: for each format its modifiers, each one once.
    method Resolve() returns (accepted: map<nat, seq<nat>>)
      ensures accepted == AcceptList(Value())
    {
      accepted := map[];
      if table.None? || mainDevice.None? {
        return;
      }
      var bytes := table.value;
      if |bytes| == 0 || |bytes| % ENTRY_SIZE != 0 {
        return;
      }
      var t := 0;
      while t < |tranches|
        invariant 0 <= t <= |tranches|
        invariant accepted == AddAll(map[], NamedBy(bytes, mainDevice.value, tranches[..t]))
      {
        hide AddAll, NamedByIndices;
        var tranche := tranches[t];
        assert tranches[..t + 1][..t] == tranches[..t];
        ghost var before := NamedBy(bytes, mainDevice.value, tranches[..t]);
        if tranche.targetDevice == mainDevice {
          accepted := AcceptTranche(bytes, tranche.indices, accepted, before);
        } else {
          assert before + [] == before;
        }
        t := t + 1;
      }
      assert tranches[..t] == tranches;
    }
  }

  // Add what one tranche names to what earlier ones did.
  method AcceptTranche(table: seq<byte>, indices: seq<nat>, found: map<nat, seq<nat>>, ghost before: seq<Entry>)
    returns (accepted: map<nat, seq<nat>>)
    requires found == AddAll(map[], before)
    ensures accepted == AddAll(map[], before + NamedByIndices(table, indices))
  {
    hide AddAll;
    accepted := found;
    assert before + [] == before;
    var k := 0;
    while k < |indices|
      invariant 0 <= k <= |indices|
      invariant accepted == AddAll(map[], before + NamedByIndices(table, indices[..k]))
    {
      assert indices[..k + 1][..k] == indices[..k];
      ghost var soFar := before + NamedByIndices(table, indices[..k]);
      if InTable(table, indices[k]) {
        var entry := EntryAt(table, indices[k]);
        var list := if entry.format in accepted then accepted[entry.format] else [];
        if entry.modifier !in list {
          list := list + [entry.modifier];
        }
        accepted := accepted[entry.format := list];
        AddAllSnoc(map[], soFar, entry);
        assert before + NamedByIndices(table, indices[..k + 1]) == soFar + [entry];
      } else {
        assert before + NamedByIndices(table, indices[..k + 1]) == soFar;
      }
      k := k + 1;
    }
    assert indices[..k] == indices;
  }

  // ---------------------------------------------------------------------
  // Resolution.
  // ---------------------------------------------------------------------

  datatype Entry = Entry(format: nat, modifier: nat)

  predicate InTable(table: seq<byte>, idx: nat) {
    idx * ENTRY_SIZE + ENTRY_SIZE <= |table|
  }

  function EntryAt(table: seq<byte>, idx: nat): Entry
    requires InTable(table, idx)
  {
    var at := idx * ENTRY_SIZE;
    Entry(FromLittleEndian(table[at..at + 4]), FromLittleEndian(table[at + 8..at + 16]))
  }

  // The entries a list of indices names, out-of-range ones left out.
  function NamedByIndices(table: seq<byte>, indices: seq<nat>): seq<Entry> {
    if indices == [] then []
    else
      var last := indices[|indices| - 1];
      NamedByIndices(table, indices[..|indices| - 1]) + if InTable(table, last) then [EntryAt(table, last)] else []
  }

  // The entries named by the tranches for the main device.
  function NamedBy(table: seq<byte>, device: nat, tranches: seq<Tranche>): seq<Entry> {
    if tranches == [] then []
    else
      var last := tranches[|tranches| - 1];
      NamedBy(table, device, tranches[..|tranches| - 1])
      + if last.targetDevice == Some(device) then NamedByIndices(table, last.indices) else []
  }

  function Add(accepted: map<nat, seq<nat>>, e: Entry): map<nat, seq<nat>> {
    var list := if e.format in accepted then accepted[e.format] else [];
    accepted[e.format := if e.modifier in list then list else list + [e.modifier]]
  }

  function AddAll(accepted: map<nat, seq<nat>>, entries: seq<Entry>): map<nat, seq<nat>> {
    if entries == [] then accepted
    else Add(AddAll(accepted, entries[..|entries| - 1]), entries[|entries| - 1])
  }

  lemma AddAllSnoc(accepted: map<nat, seq<nat>>, entries: seq<Entry>, e: Entry)
    ensures AddAll(accepted, entries + [e]) == Add(AddAll(accepted, entries), e)
  {
    assert (entries + [e])[..|entries|] == entries;
  }

  // All entries that count, in the order they were announced.
  function Named(f: Feedback): seq<Entry> {
    if f.table.None? || f.mainDevice.None? || |f.table.value| % ENTRY_SIZE != 0 then []
    else NamedBy(f.table.value, f.mainDevice.value, f.tranches)
  }

  function AcceptList(f: Feedback): map<nat, seq<nat>> {
    if f.table.Some? && |f.table.value| == 0 then map[] else AddAll(map[], Named(f))
  }

  // ---------------------------------------------------------------------
  // What the accept list holds.
  // ---------------------------------------------------------------------

  // Position of the first occurrence, or the length when there is none.
  function FirstIndex(entries: seq<Entry>, e: Entry): nat {
    if entries == [] then 0 else if entries[0] == e then 0 else 1 + FirstIndex(entries[1..], e)
  }

  ghost predicate Duplicatefree(list: seq<nat>) {
    forall i, j :: 0 <= i < j < |list| ==> list[i] != list[j]
  }

  ghost predicate FirstOccurrenceOrder(entries: seq<Entry>, format: nat, list: seq<nat>) {
    forall i, j :: 0 <= i < j < |list| ==>
      FirstIndex(entries, Entry(format, list[i])) < FirstIndex(entries, Entry(format, list[j]))
  }

  // The list of a format holds exactly the modifiers named with it, each
  // once, in the order they were first named; a format is there exactly when
  // it was named.
  ghost predicate Exact(entries: seq<Entry>, accepted: map<nat, seq<nat>>) {
    && (forall e: Entry :: e in entries <==> e.format in accepted && e.modifier in accepted[e.format])
    && (forall format :: format in accepted ==>
          && accepted[format] != []
          && Duplicatefree(accepted[format])
          && FirstOccurrenceOrder(entries, format, accepted[format]))
  }

  lemma {:induction false} FirstIndexSnoc(entries: seq<Entry>, last: Entry, e: Entry)
    ensures FirstIndex(entries, e) <= |entries|
    ensures e in entries <==> FirstIndex(entries, e) < |entries|
    ensures FirstIndex(entries + [last], e)
         == if e in entries then FirstIndex(entries, e) else if e == last then |entries| else |entries| + 1
  {
    if entries == [] {
      assert (entries + [last])[1..] == [];
    } else {
      FirstIndexSnoc(entries[1..], last, e);
      assert (entries + [last])[1..] == entries[1..] + [last];
      assert e in entries <==> e == entries[0] || e in entries[1..];
    }
  }

  lemma AddExact(entries: seq<Entry>, accepted: map<nat, seq<nat>>, e: Entry)
    requires Exact(entries, accepted)
    ensures Exact(entries + [e], Add(accepted, e))
  {
    hide FirstIndex, FirstOccurrenceOrder;
    var all, accepted' := entries + [e], Add(accepted, e);
    forall x: Entry ensures x in all <==> x.format in accepted' && x.modifier in accepted'[x.format] {
      assert x in all <==> x in entries || x == e;
    }
    forall format | format in accepted' ensures FirstOccurrenceOrder(all, format, accepted'[format]) {
      OrderKept(entries, accepted, e, format);
    }
  }

  lemma OrderKept(entries: seq<Entry>, accepted: map<nat, seq<nat>>, e: Entry, format: nat)
    requires Exact(entries, accepted) && format in Add(accepted, e)
    ensures FirstOccurrenceOrder(entries + [e], format, Add(accepted, e)[format])
  {
    hide FirstIndex;
    var list := Add(accepted, e)[format];
    forall i, j | 0 <= i < j < |list|
      ensures FirstIndex(entries + [e], Entry(format, list[i])) < FirstIndex(entries + [e], Entry(format, list[j]))
    {
      FirstIndexSnoc(entries, e, Entry(format, list[i]));
      FirstIndexSnoc(entries, e, Entry(format, list[j]));
      assert format in accepted && list[i] == accepted[format][i];
    }
  }

  lemma {:induction false} AddAllExact(entries: seq<Entry>)
    ensures Exact(entries, AddAll(map[], entries))
  {
    if entries != [] {
      AddAllExact(entries[..|entries| - 1]);
      AddExact(entries[..|entries| - 1], AddAll(map[], entries[..|entries| - 1]), entries[|entries| - 1]);
      assert entries[..|entries| - 1] + [entries[|entries| - 1]] == entries;
    }
  }

  // An entry is named exactly by a finished tranche that targets the main
  // device and has an index inside the table for it.
  ghost predicate NamesIt(table: seq<byte>, tranche: Tranche, device: nat, e: Entry) {
    && tranche.targetDevice == Some(device)
    && exists k :: 0 <= k < |tranche.indices| && InTable(table, tranche.indices[k])
                && EntryAt(table, tranche.indices[k]) == e
  }

  lemma {:induction false} NamedByIndicesExact(table: seq<byte>, indices: seq<nat>, e: Entry)
    ensures e in NamedByIndices(table, indices)
       <==> exists k :: 0 <= k < |indices| && InTable(table, indices[k]) && EntryAt(table, indices[k]) == e
  {
    if indices != [] {
      var init := indices[..|indices| - 1];
      NamedByIndicesExact(table, init, e);
      assert forall k :: 0 <= k < |init| ==> init[k] == indices[k];
    }
  }

  ghost predicate SomeNames(table: seq<byte>, device: nat, tranches: seq<Tranche>, e: Entry) {
    exists t :: 0 <= t < |tranches| && NamesIt(table, tranches[t], device, e)
  }

  lemma SomeNamesSnoc(table: seq<byte>, device: nat, init: seq<Tranche>, last: Tranche, e: Entry)
    ensures SomeNames(table, device, init + [last], e)
       <==> SomeNames(table, device, init, e) || NamesIt(table, last, device, e)
  {
    hide NamesIt;
    var all := init + [last];
    if SomeNames(table, device, init, e) {
      var t :| 0 <= t < |init| && NamesIt(table, init[t], device, e);
      assert NamesIt(table, all[t], device, e);
    }
    if NamesIt(table, last, device, e) {
      assert NamesIt(table, all[|init|], device, e);
    }
  }

  lemma {:induction false} NamedByExact(table: seq<byte>, device: nat, tranches: seq<Tranche>, e: Entry)
    ensures e in NamedBy(table, device, tranches) <==> SomeNames(table, device, tranches, e)
  {
    if tranches == [] {
      assert !SomeNames(table, device, [], e);
    } else {
      hide SomeNames, NamesIt, NamedByIndices;
      var init, last := tranches[..|tranches| - 1], tranches[|tranches| - 1];
      NamedByExact(table, device, init, e);
      NamesItExact(table, last, device, e);
      SomeNamesSnoc(table, device, init, last, e);
      assert tranches == init + [last];
    }
  }

  lemma NamesItExact(table: seq<byte>, tranche: Tranche, device: nat, e: Entry)
    ensures NamesIt(table, tranche, device, e)
       <==> tranche.targetDevice == Some(device) && e in NamedByIndices(table, tranche.indices)
  {
    NamedByIndicesExact(table, tranche.indices, e);
  }

  // The resolved accept list of any feedback with a whole table and a main
  // device: per format, without repeats and in order of first mention,
  // exactly the modifiers that a finished tranche for the main device names.
  lemma AcceptListExact(f: Feedback)
    requires f.table.Some? && f.mainDevice.Some?
    requires |f.table.value| > 0 && |f.table.value| % ENTRY_SIZE == 0
    ensures Exact(Named(f), AcceptList(f))
    ensures forall e: Entry ::
              e.format in AcceptList(f) && e.modifier in AcceptList(f)[e.format]
              <==> exists t :: 0 <= t < |f.tranches| && NamesIt(f.table.value, f.tranches[t], f.mainDevice.value, e)
  {
    AddAllExact(Named(f));
    forall e: Entry
      ensures e in Named(f)
         <==> exists t :: 0 <= t < |f.tranches| && NamesIt(f.table.value, f.tranches[t], f.mainDevice.value, e)
    {
      NamedByExact(f.table.value, f.mainDevice.value, f.tranches, e);
    }
  }

  // ---------------------------------------------------------------------
  // From events to tranches.
  // ---------------------------------------------------------------------

  function EncodeIndices(indices: seq<nat>): seq<byte> {
    if indices == [] then [] else LittleEndian(indices[0], 2) + EncodeIndices(indices[1..])
  }

  predicate Announceable(t: Tranche) {
    && t.targetDevice.Some? && t.targetDevice.value < U64_COUNT
    && forall i :: 0 <= i < |t.indices| ==> t.indices[i] < U16_COUNT
  }

  function Announce(t: Tranche): seq<Event>
    requires Announceable(t)
  {
    [TrancheTargetDevice(LittleEndian(t.targetDevice.value, 8)), TrancheFlags,
     TrancheFormats(EncodeIndices(t.indices)), TrancheDone]
  }

  function AnnounceAll(tranches: seq<Tranche>): seq<Event>
    requires forall t :: t in tranches ==> Announceable(t)
  {
    if tranches == [] then [] else Announce(tranches[0]) + AnnounceAll(tranches[1..])
  }

  lemma {:induction false} IndicesRoundTrip(indices: seq<nat>)
    requires forall i :: 0 <= i < |indices| ==> indices[i] < U16_COUNT
    ensures DecodeIndices(EncodeIndices(indices)) == indices
  {
    if indices != [] {
      var bytes := EncodeIndices(indices);
      IndicesRoundTrip(indices[1..]);
      assert Power256(2) == U16_COUNT;
      LittleEndianRoundTrip(indices[0], 2);
      assert bytes[..2] == LittleEndian(indices[0], 2) && bytes[2..] == EncodeIndices(indices[1..]);
    }
  }

  lemma AnnounceRoundTrip(f: Feedback, t: Tranche, rest: seq<Event>)
    requires Announceable(t) && f.current == None
    ensures HandleAll(f, Announce(t) + rest) == HandleAll(f.(tranches := f.tranches + [t]), rest)
  {
    var events := Announce(t) + rest;
    IndicesRoundTrip(t.indices);
    assert Power256(4) == U32_COUNT;
    assert Power256(8) == U64_COUNT;
    LittleEndianRoundTrip(t.targetDevice.value, 8);
    var f1 := Handle(f, events[0]);
    var f2 := Handle(f1, events[1]);
    var f3 := Handle(f2, events[2]);
    var f4 := Handle(f3, events[3]);
    assert events[1..][1..] == events[2..] && events[2..][1..] == events[3..] && events[3..][1..] == rest;
    assert HandleAll(f, events) == HandleAll(f1, events[1..]);
    assert HandleAll(f1, events[1..]) == HandleAll(f2, events[2..]);
    assert HandleAll(f2, events[2..]) == HandleAll(f3, events[3..]);
    assert [] + t.indices == t.indices;
    assert f4 == f.(tranches := f.tranches + [t]);
  }

  // Whatever came before, the tranches announced are the ones collected; a
  // tranche still open at the end is not among them.
  lemma {:induction false} TranchesRoundTrip(f: Feedback, tranches: seq<Tranche>)
    requires f.current == None && forall t :: t in tranches ==> Announceable(t)
    ensures HandleAll(f, AnnounceAll(tranches)) == f.(tranches := f.tranches + tranches)
    decreases |tranches|
  {
    if tranches == [] {
      assert f.tranches + [] == f.tranches;
    } else {
      AnnounceRoundTrip(f, tranches[0], AnnounceAll(tranches[1..]));
      TranchesRoundTrip(f.(tranches := f.tranches + [tranches[0]]), tranches[1..]);
      assert f.tranches + [tranches[0]] + tranches[1..] == f.tranches + tranches;
    }
  }

  // ---------------------------------------------------------------------
  // Any events at all.
  // ---------------------------------------------------------------------

  // Events that say something about the tranche being announced.
  predicate Mentions(e: Event) {
    e.TrancheTargetDevice? || e.TrancheFormats?
  }

  // What a stretch of events says of its tranche: the last target device, and
  // all indices in order.
  function LastTarget(stretch: seq<Event>): Option<nat> {
    if stretch == [] then None
    else
      var last := stretch[|stretch| - 1];
      if last.TrancheTargetDevice? then DecodeDevice(last.device) else LastTarget(stretch[..|stretch| - 1])
  }

  function AllIndices(stretch: seq<Event>): seq<nat> {
    if stretch == [] then []
    else
      var before, last := AllIndices(stretch[..|stretch| - 1]), stretch[|stretch| - 1];
      if last.TrancheFormats? then before + DecodeIndices(last.indices) else before
  }

  ghost predicate SaysSomething(stretch: seq<Event>) {
    exists i :: 0 <= i < |stretch| && Mentions(stretch[i])
  }

  ghost function TrancheOf(stretch: seq<Event>): Option<Tranche> {
    if SaysSomething(stretch) then Some(Tranche(LastTarget(stretch), AllIndices(stretch))) else None
  }

  // Position of the first event that ends a tranche, or the length.
  function FirstDone(events: seq<Event>): (n: nat)
    ensures n <= |events| && (n < |events| ==> events[n].TrancheDone?)
    ensures forall i :: 0 <= i < n ==> !events[i].TrancheDone?
  {
    if events == [] || events[0].TrancheDone? then 0 else 1 + FirstDone(events[1..])
  }

  // The tranches events announce: one for each stretch that ends in a
  // TrancheDone and says something; what comes after the last is left open.
  ghost function Announced(events: seq<Event>): seq<Tranche>
    decreases |events|
  {
    var n := FirstDone(events);
    if n == |events| then []
    else
      var first, later := TrancheOf(events[..n]), Announced(events[n + 1..]);
      if first.Some? then [first.value] + later else later
  }

  function LastTable(events: seq<Event>): Option<seq<byte>> {
    if events == [] then None
    else
      var last := events[|events| - 1];
      if last.FormatTable? then Some(last.table) else LastTable(events[..|events| - 1])
  }

  function LastMainDevice(events: seq<Event>): Option<nat> {
    if events == [] then None
    else
      var last := events[|events| - 1];
      if last.MainDevice? then DecodeDevice(last.device) else LastMainDevice(events[..|events| - 1])
  }

  lemma {:induction false} HandleConcat(f: Feedback, a: seq<Event>, b: seq<Event>)
    ensures HandleAll(f, a + b) == HandleAll(HandleAll(f, a), b)
    decreases |a|
  {
    hide Handle;
    if a == [] {
      assert a + b == b;
    } else {
      HandleConcat(Handle(f, a[0]), a[1..], b);
      assert (a + b)[1..] == a[1..] + b;
    }
  }

  lemma HandleLast(f: Feedback, events: seq<Event>)
    requires events != []
    ensures HandleAll(f, events) == Handle(HandleAll(f, events[..|events| - 1]), events[|events| - 1])
  {
    hide Handle;
    var init, last := events[..|events| - 1], events[|events| - 1];
    HandleConcat(f, init, [last]);
    assert events == init + [last] && [last][1..] == [];
  }

  lemma SaysSnoc(init: seq<Event>, last: Event)
    ensures SaysSomething(init + [last]) <==> SaysSomething(init) || Mentions(last)
  {
    var all := init + [last];
    if SaysSomething(init) {
      var i :| 0 <= i < |init| && Mentions(init[i]);
      assert Mentions(all[i]);
    }
    if Mentions(last) {
      assert Mentions(all[|init|]);
    }
  }

  // A stretch that ends no tranche only fills the open one.
  lemma {:induction false} StretchEffect(f: Feedback, stretch: seq<Event>)
    requires f.current == None && forall i :: 0 <= i < |stretch| ==> !stretch[i].TrancheDone?
    ensures HandleAll(f, stretch).tranches == f.tranches && HandleAll(f, stretch).current == TrancheOf(stretch)
    decreases |stretch|
  {
    hide DecodeDevice, DecodeIndices, SaysSomething;
    if stretch == [] {
      SaysNothing();
    } else {
      var init, last := stretch[..|stretch| - 1], stretch[|stretch| - 1];
      StretchEffect(f, init);
      HandleLast(f, stretch);
      SaysSnoc(init, last);
      assert stretch == init + [last];
      if !SaysSomething(init) {
        SilentStretch(init);
      }
    }
  }

  lemma SaysNothing()
    ensures !SaysSomething([])
  {
  }

  lemma {:induction false} SilentStretch(stretch: seq<Event>)
    requires !SaysSomething(stretch)
    ensures LastTarget(stretch) == None && AllIndices(stretch) == []
  {
    if stretch != [] {
      var init := stretch[..|stretch| - 1];
      SaysSnoc(init, stretch[|stretch| - 1]);
      assert stretch == init + [stretch[|stretch| - 1]];
      SilentStretch(init);
    }
  }

  lemma {:induction false} LastValues(f: Feedback, events: seq<Event>)
    requires f.table == None && f.mainDevice == None && !f.done
    ensures var after := HandleAll(f, events);
      && after.table == LastTable(events) && after.mainDevice == LastMainDevice(events)
      && (after.done <==> Done in events)
    decreases |events|
  {
    hide DecodeDevice, DecodeIndices;
    if events != [] {
      var init, last := events[..|events| - 1], events[|events| - 1];
      LastValues(f, init);
      HandleLast(f, events);
      assert events == init + [last];
    }
  }

  lemma {:induction false} TranchesOfAnyEvents(f: Feedback, events: seq<Event>)
    requires f.current == None
    ensures HandleAll(f, events).tranches == f.tranches + Announced(events)
    decreases |events|
  {
    hide TrancheOf, Handle, HandleAll, FirstDone, Announced;
    AnnouncedIs(events);
    var n := FirstDone(events);
    if n == |events| {
      StretchEffect(f, events);
    } else {
      var stretch, rest := events[..n], events[n + 1..];
      StretchEffect(f, stretch);
      var before := HandleAll(f, stretch);
      EndsTranche(before, events[n]);
      TranchesOfAnyEvents(Handle(before, events[n]), rest);
      HandleAround(f, events, n);
    }
  }

  lemma AnnouncedIs(events: seq<Event>)
    ensures var n := FirstDone(events);
      if n == |events| then Announced(events) == []
      else
        var first, later := TrancheOf(events[..n]), Announced(events[n + 1..]);
        Announced(events) == if first.Some? then [first.value] + later else later
  {
    hide TrancheOf, FirstDone;
  }

  lemma EndsTranche(f: Feedback, e: Event)
    requires e.TrancheDone?
    ensures Handle(f, e).current == None
    ensures Handle(f, e).tranches == if f.current.Some? then f.tranches + [f.current.value] else f.tranches
  {
  }

  lemma HandleAround(f: Feedback, events: seq<Event>, n: nat)
    requires n < |events|
    ensures HandleAll(f, events) == HandleAll(Handle(HandleAll(f, events[..n]), events[n]), events[n + 1..])
  {
    hide Handle;
    var later := events[n..];
    HandleConcat(f, events[..n], later);
    assert events == events[..n] + later && later[0] == events[n] && later[1..] == events[n + 1..];
  }

  // Whatever events arrive, in whatever order: the tranches collected are
  // those of the stretches that end in a TrancheDone, each with its last
  // target device and all its indices in order; table and main device are the
  // last ones announced.
  lemma CollectedExactly(events: seq<Event>)
    ensures var f := HandleAll(INITIAL, events);
      && f.tranches == Announced(events)
      && f.table == LastTable(events) && f.mainDevice == LastMainDevice(events)
      && (f.done <==> Done in events)
  {
    TranchesOfAnyEvents(INITIAL, events);
    LastValues(INITIAL, events);
    assert [] + Announced(events) == Announced(events);
  }

  // ---------------------------------------------------------------------
  // The table and the devices, octet by octet.
  // ---------------------------------------------------------------------

  // A row of the table: four octets of format, four unused, eight of modifier.
  function RowBytes(e: Entry, unused: seq<byte>): seq<byte> {
    LittleEndian(e.format, 4) + unused + LittleEndian(e.modifier, 8)
  }

  // An index names the row at sixteen times its value, if it lies whole inside
  // the table, by format and modifier.
  lemma RowRead(before: seq<byte>, e: Entry, unused: seq<byte>, after: seq<byte>, idx: nat)
    requires |before| == 16 * idx && |unused| == 4
    requires e.format < 0x1_0000_0000 && e.modifier < 0x1_0000_0000_0000_0000
    ensures var table := before + RowBytes(e, unused) + after; InTable(table, idx) && EntryAt(table, idx) == e
  {
    hide LittleEndian, FromLittleEndian;
    var table, at := before + RowBytes(e, unused) + after, 16 * idx;
    assert |RowBytes(e, unused)| == 16;
    assert table[at..at + 4] == LittleEndian(e.format, 4) && table[at + 8..at + 16] == LittleEndian(e.modifier, 8);
    assert Power256(4) == U32_COUNT;
    assert Power256(8) == U64_COUNT;
    LittleEndianRoundTrip(e.format, 4);
    LittleEndianRoundTrip(e.modifier, 8);
  }

  lemma OutsideTable(table: seq<byte>, idx: nat)
    ensures InTable(table, idx) <==> 16 * (idx + 1) <= |table|
  {
  }

  // Eight octets are a device number, any other count is none.
  lemma DeviceExactly(device: seq<byte>, number: nat)
    requires number < U64_COUNT
    ensures DecodeDevice(device) == Some(number) <==> device == LittleEndian(number, 8)
    ensures |device| != 8 ==> DecodeDevice(device) == None
  {
    hide LittleEndian, FromLittleEndian;
    assert Power256(4) == U32_COUNT;
    assert Power256(8) == U64_COUNT;
    LittleEndianRoundTrip(number, 8);
    if |device| == 8 && FromLittleEndian(device) == number {
      LittleEndianInjective(device, LittleEndian(number, 8));
    }
  }

  // An odd octet after the indices is dropped.
  lemma {:induction false} OddOctetDropped(indices: seq<nat>, odd: byte)
    requires forall i :: 0 <= i < |indices| ==> indices[i] < U16_COUNT
    ensures DecodeIndices(EncodeIndices(indices) + [odd]) == indices
  {
    hide LittleEndian, FromLittleEndian;
    if indices == [] {
      assert EncodeIndices(indices) + [odd] == [odd];
    } else {
      hide DecodeIndices;
      var later := EncodeIndices(indices[1..]) + [odd];
      OddOctetDropped(indices[1..], odd);
      DecodeFirst(indices[0], later);
      assert EncodeIndices(indices) + [odd] == LittleEndian(indices[0], 2) + later;
    }
  }

  lemma DecodeFirst(index: nat, rest: seq<byte>)
    requires index < U16_COUNT
    ensures DecodeIndices(LittleEndian(index, 2) + rest) == [index] + DecodeIndices(rest)
  {
    hide LittleEndian, FromLittleEndian;
    var bytes := LittleEndian(index, 2) + rest;
    assert Power256(2) == U16_COUNT;
    LittleEndianRoundTrip(index, 2);
    assert bytes[..2] == LittleEndian(index, 2) && bytes[2..] == rest;
  }

  // Without a table of whole rows or without a main device nothing is accepted.
  lemma NothingAccepted(f: Feedback)
    requires f.table.None? || f.mainDevice.None? || |f.table.value| == 0 || |f.table.value| % 16 != 0
    ensures AcceptList(f) == map[]
  {
  }
}
