// TLV8: tagged values in fragments of at most 255 bytes.
module Tlv {
  import opened Wrappers
  import opened Bytes

  const MAX_FRAGMENT := 255
  const TLV_TYPE_ERROR: byte := 7

  datatype Item = Item(tag: byte, value: seq<byte>)

  datatype TlvError = PeerError(code: seq<byte>)

  function Fragment(tag: byte, chunk: seq<byte>): seq<byte>
    requires |chunk| <= MAX_FRAGMENT
  {
    [tag, |chunk| as byte] + chunk
  }

  // One value, in as many fragments as it takes.
  function ValueBytes(tag: byte, value: seq<byte>): seq<byte>
    decreases |value|
  {
    if |value| <= MAX_FRAGMENT then Fragment(tag, value)
    else Fragment(tag, value[..MAX_FRAGMENT]) + ValueBytes(tag, value[MAX_FRAGMENT..])
  }

  function ItemsBytes(items: seq<Item>): seq<byte> {
    if items == [] then []
    else ItemsBytes(items[..|items| - 1]) + ValueBytes(items[|items| - 1].tag, items[|items| - 1].value)
  }

  method Encode(items: seq<Item>) returns (bytes: seq<byte>)
    ensures bytes == ItemsBytes(items)
  {
    bytes := [];
    var i := 0;
    while i < |items|
      invariant 0 <= i <= |items|
      invariant bytes == ItemsBytes(items[..i])
    {
      var tag, value := items[i].tag, items[i].value;
      assert items[..i + 1][..i] == items[..i];
      if value == [] {
        bytes := bytes + [tag] + [0];
        assert bytes == ItemsBytes(items[..i]) + Fragment(tag, []);
      } else {
        ghost var before := bytes;
        while value != []
          invariant if value == [] then bytes == before + ValueBytes(tag, items[i].value)
                    else bytes + ValueBytes(tag, value) == before + ValueBytes(tag, items[i].value)
          decreases |value|
        {
          var n := if |value| < MAX_FRAGMENT then |value| else MAX_FRAGMENT;
          var chunk, rest := value[..n], value[n..];
          assert rest == [] ==> chunk == value;
          assert bytes + ValueBytes(tag, value)
              == if rest == [] then bytes + Fragment(tag, chunk) else bytes + Fragment(tag, chunk) + ValueBytes(tag, rest);
          assert bytes + [tag] + [n as byte] + chunk == bytes + Fragment(tag, chunk);
          bytes := bytes + [tag] + [n as byte] + chunk;
          value := rest;
        }
      }
      i := i + 1;
    }
    assert items[..i] == items;
  }

  // ---------------------------------------------------------------------
  // Decoding.
  // ---------------------------------------------------------------------

  function Extend(m: map<byte, seq<byte>>, tag: byte, data: seq<byte>): map<byte, seq<byte>> {
    m[tag := (if tag in m then m[tag] else []) + data]
  }

  // What the fragments from `offset` on add to the values found so far.
  function Collect(bytes: seq<byte>, offset: nat, found: map<byte, seq<byte>>): map<byte, seq<byte>>
    requires offset <= |bytes|
    decreases |bytes| - offset
  {
    if |bytes| - offset < 2 then found
    else
      var length := bytes[offset + 1] as nat;
      if offset + 2 + length > |bytes| then found
      else Collect(bytes, offset + 2 + length,
                   Extend(found, bytes[offset], bytes[offset + 2..offset + 2 + length]))
  }

  function Decoded(bytes: seq<byte>): Result<map<byte, seq<byte>>, TlvError> {
    var found := Collect(bytes, 0, map[]);
    if TLV_TYPE_ERROR in found then Err(PeerError(found[TLV_TYPE_ERROR])) else Ok(found)
  }

  method Decode(bytes: seq<byte>) returns (result: Result<map<byte, seq<byte>>, TlvError>)
    ensures result == Decoded(bytes)
  {
    var found: map<byte, seq<byte>> := map[];
    var offset := 0;
    while |bytes| - offset >= 2
      invariant 0 <= offset <= |bytes|
      invariant Collect(bytes, offset, found) == Collect(bytes, 0, map[])
      decreases |bytes| - offset
    {
      var tag, length := bytes[offset], bytes[offset + 1] as nat;
      if offset + 2 + length > |bytes| {
        break;
      }
      var data := bytes[offset + 2..offset + 2 + length];
      found := Extend(found, tag, data);
      offset := offset + 2 + length;
    }
    result := if TLV_TYPE_ERROR in found then Err(PeerError(found[TLV_TYPE_ERROR])) else Ok(found);
  }

  // ---------------------------------------------------------------------
  // Round trip.
  // ---------------------------------------------------------------------

  // All values given for a tag, one after the other.
  function ValuesOf(items: seq<Item>, tag: byte): seq<byte> {
    if items == [] then []
    else
      var last := items[|items| - 1];
      ValuesOf(items[..|items| - 1], tag) + if last.tag == tag then last.value else []
  }

  predicate HasTag(items: seq<Item>, tag: byte) {
    exists i :: 0 <= i < |items| && items[i].tag == tag
  }

  ghost predicate Merged(items: seq<Item>, m: map<byte, seq<byte>>) {
    forall tag :: (tag in m <==> HasTag(items, tag)) && (tag in m ==> m[tag] == ValuesOf(items, tag))
  }

  lemma CollectFragment(before: seq<byte>, tag: byte, chunk: seq<byte>, rest: seq<byte>, found: map<byte, seq<byte>>)
    requires |chunk| <= MAX_FRAGMENT
    ensures var bytes := before + Fragment(tag, chunk) + rest;
      Collect(bytes, |before|, found) == Collect(bytes, |before + Fragment(tag, chunk)|, Extend(found, tag, chunk))
  {
    hide Extend, Fragment;
    FragmentAt(before, tag, chunk, rest);
  }

  lemma FragmentAt(before: seq<byte>, tag: byte, chunk: seq<byte>, rest: seq<byte>)
    requires |chunk| <= MAX_FRAGMENT
    ensures var bytes, at := before + Fragment(tag, chunk) + rest, |before|;
      && |Fragment(tag, chunk)| == 2 + |chunk| && |bytes| >= at + 2 + |chunk|
      && bytes[at] == tag && bytes[at + 1] as nat == |chunk| && bytes[at + 2..at + 2 + |chunk|] == chunk
  {
  }

  lemma ExtendTwice(m: map<byte, seq<byte>>, tag: byte, a: seq<byte>, b: seq<byte>)
    ensures Extend(Extend(m, tag, a), tag, b) == Extend(m, tag, a + b)
  {
    var old_ := if tag in m then m[tag] else [];
    assert old_ + a + b == old_ + (a + b);
  }

  lemma {:induction false} CollectValue(before: seq<byte>, tag: byte, value: seq<byte>, rest: seq<byte>,
                                        found: map<byte, seq<byte>>)
    ensures var bytes := before + ValueBytes(tag, value) + rest;
      Collect(bytes, |before|, found) == Collect(bytes, |before + ValueBytes(tag, value)|, Extend(found, tag, value))
    decreases |value|
  {
    hide Collect, Extend, Fragment;
    if |value| <= MAX_FRAGMENT {
      CollectFragment(before, tag, value, rest, found);
    } else {
      var chunk, later := value[..MAX_FRAGMENT], value[MAX_FRAGMENT..];
      var before', found' := before + Fragment(tag, chunk), Extend(found, tag, chunk);
      CollectFragment(before, tag, chunk, ValueBytes(tag, later) + rest, found);
      CollectValue(before', tag, later, rest, found');
      ExtendTwice(found, tag, chunk, later);
      assert chunk + later == value;
      assert before + ValueBytes(tag, value) + rest == before + Fragment(tag, chunk) + (ValueBytes(tag, later) + rest);
      assert before + ValueBytes(tag, value) + rest == before' + ValueBytes(tag, later) + rest;
      assert before + ValueBytes(tag, value) == before' + ValueBytes(tag, later);
    }
  }

  lemma EmptyMerged()
    ensures Merged([], map[])
  {
  }

  lemma MergedSnoc(items: seq<Item>, last: Item, m: map<byte, seq<byte>>)
    requires Merged(items, m)
    ensures Merged(items + [last], Extend(m, last.tag, last.value))
  {
    var all := items + [last];
    assert all[..|items|] == items;
    assert all[|items|].tag == last.tag;
    forall tag ensures HasTag(all, tag) <==> HasTag(items, tag) || tag == last.tag {
      if HasTag(items, tag) {
        var i :| 0 <= i < |items| && items[i].tag == tag;
        assert all[i].tag == tag;
      }
    }
    if last.tag !in m {
      NoValues(items, last.tag);
    }
  }

  lemma {:induction false} NoValues(items: seq<Item>, tag: byte)
    requires !HasTag(items, tag)
    ensures ValuesOf(items, tag) == []
  {
    if items != [] {
      assert items[|items| - 1].tag != tag;
      NoValues(items[..|items| - 1], tag);
    }
  }

  lemma {:induction false} CollectItems(items: seq<Item>, rest: seq<byte>) returns (m: map<byte, seq<byte>>)
    ensures Merged(items, m)
    ensures Collect(ItemsBytes(items) + rest, 0, map[]) == Collect(ItemsBytes(items) + rest, |ItemsBytes(items)|, m)
  {
    hide Collect, Extend, ValueBytes, Merged, HasTag;
    m := map[];
    if items == [] {
      EmptyMerged();
    } else {
      var init, last := items[..|items| - 1], items[|items| - 1];
      var lastBytes := ValueBytes(last.tag, last.value);
      m := CollectItems(init, lastBytes + rest);
      assert ItemsBytes(items) + rest == ItemsBytes(init) + (lastBytes + rest);
      assert ItemsBytes(items) + rest == ItemsBytes(init) + lastBytes + rest;
      CollectValue(ItemsBytes(init), last.tag, last.value, rest, m);
      MergedSnoc(init, last, m);
      assert items == init + [last];
      m := Extend(m, last.tag, last.value);
    }
  }

  // Decoding an encoding gives every tag the concatenation of its values, of
  // whatever lengths, unless the error tag is among them: then, and only
  // then, decoding fails, with that tag's value as the code.
  lemma RoundTrip(items: seq<Item>)
    ensures var result := Decoded(ItemsBytes(items));
      && (result.Ok? <==> !HasTag(items, TLV_TYPE_ERROR))
      && (result.Ok? ==> Merged(items, result.value))
      && (result.Err? ==> result.error == PeerError(ValuesOf(items, TLV_TYPE_ERROR)))
  {
    var m := CollectItems(items, []);
    assert ItemsBytes(items) + [] == ItemsBytes(items);
  }

  // ---------------------------------------------------------------------
  // Fragments, and any octets at all.
  // ---------------------------------------------------------------------

  // A value takes a fragment for every 255 octets begun, an empty one one,
  // each two octets longer than what it carries.
  lemma {:induction false} FragmentCount(tag: byte, value: seq<byte>)
    ensures |ValueBytes(tag, value)| == |value| + 2 * (if value == [] then 1 else (|value| + 254) / 255)
    ensures ValueBytes(tag, value)[0] == tag
    ensures ValueBytes(tag, value)[1] as nat == if |value| < 255 then |value| else 255
    decreases |value|
  {
    if |value| > 255 {
      FragmentCount(tag, value[255..]);
    }
  }

  // Octets that hold no whole fragment.
  predicate Truncated(tail: seq<byte>) {
    |tail| < 2 || 2 + tail[1] as nat > |tail|
  }

  predicate Short(items: seq<Item>) {
    forall i :: 0 <= i < |items| ==> |items[i].value| <= 255
  }

  // Any octets are fragments followed by a truncated one, or by nothing.
  lemma {:induction false} SplitFragments(bytes: seq<byte>) returns (items: seq<Item>, tail: seq<byte>)
    ensures bytes == ItemsBytes(items) + tail && Truncated(tail) && Short(items)
    decreases |bytes|
  {
    if Truncated(bytes) {
      items, tail := [], bytes;
      assert ItemsBytes([]) + bytes == bytes;
    } else {
      var end := 2 + bytes[1] as nat;
      var first := Item(bytes[0], bytes[2..end]);
      var later: seq<Item>;
      later, tail := SplitFragments(bytes[end..]);
      items := [first] + later;
      PrependItem(first, later, bytes, tail);
    }
  }

  lemma PrependItem(first: Item, later: seq<Item>, bytes: seq<byte>, tail: seq<byte>)
    requires !Truncated(bytes) && first == Item(bytes[0], bytes[2..2 + bytes[1] as nat])
    requires bytes[2 + bytes[1] as nat..] == ItemsBytes(later) + tail
    ensures bytes == ItemsBytes([first] + later) + tail
  {
    hide ItemsBytes;
    ItemsConcat([first], later);
    OneItem(first);
    assert bytes == Fragment(first.tag, first.value) + bytes[2 + bytes[1] as nat..];
    assert bytes == ItemsBytes([first]) + ItemsBytes(later) + tail;
  }

  lemma OneItem(item: Item)
    ensures ItemsBytes([item]) == ValueBytes(item.tag, item.value)
  {
    assert [item][..0] == [];
  }

  lemma {:induction false} ItemsConcat(a: seq<Item>, b: seq<Item>)
    ensures ItemsBytes(a + b) == ItemsBytes(a) + ItemsBytes(b)
  {
    hide ValueBytes;
    if b == [] {
      assert a + b == a;
    } else {
      assert (a + b)[..|a + b| - 1] == a + b[..|b| - 1];
      ItemsConcat(a, b[..|b| - 1]);
    }
  }

  lemma CollectTail(before: seq<byte>, tail: seq<byte>, found: map<byte, seq<byte>>)
    requires Truncated(tail)
    ensures Collect(before + tail, |before|, found) == found
  {
    hide Extend;
    if |tail| >= 2 {
      assert (before + tail)[|before| + 1] == tail[1];
    }
  }

  // Decoding any octets: each tag gets what the whole fragments hold for it, in
  // order, whatever is cut off after them; with the error tag among them it
  // fails, and with none it succeeds.
  lemma DecodeAny(bytes: seq<byte>) returns (items: seq<Item>, tail: seq<byte>)
    ensures bytes == ItemsBytes(items) + tail && Truncated(tail) && Short(items)
    ensures var result := Decoded(bytes);
      && (result.Ok? <==> !HasTag(items, 7))
      && (result.Ok? ==> Merged(items, result.value))
      && (result.Err? ==> result.error == PeerError(ValuesOf(items, 7)))
  {
    hide Collect, Short, Truncated, ItemsBytes;
    items, tail := SplitFragments(bytes);
    var m := CollectItems(items, tail);
    CollectTail(ItemsBytes(items), tail, m);
  }
}
