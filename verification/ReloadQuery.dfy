// The query of a blocking reload.
module ReloadQuery {
  import opened Wrappers
  import opened Numbers
  import opened Decimal
  import opened Routes

  const MSN_KEY := "_HLS_msn"
  const PART_KEY := "_HLS_part"

  datatype ReloadPoint = ReloadPoint(msn: nat, part: Option<nat>)

  function SplitAll(s: string, sep: char): (pieces: seq<string>)
    ensures pieces != []
    decreases |s|
  {
    match SplitOnce(s, sep)
    case None => [s]
    case Some(pair) => SplitOnceShrinks(s, sep); [pair.0] + SplitAll(pair.1, sep)
  }

  lemma {:induction false} SplitOnceShrinks(s: string, sep: char)
    ensures SplitOnce(s, sep).Some? ==> |SplitOnce(s, sep).value.1| < |s|
  {
    if s != [] && s[0] != sep {
      SplitOnceShrinks(s[1..], sep);
    }
  }

  // The number in the last pair with this key; a later unreadable value
  // takes back an earlier readable one.
  function LastValue(pairs: seq<string>, key: string, max: nat): Option<nat> {
    if pairs == [] then None
    else
      var last := SplitOnce(pairs[|pairs| - 1], '=');
      if last.Some? && last.value.0 == key then ParseUnsigned(last.value.1, max)
      else LastValue(pairs[..|pairs| - 1], key, max)
  }

  predicate AllPairs(pairs: seq<string>) {
    forall i :: 0 <= i < |pairs| ==> '=' in pairs[i]
  }

  // One pair without an equals sign makes the whole query count as none.
  method ParseBlockingReload(query: string) returns (point: Option<ReloadPoint>)
    ensures point == Meaning(query)
  {
    hide SplitOnce, SplitAll, ParseUnsigned;
    if query == [] {
      return None;
    }
    var msn: Option<nat> := None;
    var part: Option<nat> := None;
    var pairs := SplitAll(query, '&');
    var i := 0;
    while i < |pairs|
      invariant 0 <= i <= |pairs|
      invariant AllPairs(pairs[..i])
      invariant msn == LastValue(pairs[..i], MSN_KEY, U64_MAX)
      invariant part == LastValue(pairs[..i], PART_KEY, U32_MAX)
    {
      SplitOnceNone(pairs[i], '=');
      var pair := SplitOnce(pairs[i], '=');
      if pair.None? {
        assert !AllPairs(pairs);
        return None;
      }
      assert pairs[..i + 1][..i] == pairs[..i];
      assert MSN_KEY[5] != PART_KEY[5];
      if pair.value.0 == MSN_KEY {
        msn := ParseUnsigned(pair.value.1, U64_MAX);
      } else if pair.value.0 == PART_KEY {
        part := ParseUnsigned(pair.value.1, U32_MAX);
      }
      i := i + 1;
    }
    assert pairs[..i] == pairs;
    point := if msn.Some? then Some(ReloadPoint(msn.value, part)) else None;
  }

  function Meaning(query: string): Option<ReloadPoint> {
    var pairs := SplitAll(query, '&');
    var msn, part := LastValue(pairs, MSN_KEY, U64_MAX), LastValue(pairs, PART_KEY, U32_MAX);
    if query != [] && AllPairs(pairs) && msn.Some? then Some(ReloadPoint(msn.value, part)) else None
  }

  // ---------------------------------------------------------------------
  // Reading back a written query.
  // ---------------------------------------------------------------------

  datatype Field = Field(key: string, value: string)

  predicate Writable(f: Field) {
    '=' !in f.key && '&' !in f.key && '&' !in f.value
  }

  function FieldText(f: Field): string {
    f.key + ['='] + f.value
  }

  function Render(fields: seq<Field>): string {
    if fields == [] then "" else if |fields| == 1 then FieldText(fields[0])
    else FieldText(fields[0]) + ['&'] + Render(fields[1..])
  }

  function Texts(fields: seq<Field>): (texts: seq<string>)
    ensures |texts| == |fields|
  {
    seq(|fields|, i requires 0 <= i < |fields| => FieldText(fields[i]))
  }

  lemma {:induction false} SplitRendered(fields: seq<Field>)
    requires fields != [] && forall i :: 0 <= i < |fields| ==> Writable(fields[i])
    ensures SplitAll(Render(fields), '&') == Texts(fields)
  {
    var first := FieldText(fields[0]);
    if |fields| == 1 {
      SplitOnceNone(first, '&');
    } else {
      SplitRendered(fields[1..]);
      SplitOnceAt(first, '&', Render(fields[1..]));
      assert Texts(fields) == [first] + Texts(fields[1..]);
    }
  }

  // The value of the last field with this key.
  function LastField(fields: seq<Field>, key: string): Option<string> {
    if fields == [] then None
    else if fields[|fields| - 1].key == key then Some(fields[|fields| - 1].value)
    else LastField(fields[..|fields| - 1], key)
  }

  function Number(text: Option<string>, max: nat): Option<nat> {
    if text.Some? then ParseUnsigned(text.value, max) else None
  }

  lemma {:induction false} LastValueRendered(fields: seq<Field>, key: string, max: nat)
    requires forall i :: 0 <= i < |fields| ==> Writable(fields[i])
    ensures LastValue(Texts(fields), key, max) == Number(LastField(fields, key), max)
  {
    hide SplitOnce, ParseUnsigned;
    if fields != [] {
      var last := fields[|fields| - 1];
      SplitOnceAt(last.key, '=', last.value);
      LastValueRendered(fields[..|fields| - 1], key, max);
      assert Texts(fields)[..|fields| - 1] == Texts(fields[..|fields| - 1]);
    }
  }

  // A rendered list of fields means the numbers in its last message-sequence
  // and part fields, wherever they stand and whatever else is there.
  lemma QueryRoundTrip(fields: seq<Field>)
    requires fields != [] && forall i :: 0 <= i < |fields| ==> Writable(fields[i])
    ensures Meaning(Render(fields))
         == match Number(LastField(fields, MSN_KEY), U64_MAX)
            case None => None
            case Some(msn) => Some(ReloadPoint(msn, Number(LastField(fields, PART_KEY), U32_MAX)))
  {
    SplitRendered(fields);
    LastValueRendered(fields, MSN_KEY, U64_MAX);
    LastValueRendered(fields, PART_KEY, U32_MAX);
    forall i | 0 <= i < |fields| ensures '=' in Texts(fields)[i] {
      assert Texts(fields)[i][|fields[i].key|] == '=';
    }
    assert '=' in FieldText(fields[0]) by { assert FieldText(fields[0])[|fields[0].key|] == '='; }
    RenderNonEmpty(fields);
  }

  lemma RenderNonEmpty(fields: seq<Field>)
    requires fields != []
    ensures Render(fields) != []
  {
    assert FieldText(fields[0]) != [];
  }

  // ---------------------------------------------------------------------
  // Any query at all.
  // ---------------------------------------------------------------------

  function Join(pieces: seq<string>): string
    requires pieces != []
  {
    if |pieces| == 1 then pieces[0] else pieces[0] + ['&'] + Join(pieces[1..])
  }

  lemma {:induction false} SplitJoined(pieces: seq<string>)
    requires pieces != [] && forall i :: 0 <= i < |pieces| ==> '&' !in pieces[i]
    ensures SplitAll(Join(pieces), '&') == pieces
  {
    if |pieces| == 1 {
      SplitOnceNone(pieces[0], '&');
    } else {
      SplitJoined(pieces[1..]);
      SplitOnceAt(pieces[0], '&', Join(pieces[1..]));
      assert pieces == [pieces[0]] + pieces[1..];
    }
  }

  // The last piece with this key that stands before an equals sign.
  function LastWithKey(pieces: seq<string>, key: string): Option<string> {
    if pieces == [] then None
    else
      var last := pieces[|pieces| - 1];
      if |key| < |last| && last[..|key|] == key && last[|key|] == '=' then Some(last[|key| + 1..])
      else LastWithKey(pieces[..|pieces| - 1], key)
  }

  lemma {:induction false} LastValueIs(pieces: seq<string>, key: string, max: nat)
    requires '=' !in key
    ensures LastValue(pieces, key, max) == Number(LastWithKey(pieces, key), max)
  {
    hide ParseUnsigned;
    if pieces != [] {
      var last := pieces[|pieces| - 1];
      LastValueIs(pieces[..|pieces| - 1], key, max);
      if SplitOnce(last, '=').Some? {
        SplitOnceJoins(last, '=');
      }
      if |key| < |last| && last[..|key|] == key && last[|key|] == '=' {
        assert last == key + ['='] + last[|key| + 1..];
        SplitOnceAt(key, '=', last[|key| + 1..]);
      }
    }
  }

  // Any query, cut at its ampersands: it asks for nothing when a piece has no
  // equals sign, when there is no message sequence number, or when the last
  // one cannot be read; else for that number, with the last part number if
  // that can be read.
  lemma AnyQuery(pieces: seq<string>)
    requires pieces != [] && forall i :: 0 <= i < |pieces| ==> '&' !in pieces[i]
    ensures Meaning(Join(pieces))
         == (var msn := Number(LastWithKey(pieces, "_HLS_msn"), U64_MAX);
             if (exists i :: 0 <= i < |pieces| && '=' !in pieces[i]) || msn.None? then None
             else Some(ReloadPoint(msn.value, Number(LastWithKey(pieces, "_HLS_part"), U32_MAX))))
  {
    hide SplitAll, LastValue, LastWithKey, ParseUnsigned, Join;
    SplitJoined(pieces);
    LastValueIs(pieces, MSN_KEY, U64_MAX);
    LastValueIs(pieces, PART_KEY, U32_MAX);
    if Join(pieces) == [] {
      EmptyJoin(pieces);
    }
  }

  lemma EmptyJoin(pieces: seq<string>)
    requires pieces != [] && Join(pieces) == []
    ensures '=' !in pieces[0]
  {
  }

  // Every query is the joining of such pieces.
  lemma {:induction false} EveryQuery(query: string) returns (pieces: seq<string>)
    ensures pieces != [] && (forall i :: 0 <= i < |pieces| ==> '&' !in pieces[i]) && Join(pieces) == query
    decreases |query|
  {
    SplitOnceNone(query, '&');
    if SplitOnce(query, '&').None? {
      pieces := [query];
    } else {
      SplitOnceJoins(query, '&');
      var pair := SplitOnce(query, '&').value;
      var later := EveryQuery(pair.1);
      pieces := [pair.0] + later;
      assert pieces[1..] == later;
    }
  }
}
