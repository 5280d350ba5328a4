/** What signed and hashed bytes rely on: one encoding per meaning, and a decoder that accepts only it. */
module CborTheorems {
  import opened Bytes
  import opened Options
  import opened KeyedSort
  import opened CborValues
  import opened CborEncoding
  import opened CborParsing
  import opened CborInverse

  // ---------------------------------------------------------------------------
  // Bytes to value to bytes
  // ---------------------------------------------------------------------------

  /** Whatever decodes is the encoding of the value it decodes to, and that value is canonical and encodable. */
  lemma {:induction false} BytesAreCanonical(u: Unicode, bytes: seq<byte>)
    requires Decode(u, bytes).Ok?
    ensures var v := Decode(u, bytes).value;
      && Encode(v) == bytes
      && Validate(u, v).Ok?
      && Representable(u, v) && NestsWithin(v, MAXIMUM_NESTING_DEPTH)
      && IsCanonical(u, v) && Canon(v) == v
  {
    hide ParseItem, Encode, IsCanonical, Validate, Encodable;
    var v := Decode(u, bytes).value;
    ItemSound(u, bytes, 0, 0, MAXIMUM_NESTING_DEPTH);
    assert bytes[0..|bytes|] == bytes;
    CanonicalIsEncodable(u, v);
    ValidateExact(u, v);
  }

  /** No two byte strings decode to the same value. */
  lemma {:induction false} DecodingIsInjective(u: Unicode, a: seq<byte>, b: seq<byte>)
    requires Decode(u, a).Ok? && Decode(u, a) == Decode(u, b)
    ensures a == b
  {
    hide Decode, Encode;
    BytesAreCanonical(u, a);
    BytesAreCanonical(u, b);
  }

  // ---------------------------------------------------------------------------
  // Value to bytes to value
  // ---------------------------------------------------------------------------

  /** The encoding of an encodable value parses, in any context and under any sufficient depth limit. */
  lemma {:induction false} EncodedParses(u: Unicode, input: seq<byte>, at: nat, depth: nat, limit: nat, v: Value)
    requires Encodable(u, v) && Representable(u, v) && NestsWithin(v, limit - depth)
    requires At(input, at, Encode(v))
    ensures ParseItem(u, input, at, depth, limit) == Parsed(Canon(v), at + |Encode(v)|)
  {
    hide ParseItem, Encode, IsCanonical, Canon, Encodable, NestsWithin, Representable;
    CanonIsCanonical(u, v, limit - depth);
    CanonSameBytes(v);
    ItemComplete(u, input, at, depth, limit, Canon(v));
  }

  /** Decoding an encoding gives back the canonical form, which has the same encoding. */
  lemma {:induction false} ValueRoundTrip(u: Unicode, v: Value)
    requires Encodable(u, v) && Representable(u, v) && NestsWithin(v, MAXIMUM_NESTING_DEPTH)
    ensures Decode(u, Encode(v)) == Ok(Canon(v))
    ensures Encode(Canon(v)) == Encode(v)
  {
    hide ParseItem, Encode, Canon, Encodable, NestsWithin, Representable;
    assert Encode(v)[0..|Encode(v)|] == Encode(v);
    EncodedParses(u, Encode(v), 0, 0, MAXIMUM_NESTING_DEPTH, v);
    CanonSameBytes(v);
  }

  // ---------------------------------------------------------------------------
  // Exact acceptance
  // ---------------------------------------------------------------------------

  /** If the decoder accepts an encoding in place, the value was encodable and not too deep. */
  lemma {:induction false} AcceptedItem(u: Unicode, input: seq<byte>, at: nat, depth: nat, limit: nat, v: Value)
    requires Representable(u, v) && At(input, at, Encode(v))
    requires ParseItem(u, input, at, depth, limit).Parsed?
    ensures Encodable(u, v) && NestsWithin(v, limit - depth)
    ensures ParseItem(u, input, at, depth, limit).next == at + |Encode(v)|
    decreases v, 0
  {
    hide ParseItem, Encode, EncodeArgument, EncodeItems, EncodeEntries, ParseItems, ParseEntries;
    hide Sort, StrictlyAscending, DistinctKeys, EntryNestsWithin, Flatten;
    AcceptedDepth(u, input, at, depth, limit);
    match v {
      case Array(items) =>
        var head := EncodeArgument(4, |items|);
        ArrayBytes(items);
        AtConcat(input, at, head, EncodeItems(items));
        ArrayAccepted(u, input, at, depth, limit, items);
        AcceptedItems(u, input, at + |head|, depth + 1, limit, items);
      case Map(entries) =>
        var head, pairs := EncodeArgument(5, |entries|), EncodeEntries(entries);
        MapBytes(entries);
        AtConcat(input, at, head, Flatten(Sort(pairs)));
        MapAccepted(u, input, at, depth, limit, entries);
        SortedMembers(entries);
        AcceptedEntries(u, input, at + |head|, depth + 1, limit, Sort(pairs), None, entries);
        SortStrict(pairs);
        SortedEntriesFit(u, entries, Sort(pairs), limit - depth - 1);
      case _ =>
        AcceptedLeaf(u, input, at, depth, limit, v);
    }
  }

  lemma {:induction false} SortedMembers(entries: seq<Entry>)
    ensures forall i :: 0 <= i < |entries| ==> Sort(EncodeEntries(entries))[i] in EncodeEntries(entries)
  {
    hide Sort, EncodeEntries;
    var pairs: seq<Keyed<seq<byte>>> := EncodeEntries(entries);
    var sorted: seq<Keyed<seq<byte>>> := Sort(pairs);
    SortSorts(pairs);
    forall i | 0 <= i < |sorted| ensures sorted[i] in pairs {
      assert sorted[i] in multiset(sorted);
    }
  }

  /** What holds of every sorted pair's origins holds of every entry. */
  lemma {:induction false} SortedEntriesFit(u: Unicode, entries: seq<Entry>, sorted: seq<Keyed<seq<byte>>>, levels: int)
    requires sorted == Sort(EncodeEntries(entries))
    requires forall i, j :: 0 <= i < |sorted| && 0 <= j < |entries| && sorted[i] == EncodeEntry(entries[j]) ==>
      EntryFits(u, entries[j], levels)
    ensures forall j :: 0 <= j < |entries| ==> EntryFits(u, entries[j], levels)
  {
    hide Sort, EncodeEntries, EncodeEntry, EntryFits;
    var pairs := EncodeEntries(entries);
    SortSorts(pairs);
    forall j | 0 <= j < |entries| ensures EntryFits(u, entries[j], levels) {
      assert pairs[j] in multiset(pairs);
      var k :| 0 <= k < |sorted| && sorted[k] == pairs[j];
      assert EncodeEntry(entries[j]) == sorted[k];
    }
  }

  lemma {:induction false} AcceptedDepth(u: Unicode, input: seq<byte>, at: nat, depth: nat, limit: nat)
    requires at <= |input| && ParseItem(u, input, at, depth, limit).Parsed?
    ensures depth <= limit
  {
  }

  lemma {:induction false} AcceptedLeaf(u: Unicode, input: seq<byte>, at: nat, depth: nat, limit: nat, v: Value)
    requires !v.Array? && !v.Map? && Representable(u, v) && depth <= limit
    requires At(input, at, Encode(v)) && ParseItem(u, input, at, depth, limit).Parsed?
    ensures Encodable(u, v) && NestsWithin(v, limit - depth)
    ensures ParseItem(u, input, at, depth, limit).next == at + |Encode(v)|
  {
    hide ParseItems, ParseEntries, EncodeItems, EncodeEntries, ReadArgument, EncodeArgument;
    if v.Text? && !u.isNfc(v.utf8) {
      AtConcat(input, at, EncodeArgument(3, |v.utf8|), v.utf8);
      HeadComplete(input, at, 3, |v.utf8|);
      assert false;
    }
    if v.NegInt? && v.signed >= 0 {
      LeafComplete(u, input, at, depth, limit, Uint(v.signed));
    } else {
      LeafComplete(u, input, at, depth, limit, v);
    }
  }

  lemma {:induction false} AcceptedItems(u: Unicode, input: seq<byte>, at: nat, depth: nat, limit: nat,
      items: seq<Value>)
    requires forall i :: 0 <= i < |items| ==> Representable(u, items[i])
    requires At(input, at, EncodeItems(items))
    requires ParseItems(u, input, at, depth, limit, |items|).Parsed?
    ensures forall i :: 0 <= i < |items| ==> Encodable(u, items[i]) && NestsWithin(items[i], limit - depth)
    ensures ParseItems(u, input, at, depth, limit, |items|).next == at + |EncodeItems(items)|
    decreases items
  {
    hide ParseItem, Encode, Encodable, NestsWithin, Representable;
    if items != [] {
      AtConcat(input, at, Encode(items[0]), EncodeItems(items[1..]));
      AcceptedItem(u, input, at, depth, limit, items[0]);
      AcceptedItems(u, input, at + |Encode(items[0])|, depth, limit, items[1..]);
      assert forall i :: 1 <= i < |items| ==> items[i] == items[1..][i - 1];
    }
  }

  ghost predicate EntryFits(u: Unicode, e: Entry, levels: int) {
    Encodable(u, e.key) && Encodable(u, e.value) && EntryNestsWithin(e, levels)
  }

  lemma {:induction false} AcceptedEntries(u: Unicode, input: seq<byte>, at: nat, depth: nat, limit: nat,
      pairs: seq<Keyed<seq<byte>>>, previous: Option<seq<byte>>, entries: seq<Entry>)
    requires forall j :: 0 <= j < |entries| ==> Representable(u, entries[j].key) && Representable(u, entries[j].value)
    requires forall i :: 0 <= i < |pairs| ==> pairs[i] in EncodeEntries(entries)
    requires At(input, at, Flatten(pairs))
    requires ParseEntries(u, input, at, depth, limit, |pairs|, previous).Parsed?
    ensures forall i, j :: 0 <= i < |pairs| && 0 <= j < |entries| && pairs[i] == EncodeEntry(entries[j]) ==>
      EntryFits(u, entries[j], limit - depth)
    ensures StrictlyAscending(pairs) && Follows(previous, pairs)
    ensures ParseEntries(u, input, at, depth, limit, |pairs|, previous).next == at + |Flatten(pairs)|
    decreases entries, 1, |pairs|
  {
    hide ParseItem, ParseEntries, Encode, EncodeEntries, Encodable, NestsWithin, Representable, LexLess;
    hide StrictlyAscending, Follows;
    if pairs == [] {
      NoPairs(previous);
      NoEntries(u, input, at, depth, limit, previous);
    } else {
      var first, rest := pairs[0], pairs[1..];
      var e, middle, after := EntriesTurn(u, input, at, depth, limit, |pairs|, previous);
      assert pairs == [first] + rest;
      AtConcat(input, at, first.key + first.item, Flatten(rest));
      AtConcat(input, at, first.key, first.item);
      forall j | 0 <= j < |entries| && first == EncodeEntry(entries[j])
        ensures EntryFits(u, entries[j], limit - depth)
        ensures middle == at + |first.key| && after == middle + |first.item|
      {
        AcceptedEntry(u, input, at, middle, depth, limit, entries, j);
      }
      var origin :| 0 <= origin < |entries| && EncodeEntries(entries)[origin] == first;
      assert first == EncodeEntry(entries[origin]);
      AcceptedEntries(u, input, after, depth, limit, rest, Some(first.key), entries);
      FollowsCons(previous, first, rest);
    }
  }

  lemma {:induction false} AcceptedEntry(u: Unicode, input: seq<byte>, at: nat, middle: nat, depth: nat, limit: nat,
                                         entries: seq<Entry>, j: nat)
    requires j < |entries| && Representable(u, entries[j].key) && Representable(u, entries[j].value)
    requires At(input, at, Encode(entries[j].key)) && At(input, at + |Encode(entries[j].key)|, Encode(entries[j].value))
    requires var key := ParseItem(u, input, at, depth, limit); key.Parsed? && key.next == middle
    requires ParseItem(u, input, middle, depth, limit).Parsed?
    ensures EntryFits(u, entries[j], limit - depth)
    ensures middle == at + |Encode(entries[j].key)|
    ensures ParseItem(u, input, middle, depth, limit).next == middle + |Encode(entries[j].value)|
    decreases entries, 0, 0
  {
    hide ParseItem, Encode, Encodable, NestsWithin, Representable;
    assert entries decreases to entries[j];
    AcceptedItem(u, input, at, depth, limit, entries[j].key);
    AcceptedItem(u, input, middle, depth, limit, entries[j].value);
  }

  lemma {:induction false} NoPairs(previous: Option<seq<byte>>)
    ensures StrictlyAscending<seq<byte>>([]) && Follows(previous, [])
  {
  }

  /**
   * The decoder accepts an encoding exactly when validation passes and the nesting fits the limit:
   * non-NFC text, keys with equal encodings and excess depth are the only obstacles, at any level.
   */
  lemma {:induction false} ExactAcceptance(u: Unicode, v: Value)
    requires Representable(u, v)
    ensures Decode(u, Encode(v)).Ok? <==> Validate(u, v).Ok? && NestsWithin(v, MAXIMUM_NESTING_DEPTH)
  {
    hide ParseItem, Encode, Encodable, NestsWithin, Representable, Validate, Canon;
    ValidateExact(u, v);
    if Encodable(u, v) && NestsWithin(v, MAXIMUM_NESTING_DEPTH) {
      ValueRoundTrip(u, v);
    }
    if Decode(u, Encode(v)).Ok? {
      assert At(Encode(v), 0, Encode(v));
      AcceptedItem(u, Encode(v), 0, 0, MAXIMUM_NESTING_DEPTH, v);
    }
  }

  // ---------------------------------------------------------------------------
  // Depth is a third obstacle
  // ---------------------------------------------------------------------------

  function Nested(levels: nat): Value {
    if levels == 0 then Null else Array([Nested(levels - 1)])
  }

  lemma {:induction false} NestedIsEncodable(u: Unicode, levels: nat)
    ensures Encodable(u, Nested(levels)) && Representable(u, Nested(levels))
  {
    if levels > 0 {
      NestedIsEncodable(u, levels - 1);
    }
  }

  lemma {:induction false} NestedFits(levels: nat, limit: int)
    ensures NestsWithin(Nested(levels), limit) <==> levels <= limit
  {
    if levels > 0 {
      NestedFits(levels - 1, limit - 1);
      var items := Nested(levels).items;
      assert items[0] == Nested(levels - 1);
    }
  }

  /** Checked encoding accepts values nested beyond the limit, whose bytes the decoder then refuses. */
  lemma {:induction false} DeepEncodingIsRefused(u: Unicode, levels: nat)
    requires levels > MAXIMUM_NESTING_DEPTH
    ensures Validate(u, Nested(levels)).Ok? && Decode(u, Encode(Nested(levels))).Err?
  {
    hide Nested, Encode, Decode, Validate, Encodable, Representable, NestsWithin;
    NestedIsEncodable(u, levels);
    NestedFits(levels, MAXIMUM_NESTING_DEPTH);
    ValidateExact(u, Nested(levels));
    ExactAcceptance(u, Nested(levels));
  }
}
