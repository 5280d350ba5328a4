/**
 * The codec against section 3 of RFC 8949: of all the definite-length encodings the standard allows for a value,
 * with heads of any width and map entries in any order, the encoder writes a shortest one and the decoder accepts
 * no other.
 */
module CborStandard {
  import opened Bytes
  import opened Options
  import opened KeyedSort
  import opened CborValues
  import opened CborEncoding
  import opened CborParsing
  import opened CborInverse
  import opened CborTheorems

  function Concat(parts: seq<seq<byte>>): seq<byte> {
    if parts == [] then [] else parts[0] + Concat(parts[1..])
  }

  /** `bytes` is one of the definite-length encodings of `v` that the standard allows. */
  ghost predicate Writes(bytes: seq<byte>, v: Value)
    decreases v
  {
    match v
    case Uint(unsigned) => Spells(bytes, 0, unsigned)
    case NegInt(signed) => if signed < 0 then Spells(bytes, 1, -1 - signed) else Spells(bytes, 0, signed)
    case Bytes(content) => exists head :: WritesHead(head, 2, |content|) && bytes == head + content
    case Text(content) => exists head :: WritesHead(head, 3, |content|) && bytes == head + content
    case Array(items) => exists head, parts :: ArrayFrom(bytes, items, head, parts)
    case Map(entries) => exists head, pairs, order :: MapFrom(bytes, entries, head, pairs, order)
    case Null => bytes == [0xf6]
  }

  ghost predicate WritesEntry(pair: Keyed<seq<byte>>, e: Entry)
    decreases e
  {
    Writes(pair.key, e.key) && Writes(pair.item, e.value)
  }

  predicate WritesHead(head: seq<byte>, majorType: nat, length: nat) {
    length < TWO_TO_THE_64 && Spells(head, majorType, length)
  }

  /** A head for the count, then an encoding of each item in turn. */
  ghost predicate ArrayFrom(bytes: seq<byte>, items: seq<Value>, head: seq<byte>, parts: seq<seq<byte>>)
    decreases items
  {
    && WritesHead(head, 4, |items|) && bytes == head + Concat(parts)
    && |parts| == |items| && forall i :: 0 <= i < |items| ==> Writes(parts[i], items[i])
  }

  /** A head for the count, then an encoding of each entry, in any order. */
  ghost predicate MapFrom(bytes: seq<byte>, entries: seq<Entry>, head: seq<byte>, pairs: seq<Keyed<seq<byte>>>,
                          order: seq<Keyed<seq<byte>>>)
    decreases entries
  {
    && WritesHead(head, 5, |entries|) && bytes == head + Flatten(order) && multiset(order) == multiset(pairs)
    && |pairs| == |entries| && forall i :: 0 <= i < |entries| ==> WritesEntry(pairs[i], entries[i])
  }

  // ---------------------------------------------------------------------------
  // The encoder writes one of them
  // ---------------------------------------------------------------------------

  function EncodeParts(items: seq<Value>): (parts: seq<seq<byte>>)
    ensures |parts| == |items| && forall i :: 0 <= i < |items| ==> parts[i] == Encode(items[i])
  {
    seq(|items|, i requires 0 <= i < |items| => Encode(items[i]))
  }

  lemma {:induction false} ConcatEncodes(items: seq<Value>)
    ensures Concat(EncodeParts(items)) == EncodeItems(items)
  {
    hide Encode;
    if items != [] {
      ConcatEncodes(items[1..]);
      assert EncodeParts(items)[1..] == EncodeParts(items[1..]);
    }
  }

  lemma {:induction false} EncodingIsStandard(u: Unicode, v: Value)
    requires Representable(u, v)
    ensures Writes(Encode(v), v)
    decreases v, 1
  {
    hide EncodeArgument, Spells, EncodeItems, EncodeEntries, Sort, Flatten;
    match v {
      case Uint(unsigned) => HeadSpells(0, unsigned);
      case NegInt(signed) =>
        if signed < 0 {
          HeadSpells(1, -1 - signed);
        } else {
          HeadSpells(0, signed);
        }
      case Bytes(content) =>
        HeadSpells(2, |content|);
        assert WritesHead(EncodeArgument(2, |content|), 2, |content|);
      case Text(content) =>
        HeadSpells(3, |content|);
        assert WritesHead(EncodeArgument(3, |content|), 3, |content|);
      case Array(items) =>
        HeadSpells(4, |items|);
        ConcatEncodes(items);
        forall i | 0 <= i < |items| ensures Writes(EncodeParts(items)[i], items[i]) {
          EncodingIsStandard(u, items[i]);
        }
        assert ArrayFrom(Encode(v), items, EncodeArgument(4, |items|), EncodeParts(items));
      case Map(entries) =>
        HeadSpells(5, |entries|);
        var pairs: seq<Keyed<seq<byte>>> := EncodeEntries(entries);
        SortSorts(pairs);
        forall i | 0 <= i < |entries| ensures WritesEntry(pairs[i], entries[i]) {
          EntryIsStandard(u, entries[i]);
        }
        MapBytes(entries);
        assert MapFrom(Encode(v), entries, EncodeArgument(5, |entries|), pairs, Sort(pairs));
      case Null =>
    }
  }

  lemma {:induction false} EntryIsStandard(u: Unicode, e: Entry)
    requires Representable(u, e.key) && Representable(u, e.value)
    ensures WritesEntry(EncodeEntry(e), e)
    decreases e, 0
  {
    EncodingIsStandard(u, e.key);
    EncodingIsStandard(u, e.value);
  }

  // ---------------------------------------------------------------------------
  // No other is accepted
  // ---------------------------------------------------------------------------

  /** A head that spells an argument and is accepted where it stands is the encoder's. */
  lemma {:induction false} HeadForced(input: seq<byte>, at: nat, head: seq<byte>, majorType: nat, argument: u64)
    requires Spells(head, majorType, argument) && At(input, at, head)
    ensures at < |input| && input[at] / 32 == majorType
    ensures var r := ReadArgument(input, at + 1, input[at] % 32, at);
      r.Parsed? ==> r == Parsed(argument, at + |head|) && head == EncodeArgument(majorType, argument)
  {
    hide FromBe, ToBe, EncodeArgument;
    assert input[at] == input[at..at + |head|][0] == head[0];
    assert input[at + 1..at + |head|] == input[at..at + |head|][1..] == head[1..];
    HeadSound(input, at);
  }

  /** Whatever is accepted where an encoding of `v` stands is the encoder's own encoding of `v`. */
  lemma {:induction false} ForcedItem(u: Unicode, input: seq<byte>, at: nat, depth: nat, limit: nat,
      bytes: seq<byte>, v: Value)
    requires Representable(u, v) && Writes(bytes, v) && At(input, at, bytes)
    requires ParseItem(u, input, at, depth, limit).Parsed?
    ensures bytes == Encode(v) && ParseItem(u, input, at, depth, limit).next == at + |bytes|
    decreases v, 1
  {
    hide ParseItem, Encodable, NestsWithin, At, Encode, ArrayFrom, MapFrom;
    match v {
      case Array(items) =>
        var head, parts :| ArrayFrom(bytes, items, head, parts);
        ForcedArray(u, input, at, depth, limit, bytes, items, head, parts);
      case Map(entries) =>
        var head, pairs, order :| MapFrom(bytes, entries, head, pairs, order);
        ForcedMap(u, input, at, depth, limit, bytes, entries, head, pairs, order);
      case _ =>
        ForcedLeaf(u, input, at, depth, limit, bytes, v);
    }
    AcceptedItem(u, input, at, depth, limit, v);
  }

  lemma {:induction false} ForcedArray(u: Unicode, input: seq<byte>, at: nat, depth: nat, limit: nat,
      bytes: seq<byte>, items: seq<Value>, head: seq<byte>, parts: seq<seq<byte>>)
    requires forall i :: 0 <= i < |items| ==> Representable(u, items[i])
    requires ArrayFrom(bytes, items, head, parts) && At(input, at, bytes)
    requires ParseItem(u, input, at, depth, limit).Parsed?
    ensures bytes == Encode(Array(items))
    decreases items, 2
  {
    hide ParseItem, EncodeArgument, Spells, EncodeItems, At, Encode, Writes, Representable, Concat;
    AtConcat(input, at, head, Concat(parts));
    HeadForced(input, at, head, 4, |items|);
    AcceptedContainer(u, input, at, depth, limit);
    ForcedItems(u, input, at + |head|, depth + 1, limit, parts, items);
    ArrayBytes(items);
  }

  lemma {:induction false} ForcedMap(u: Unicode, input: seq<byte>, at: nat, depth: nat, limit: nat,
      bytes: seq<byte>, entries: seq<Entry>, head: seq<byte>, pairs: seq<Keyed<seq<byte>>>,
      order: seq<Keyed<seq<byte>>>)
    requires forall j :: 0 <= j < |entries| ==> Representable(u, entries[j].key) && Representable(u, entries[j].value)
    requires MapFrom(bytes, entries, head, pairs, order) && At(input, at, bytes)
    requires ParseItem(u, input, at, depth, limit).Parsed?
    ensures bytes == Encode(Map(entries))
    decreases entries, 3, 0
  {
    hide ParseItem, EncodeArgument, Spells, At, Encode, WritesEntry, Representable, Flatten, Sort, EncodeEntries;
    AtConcat(input, at, head, Flatten(order));
    HeadForced(input, at, head, 5, |entries|);
    AcceptedContainer(u, input, at, depth, limit);
    SameSize(pairs, order);
    ForcedOrder(u, input, at + |head|, depth + 1, limit, pairs, order, entries);
    MapBytes(entries);
  }

  lemma {:induction false} SameSize(pairs: seq<Keyed<seq<byte>>>, order: seq<Keyed<seq<byte>>>)
    requires multiset(order) == multiset(pairs)
    ensures |order| == |pairs|
  {
    assert |multiset(order)| == |order| && |multiset(pairs)| == |pairs|;
  }

  lemma {:induction false} AcceptedContainer(u: Unicode, input: seq<byte>, at: nat, depth: nat, limit: nat)
    requires at < |input| && ParseItem(u, input, at, depth, limit).Parsed?
    requires input[at] / 32 == 4 || input[at] / 32 == 5
    ensures var r := ReadArgument(input, at + 1, input[at] % 32, at);
      && r.Parsed?
      && (input[at] / 32 == 4 ==> ParseItems(u, input, r.next, depth + 1, limit, r.value).Parsed?)
      && (input[at] / 32 == 5 ==> ParseEntries(u, input, r.next, depth + 1, limit, r.value, None).Parsed?)
  {
    hide ParseItems, ParseEntries, ReadArgument;
  }

  lemma {:induction false} AcceptedHead(u: Unicode, input: seq<byte>, at: nat, depth: nat, limit: nat)
    requires at < |input| && ParseItem(u, input, at, depth, limit).Parsed? && input[at] / 32 <= 5
    ensures ReadArgument(input, at + 1, input[at] % 32, at).Parsed?
  {
    hide ParseContent, ReadArgument;
  }

  /** A head accepted at the front of an item is the encoder's. */
  lemma {:induction false} ForcedHead(u: Unicode, input: seq<byte>, at: nat, depth: nat, limit: nat,
      head: seq<byte>, content: seq<byte>, majorType: nat, argument: u64)
    requires majorType <= 5 && Spells(head, majorType, argument) && At(input, at, head + content)
    requires ParseItem(u, input, at, depth, limit).Parsed?
    ensures head == EncodeArgument(majorType, argument)
  {
    hide ParseItem, ReadArgument, EncodeArgument, Spells, At;
    AtConcat(input, at, head, content);
    HeadForced(input, at, head, majorType, argument);
    AcceptedHead(u, input, at, depth, limit);
  }

  lemma {:induction false} ForcedLeaf(u: Unicode, input: seq<byte>, at: nat, depth: nat, limit: nat,
      bytes: seq<byte>, v: Value)
    requires !v.Array? && !v.Map? && Representable(u, v) && Writes(bytes, v) && At(input, at, bytes)
    requires ParseItem(u, input, at, depth, limit).Parsed?
    ensures bytes == Encode(v)
  {
    hide ParseItem, EncodeArgument, Spells, At;
    assert bytes + [] == bytes;
    match v {
      case Uint(unsigned) => ForcedHead(u, input, at, depth, limit, bytes, [], 0, unsigned);
      case NegInt(signed) =>
        if signed < 0 {
          ForcedHead(u, input, at, depth, limit, bytes, [], 1, -1 - signed);
        } else {
          ForcedHead(u, input, at, depth, limit, bytes, [], 0, signed);
        }
      case Bytes(content) =>
        var head :| WritesHead(head, 2, |content|) && bytes == head + content;
        ForcedHead(u, input, at, depth, limit, head, content, 2, |content|);
      case Text(content) =>
        var head :| WritesHead(head, 3, |content|) && bytes == head + content;
        ForcedHead(u, input, at, depth, limit, head, content, 3, |content|);
      case Null =>
    }
  }

  lemma {:induction false} ForcedItems(u: Unicode, input: seq<byte>, at: nat, depth: nat, limit: nat,
      parts: seq<seq<byte>>, items: seq<Value>)
    requires forall i :: 0 <= i < |items| ==> Representable(u, items[i])
    requires |parts| == |items| && forall i :: 0 <= i < |items| ==> Writes(parts[i], items[i])
    requires At(input, at, Concat(parts)) && ParseItems(u, input, at, depth, limit, |items|).Parsed?
    ensures Concat(parts) == EncodeItems(items)
    decreases items, 1
  {
    hide ParseItem, Encode, Writes, Representable;
    if items != [] {
      AtConcat(input, at, parts[0], Concat(parts[1..]));
      ForcedItem(u, input, at, depth, limit, parts[0], items[0]);
      ForcedItems(u, input, at + |parts[0]|, depth, limit, parts[1..], items[1..]);
    }
  }

  /** The pair stands for some entry. */
  ghost predicate Written(pair: Keyed<seq<byte>>, entries: seq<Entry>) {
    exists j :: 0 <= j < |entries| && WritesEntry(pair, entries[j])
  }

  lemma {:induction false} ForcedEntries(u: Unicode, input: seq<byte>, at: nat, depth: nat, limit: nat,
      order: seq<Keyed<seq<byte>>>, previous: Option<seq<byte>>, entries: seq<Entry>)
    requires forall j :: 0 <= j < |entries| ==> Representable(u, entries[j].key) && Representable(u, entries[j].value)
    requires forall i :: 0 <= i < |order| ==> Written(order[i], entries)
    requires At(input, at, Flatten(order))
    requires ParseEntries(u, input, at, depth, limit, |order|, previous).Parsed?
    ensures forall i, j :: 0 <= i < |order| && 0 <= j < |entries| && WritesEntry(order[i], entries[j]) ==>
      order[i] == EncodeEntry(entries[j])
    decreases entries, 1, |order|
  {
    hide ParseItem, ParseEntries, Encode, WritesEntry, Representable, At;
    if order != [] {
      var first, rest := order[0], order[1..];
      var e, middle, after := EntriesTurn(u, input, at, depth, limit, |order|, previous);
      AtConcat(input, at, first.key + first.item, Flatten(rest));
      AtConcat(input, at, first.key, first.item);
      forall j | 0 <= j < |entries| && WritesEntry(first, entries[j])
        ensures first == EncodeEntry(entries[j]) && after == at + |first.key| + |first.item|
      {
        ForcedEntry(u, input, at, middle, depth, limit, first, entries, j);
      }
      assert Written(first, entries);
      forall i | 0 <= i < |rest| ensures Written(rest[i], entries) {
        assert rest[i] == order[i + 1];
      }
      ForcedEntries(u, input, after, depth, limit, rest, Some(input[at..middle]), entries);
      assert forall i :: 1 <= i < |order| ==> order[i] == rest[i - 1];
    }
  }

  lemma {:induction false} ForcedEntry(u: Unicode, input: seq<byte>, at: nat, middle: nat, depth: nat, limit: nat,
                                       pair: Keyed<seq<byte>>, entries: seq<Entry>, j: nat)
    requires j < |entries| && Representable(u, entries[j].key) && Representable(u, entries[j].value)
    requires WritesEntry(pair, entries[j]) && At(input, at, pair.key) && At(input, at + |pair.key|, pair.item)
    requires var key := ParseItem(u, input, at, depth, limit); key.Parsed? && key.next == middle
    requires ParseItem(u, input, middle, depth, limit).Parsed?
    ensures pair == EncodeEntry(entries[j])
    ensures ParseItem(u, input, middle, depth, limit).next == at + |pair.key| + |pair.item|
    decreases entries, 0, 0
  {
    hide ParseItem, Encode, Writes, Representable;
    assert entries decreases to entries[j];
    ForcedItem(u, input, at, depth, limit, pair.key, entries[j].key);
    ForcedItem(u, input, middle, depth, limit, pair.item, entries[j].value);
  }

  /** Accepted entries come in the encoder's order. */
  lemma {:induction false} ForcedOrder(u: Unicode, input: seq<byte>, at: nat, depth: nat, limit: nat,
      pairs: seq<Keyed<seq<byte>>>, order: seq<Keyed<seq<byte>>>, entries: seq<Entry>)
    requires forall j :: 0 <= j < |entries| ==> Representable(u, entries[j].key) && Representable(u, entries[j].value)
    requires |pairs| == |entries| && forall i :: 0 <= i < |entries| ==> WritesEntry(pairs[i], entries[i])
    requires multiset(order) == multiset(pairs) && |order| == |entries|
    requires At(input, at, Flatten(order)) && ParseEntries(u, input, at, depth, limit, |entries|, None).Parsed?
    ensures order == Sort(EncodeEntries(entries))
    decreases entries, 2, 0
  {
    hide ParseItem, ParseEntries, Encode, WritesEntry, Representable, At, Flatten, Sort, EntryFits, StrictlyAscending;
    hide Follows, EncodeEntry;
    forall i | 0 <= i < |order| ensures Written(order[i], entries) {
      assert order[i] in multiset(order);
      var j :| 0 <= j < |pairs| && pairs[j] == order[i];
    }
    ForcedEntries(u, input, at, depth, limit, order, None, entries);
    forall j | 0 <= j < |entries| ensures pairs[j] == EncodeEntry(entries[j]) {
      assert pairs[j] in multiset(pairs);
      var i :| 0 <= i < |order| && order[i] == pairs[j];
    }
    var encoded: seq<Keyed<seq<byte>>> := EncodeEntries(entries);
    assert pairs == encoded;
    forall i | 0 <= i < |order| ensures order[i] in encoded {
      assert order[i] in multiset(order);
    }
    AcceptedEntries(u, input, at, depth, limit, order, None, entries);
    SortSorts(encoded);
    AscendingUnique(Sort(encoded), order);
  }

  /** The decoder accepts exactly one of a value's encodings, the encoder's, and that one only if nothing is wrong. */
  lemma {:induction false} OneEncodingAccepted(u: Unicode, v: Value, bytes: seq<byte>)
    requires Representable(u, v) && Writes(bytes, v)
    ensures Decode(u, bytes).Ok? <==>
      bytes == Encode(v) && Validate(u, v).Ok? && NestsWithin(v, MAXIMUM_NESTING_DEPTH)
  {
    hide ParseItem, Encode, Writes, Representable, Validate, NestsWithin;
    if Decode(u, bytes).Ok? {
      assert At(bytes, 0, bytes);
      ForcedItem(u, bytes, 0, 0, MAXIMUM_NESTING_DEPTH, bytes, v);
    }
    ExactAcceptance(u, v);
  }

  // ---------------------------------------------------------------------------
  // None is shorter
  // ---------------------------------------------------------------------------

  lemma {:induction false} FlattenConcat(a: seq<Keyed<seq<byte>>>, b: seq<Keyed<seq<byte>>>)
    ensures |Flatten(a + b)| == |Flatten(a)| + |Flatten(b)|
  {
    if a == [] {
      assert [] + b == b;
    } else {
      FlattenConcat(a[1..], b);
      assert (a + b)[1..] == a[1..] + b;
    }
  }

  function Rest(pairs: seq<Keyed<seq<byte>>>, k: nat): (rest: seq<Keyed<seq<byte>>>)
    requires k < |pairs|
    ensures |rest| == |pairs| - 1
  {
    pairs[..k] + pairs[k + 1..]
  }

  lemma {:induction false} RestElements(pairs: seq<Keyed<seq<byte>>>, k: nat)
    requires k < |pairs|
    ensures multiset(Rest(pairs, k)) == multiset(pairs) - multiset{pairs[k]}
  {
    var front, back := pairs[..k], pairs[k + 1..];
    assert pairs == front + [pairs[k]] + back;
    assert multiset(pairs) == multiset(front) + multiset{pairs[k]} + multiset(back);
  }

  /** Taking one pair out takes its bytes out of the length. */
  lemma {:induction false} RestLength(pairs: seq<Keyed<seq<byte>>>, k: nat)
    requires k < |pairs|
    ensures |Flatten(pairs)| == |Flatten([pairs[k]])| + |Flatten(Rest(pairs, k))|
  {
    hide Flatten;
    var front, back := pairs[..k], pairs[k + 1..];
    assert pairs == front + ([pairs[k]] + back);
    FlattenConcat(front, back);
    FlattenConcat(front, [pairs[k]] + back);
    FlattenConcat([pairs[k]], back);
  }

  /** The order of the pairs does not matter to the length. */
  lemma {:induction false} FlattenPermutes(a: seq<Keyed<seq<byte>>>, b: seq<Keyed<seq<byte>>>)
    requires multiset(a) == multiset(b)
    ensures |Flatten(a)| == |Flatten(b)|
    decreases |a|
  {
    hide Flatten, Rest;
    SameSize(b, a);
    if a == [] {
      assert b == [];
    } else {
      var k := PlaceOf(a[0], a, b);
      RestElements(a, 0);
      RestElements(b, k);
      RestLength(a, 0);
      RestLength(b, k);
      FlattenPermutes(Rest(a, 0), Rest(b, k));
    }
  }

  lemma {:induction false} PlaceOf(x: Keyed<seq<byte>>, a: seq<Keyed<seq<byte>>>, b: seq<Keyed<seq<byte>>>)
      returns (k: nat)
    requires multiset(a) == multiset(b) && x in a
    ensures k < |b| && b[k] == x
  {
    assert x in multiset(a);
    k :| 0 <= k < |b| && b[k] == x;
  }

  /** No encoding of a value that the standard allows is shorter than the encoder's. */
  lemma {:induction false} EncodingIsShortest(u: Unicode, v: Value, bytes: seq<byte>)
    requires Representable(u, v) && Writes(bytes, v)
    ensures |Encode(v)| <= |bytes|
    decreases v, 1
  {
    hide EncodeArgument, Spells, EncodeItems, EncodeEntries, Sort, Flatten, Encode;
    match v {
      case Array(items) =>
        var head, parts :| ArrayFrom(bytes, items, head, parts);
        NoHeadShorter(head, 4, |items|);
        ItemsShortest(u, items, parts);
        ArrayBytes(items);
      case Map(entries) =>
        var head, pairs, order :| MapFrom(bytes, entries, head, pairs, order);
        NoHeadShorter(head, 5, |entries|);
        EntriesShortest(u, entries, pairs);
        FlattenPermutes(order, pairs);
        SortSorts(EncodeEntries(entries));
        FlattenPermutes(Sort(EncodeEntries(entries)), EncodeEntries(entries));
        MapBytes(entries);
      case _ =>
        LeafShortest(u, v, bytes);
    }
  }

  lemma {:induction false} LeafShortest(u: Unicode, v: Value, bytes: seq<byte>)
    requires !v.Array? && !v.Map? && Representable(u, v) && Writes(bytes, v)
    ensures |Encode(v)| <= |bytes|
  {
    hide EncodeArgument, Spells;
    match v {
      case Uint(unsigned) => NoHeadShorter(bytes, 0, unsigned);
      case NegInt(signed) =>
        if signed < 0 {
          NoHeadShorter(bytes, 1, -1 - signed);
        } else {
          NoHeadShorter(bytes, 0, signed);
        }
      case Bytes(content) =>
        var head :| WritesHead(head, 2, |content|) && bytes == head + content;
        NoHeadShorter(head, 2, |content|);
      case Text(content) =>
        var head :| WritesHead(head, 3, |content|) && bytes == head + content;
        NoHeadShorter(head, 3, |content|);
      case Null =>
    }
  }

  lemma {:induction false} ItemsShortest(u: Unicode, items: seq<Value>, parts: seq<seq<byte>>)
    requires forall i :: 0 <= i < |items| ==> Representable(u, items[i])
    requires |parts| == |items| && forall i :: 0 <= i < |items| ==> Writes(parts[i], items[i])
    ensures |EncodeItems(items)| <= |Concat(parts)|
    decreases items
  {
    hide Encode, Writes, Representable;
    if items != [] {
      EncodingIsShortest(u, items[0], parts[0]);
      ItemsShortest(u, items[1..], parts[1..]);
    }
  }

  lemma {:induction false} EntriesShortest(u: Unicode, entries: seq<Entry>, pairs: seq<Keyed<seq<byte>>>)
    requires forall j :: 0 <= j < |entries| ==> Representable(u, entries[j].key) && Representable(u, entries[j].value)
    requires |pairs| == |entries| && forall i :: 0 <= i < |entries| ==> WritesEntry(pairs[i], entries[i])
    ensures |Flatten(EncodeEntries(entries))| <= |Flatten(pairs)|
    decreases entries, 1
  {
    hide Encode, Writes, Representable;
    if entries != [] {
      EntryShortest(u, entries[0], pairs[0]);
      EntriesShortest(u, entries[1..], pairs[1..]);
      assert EncodeEntries(entries)[1..] == EncodeEntries(entries[1..]);
    }
  }

  lemma {:induction false} EntryShortest(u: Unicode, e: Entry, pair: Keyed<seq<byte>>)
    requires Representable(u, e.key) && Representable(u, e.value) && WritesEntry(pair, e)
    ensures |EncodeEntry(e).key| <= |pair.key| && |EncodeEntry(e).item| <= |pair.item|
    decreases e, 0
  {
    hide Encode, Writes, Representable;
    EncodingIsShortest(u, e.key, pair.key);
    EncodingIsShortest(u, e.value, pair.item);
  }

  // ---------------------------------------------------------------------------
  // Key order, byte by byte
  // ---------------------------------------------------------------------------

  /** At every level, each map key's encoding comes before the next one's. */
  ghost predicate KeysAscend(v: Value)
    decreases v
  {
    match v
    case Array(items) => forall i :: 0 <= i < |items| ==> KeysAscend(items[i])
    case Map(entries) =>
      && (forall i :: 0 <= i < |entries| - 1 ==> Precedes(Encode(entries[i].key), Encode(entries[i + 1].key)))
      && forall i :: 0 <= i < |entries| ==> EntryKeysAscend(entries[i])
    case _ => true
  }

  ghost predicate EntryKeysAscend(e: Entry)
    decreases e
  {
    KeysAscend(e.key) && KeysAscend(e.value)
  }

  lemma {:induction false} CanonicalKeysAscend(u: Unicode, v: Value)
    requires IsCanonical(u, v)
    ensures KeysAscend(v)
    decreases v, 1
  {
    hide Encode, LexLess, Precedes, EncodeEntries;
    match v {
      case Array(items) =>
        forall i | 0 <= i < |items| ensures KeysAscend(items[i]) {
          CanonicalKeysAscend(u, items[i]);
        }
      case Map(entries) =>
        var pairs := EncodeEntries(entries);
        forall i | 0 <= i < |entries| - 1 ensures Precedes(Encode(entries[i].key), Encode(entries[i + 1].key)) {
          assert pairs[i] == EncodeEntry(entries[i]) && pairs[i + 1] == EncodeEntry(entries[i + 1]);
          assert LexLess(pairs[i].key, pairs[i + 1].key);
          LexIsPrecedes(pairs[i].key, pairs[i + 1].key);
        }
        forall i | 0 <= i < |entries| ensures EntryKeysAscend(entries[i]) {
          CanonicalEntryKeysAscend(u, entries[i]);
        }
      case _ =>
    }
  }

  lemma {:induction false} CanonicalEntryKeysAscend(u: Unicode, e: Entry)
    requires IsCanonical(u, e.key) && IsCanonical(u, e.value)
    ensures EntryKeysAscend(e)
    decreases e, 0
  {
    CanonicalKeysAscend(u, e.key);
    CanonicalKeysAscend(u, e.value);
  }

  /** Whatever decodes has the keys of every map, at every level, in ascending byte order. */
  lemma {:induction false} DecodedKeysAscend(u: Unicode, bytes: seq<byte>)
    requires Decode(u, bytes).Ok?
    ensures KeysAscend(Decode(u, bytes).value)
  {
    hide Decode, Encode, IsCanonical, KeysAscend, Validate, Canon, NestsWithin;
    BytesAreCanonical(u, bytes);
    CanonicalKeysAscend(u, Decode(u, bytes).value);
  }

  /**
   * The encoder writes every entry of a map once, never a key before one that precedes it; distinct keys
   * therefore stand in ascending byte order, and entries with equal keys in the order they had.
   */
  lemma {:induction false} EncodedKeysAscend(entries: seq<Entry>) returns (written: seq<Keyed<seq<byte>>>)
    requires |entries| < TWO_TO_THE_64
    ensures Encode(Map(entries)) == EncodeArgument(5, |entries|) + Flatten(written)
    ensures multiset(written) == multiset(EncodeEntries(entries))
    ensures forall key :: WithKey(written, key) == WithKey(EncodeEntries(entries), key)
    ensures forall i, j :: 0 <= i < j < |written| ==>
      written[i].key == written[j].key || Precedes(written[i].key, written[j].key)
  {
    hide Encode, EncodeArgument, EncodeEntries, LexLess, Precedes, Sort, Flatten;
    written := Sort(EncodeEntries(entries));
    MapBytes(entries);
    SortSorts(EncodeEntries(entries));
    forall key ensures WithKey(written, key) == WithKey(EncodeEntries(entries), key) {
      SortStable(EncodeEntries(entries), key);
    }
    forall i, j | 0 <= i < j < |written|
      ensures written[i].key == written[j].key || Precedes(written[i].key, written[j].key)
    {
      LexTotal(written[i].key, written[j].key);
      LexIsPrecedes(written[i].key, written[j].key);
    }
  }
}
