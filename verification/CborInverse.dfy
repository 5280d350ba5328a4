/** The decoder and the encoder are inverse to each other: the two inductions behind the theorems. */
module CborInverse {
  import opened Bytes
  import opened Options
  import opened KeyedSort
  import opened CborValues
  import opened CborEncoding
  import opened CborParsing

  // ---------------------------------------------------------------------------
  // Heads
  // ---------------------------------------------------------------------------

  lemma {:induction false} WideSound(input: seq<byte>, at: nat, width: nat, least: nat, headOffset: nat)
    requires at <= |input| && (width == 1 || width == 2 || width == 4 || width == 8)
    ensures var r := ReadWide(input, at, width, least, headOffset);
      r.Parsed? ==> input[at..r.next] == ToBe(r.value, width) && r.value < Pow256(width)
  {
    if |input| - at >= width {
      BeDigitsRoundTrip(input[at..at + width]);
      FromBeBound(input[at..at + width]);
    }
  }

  /** An accepted head is the encoder's head for the argument it yields. */
  lemma {:induction false} HeadSound(input: seq<byte>, at: nat)
    requires at < |input|
    ensures var r := ReadArgument(input, at + 1, input[at] % 32, at);
      r.Parsed? ==> input[at..r.next] == EncodeArgument(input[at] / 32, r.value)
  {
    hide ToBe, FromBe, Pow256;
    var additional := input[at] % 32;
    var r := ReadArgument(input, at + 1, additional, at);
    if r.Parsed? {
      Pow256Widths();
      assert input[at] == 32 * (input[at] / 32) + additional;
      assert input[at..r.next] == [input[at]] + input[at + 1..r.next];
      if additional == 24 {
        WideSound(input, at + 1, 1, 24, at);
      } else if additional == 25 {
        WideSound(input, at + 1, 2, 0x100, at);
      } else if additional == 26 {
        WideSound(input, at + 1, 4, 0x1_0000, at);
      } else if additional == 27 {
        WideSound(input, at + 1, 8, 0x1_0000_0000, at);
      }
    }
  }

  /** The encoder's head is accepted and yields its argument. */
  lemma {:induction false} HeadComplete(input: seq<byte>, at: nat, majorType: nat, argument: u64)
    requires majorType < 8 && At(input, at, EncodeArgument(majorType, argument))
    ensures at < |input| && input[at] / 32 == majorType
    ensures ReadArgument(input, at + 1, input[at] % 32, at)
         == Parsed(argument, at + |EncodeArgument(majorType, argument)|)
  {
    hide ToBe, FromBe, Pow256;
    var head := EncodeArgument(majorType, argument);
    var first, digits := head[0], head[1..];
    assert input[at] == input[at..at + |head|][0] == first;
    assert input[at + 1..at + |head|] == input[at..at + |head|][1..] == digits;
    Pow256Widths();
    if argument >= 24 {
      BeNumberRoundTrip(argument, |digits|);
    }
  }

  /** A head, minimal or not, that spells `argument` (section 3 of RFC 8949). */
  predicate Spells(head: seq<byte>, majorType: nat, argument: u64) {
    && |head| >= 1
    && head[0] / 32 == majorType
    && var additional := head[0] % 32;
       if additional <= 23 then additional == argument && |head| == 1
       else additional <= 27 && |head| == 1 + WidthOf(additional) && FromBe(head[1..]) == argument
  }

  function WidthOf(additional: nat): nat {
    if additional == 24 then 1 else if additional == 25 then 2 else if additional == 26 then 4 else 8
  }

  lemma {:induction false} HeadSpells(majorType: nat, argument: u64)
    requires majorType < 8
    ensures Spells(EncodeArgument(majorType, argument), majorType, argument)
  {
    hide ToBe, FromBe, Pow256;
    var head := EncodeArgument(majorType, argument);
    Pow256Widths();
    if argument >= 24 {
      assert head[1..] == ToBe(argument, |head| - 1);
      BeNumberRoundTrip(argument, |head| - 1);
    }
  }

  lemma {:induction false} NoHeadShorter(head: seq<byte>, majorType: nat, argument: u64)
    requires majorType < 8 && Spells(head, majorType, argument)
    ensures |EncodeArgument(majorType, argument)| <= |head|
  {
    hide ToBe, FromBe;
    var digits := head[1..];
    if head[0] % 32 >= 24 {
      assert argument < Pow256(|digits|) by {
        FromBeBound(digits);
      }
      Pow256Widths();
    }
  }

  /** The encoder's head is the one shortest head that spells an argument. */
  lemma {:induction false} HeadShortest(majorType: nat, argument: u64)
    requires majorType < 8
    ensures var shortest := EncodeArgument(majorType, argument);
      && Spells(shortest, majorType, argument)
      && forall head :: Spells(head, majorType, argument) && |head| <= |shortest| ==> head == shortest
  {
    hide EncodeArgument, Spells;
    var shortest := EncodeArgument(majorType, argument);
    HeadSpells(majorType, argument);
    forall head | Spells(head, majorType, argument) && |head| <= |shortest| ensures head == shortest {
      NoHeadShorter(head, majorType, argument);
      SameLengthSameHead(head, shortest, majorType, argument);
    }
  }

  lemma {:induction false} SameLengthSameHead(a: seq<byte>, b: seq<byte>, majorType: nat, argument: u64)
    requires Spells(a, majorType, argument) && Spells(b, majorType, argument) && |a| == |b|
    ensures a == b
  {
    hide FromBe, ToBe;
    assert a[0] == b[0];
    if a[0] % 32 >= 24 {
      BeDigitsRoundTrip(a[1..]);
      BeDigitsRoundTrip(b[1..]);
    }
    assert a == [a[0]] + a[1..] && b == [b[0]] + b[1..];
  }

  /** Of all the heads that spell an argument, the decoder accepts exactly the encoder's. */
  lemma {:induction false} HeadUnique(head: seq<byte>, majorType: nat, argument: u64)
    requires majorType < 8 && Spells(head, majorType, argument)
    ensures ReadArgument(head, 1, head[0] % 32, 0).Parsed? <==> head == EncodeArgument(majorType, argument)
  {
    var r := ReadArgument(head, 1, head[0] % 32, 0);
    assert head[1..|head|] == head[1..] && head[0..|head|] == head;
    if r.Parsed? {
      HeadSound(head, 0);
    }
    if head == EncodeArgument(majorType, argument) {
      HeadComplete(head, 0, majorType, argument);
    }
  }

  // ---------------------------------------------------------------------------
  // What was parsed encodes to what was read
  // ---------------------------------------------------------------------------

  ghost predicate SoundValue(u: Unicode, input: seq<byte>, at: nat, next: nat, v: Value, levels: int) {
    && at <= next <= |input|
    && IsCanonical(u, v)
    && NestsWithin(v, levels)
    && input[at..next] == Encode(v)
  }

  lemma {:induction false} ItemSound(u: Unicode, input: seq<byte>, at: nat, depth: nat, limit: nat)
    requires at <= |input|
    ensures var r := ParseItem(u, input, at, depth, limit);
      r.Parsed? ==> SoundValue(u, input, at, r.next, r.value, limit - depth)
    decreases Levels(depth, limit), 0, 0
  {
    var r := ParseItem(u, input, at, depth, limit);
    if r.Parsed? && input[at] / 32 <= 5 {
      HeadSound(input, at);
      var head := ReadArgument(input, at + 1, input[at] % 32, at);
      ContentSound(u, input, at, head.next, depth, limit, input[at] / 32, head.value);
    }
  }

  lemma {:induction false} ContentSound(u: Unicode, input: seq<byte>, at: nat, start: nat, depth: nat, limit: nat,
                                        majorType: nat, argument: u64)
    requires at < start <= |input| && depth <= limit && majorType <= 5
    requires input[at..start] == EncodeArgument(majorType, argument)
    ensures var r := ParseContent(u, input, at, start, depth, limit, majorType, argument);
      r.Parsed? ==> SoundValue(u, input, at, r.next, r.value, limit - depth)
    decreases limit - depth, 2, 0
  {
    hide Encode, IsCanonical, NestsWithin, ParseItems, ParseEntries, EncodeArgument;
    var r := ParseContent(u, input, at, start, depth, limit, majorType, argument);
    if r.Parsed? {
      Slices(input, at, start, r.next);
      if majorType == 4 {
        var items := r.value.items;
        ItemsSound(u, input, start, depth + 1, limit, argument);
        ArrayBytes(items);
        ArrayParts(u, items, limit - depth);
      } else if majorType == 5 {
        var entries := r.value.entries;
        EntriesSound(u, input, start, depth + 1, limit, argument, None);
        CanonicalMap(u, entries, limit - depth);
      } else {
        LeafSound(u, input, at, start, depth, limit, majorType, argument);
      }
    }
  }

  lemma {:induction false} LeafSound(u: Unicode, input: seq<byte>, at: nat, start: nat, depth: nat, limit: nat,
                  majorType: nat, argument: u64)
    requires at < start <= |input| && depth <= limit && majorType <= 3
    requires input[at..start] == EncodeArgument(majorType, argument)
    ensures var r := ParseContent(u, input, at, start, depth, limit, majorType, argument);
      r.Parsed? ==> SoundValue(u, input, at, r.next, r.value, limit - depth)
  {
    hide ParseItems, ParseEntries, EncodeArgument;
    var r := ParseContent(u, input, at, start, depth, limit, majorType, argument);
    if r.Parsed? {
      Slices(input, at, start, r.next);
    }
  }

  /** Canonical entries in ascending key order make a canonical map, written in that order. */
  lemma {:induction false} CanonicalMap(u: Unicode, entries: seq<Entry>, levels: int)
    requires |entries| < TWO_TO_THE_64 && levels >= 0
    requires forall i :: 0 <= i < |entries| ==> CanonicalEntry(u, entries[i], levels - 1)
    requires StrictlyAscending(EncodeEntries(entries))
    ensures IsCanonical(u, Map(entries)) && NestsWithin(Map(entries), levels)
    ensures Encode(Map(entries)) == EncodeArgument(5, |entries|) + Flatten(EncodeEntries(entries))
  {
    hide Encode, EncodeArgument, LexLess, Sort, StrictlyAscending, EncodeEntries, Flatten;
    SortFixesStrict(EncodeEntries(entries));
    assert forall i :: 0 <= i < |entries| ==> EntryNestsWithin(entries[i], levels - 1);
    MapBytes(entries);
  }

  lemma {:induction false} ItemsSound(u: Unicode, input: seq<byte>, at: nat, depth: nat, limit: nat, count: nat)
    requires at <= |input|
    ensures var r := ParseItems(u, input, at, depth, limit, count);
      r.Parsed? ==>
        && (forall i :: 0 <= i < count ==> IsCanonical(u, r.value[i]) && NestsWithin(r.value[i], limit - depth))
        && input[at..r.next] == EncodeItems(r.value)
    decreases Levels(depth, limit), 1, count
  {
    hide ParseItem, Encode, IsCanonical, NestsWithin;
    var r := ParseItems(u, input, at, depth, limit, count);
    if r.Parsed? && count > 0 {
      ItemSound(u, input, at, depth, limit);
      var middle := ParseItem(u, input, at, depth, limit).next;
      ItemsSound(u, input, middle, depth, limit, count - 1);
      assert input[at..r.next] == input[at..middle] + input[middle..r.next];
      assert r.value[1..] == ParseItems(u, input, middle, depth, limit, count - 1).value;
    }
  }

  lemma {:induction false} Slices(input: seq<byte>, from: nat, middle: nat, to: nat)
    requires from <= middle <= to <= |input|
    ensures input[from..to] == input[from..middle] + input[middle..to]
  {
  }

  /** Every key comes after `previous`. */
  ghost predicate Follows(previous: Option<seq<byte>>, pairs: seq<Keyed<seq<byte>>>) {
    previous.Some? ==> forall i :: 0 <= i < |pairs| ==> LexLess(previous.value, pairs[i].key)
  }

  lemma {:induction false} FollowsCons(previous: Option<seq<byte>>, first: Keyed<seq<byte>>,
      rest: seq<Keyed<seq<byte>>>)
    requires previous.Some? ==> LexLess(previous.value, first.key)
    requires StrictlyAscending(rest) && Follows(Some(first.key), rest)
    ensures StrictlyAscending([first] + rest) && Follows(previous, [first] + rest)
  {
    if previous.Some? {
      forall i | 0 <= i < |rest| ensures LexLess(previous.value, rest[i].key) {
        LexTransitive(previous.value, first.key, rest[i].key);
      }
    }
  }

  ghost predicate SoundEntries(u: Unicode, input: seq<byte>, at: nat, next: nat, previous: Option<seq<byte>>,
                               entries: seq<Entry>, levels: int) {
    && at <= next <= |input|
    && (forall i :: 0 <= i < |entries| ==> CanonicalEntry(u, entries[i], levels))
    && StrictlyAscending(EncodeEntries(entries))
    && Follows(previous, EncodeEntries(entries))
    && input[at..next] == Flatten(EncodeEntries(entries))
  }

  lemma {:induction false} EntriesSound(u: Unicode, input: seq<byte>, at: nat, depth: nat, limit: nat, count: nat,
                                        previous: Option<seq<byte>>)
    requires at <= |input|
    ensures var r := ParseEntries(u, input, at, depth, limit, count, previous);
      r.Parsed? ==> SoundEntries(u, input, at, r.next, previous, r.value, limit - depth)
    decreases Levels(depth, limit), 1, count
  {
    hide ParseItem, ParseEntries, SoundValue, SoundEntries;
    var r := ParseEntries(u, input, at, depth, limit, count, previous);
    if count == 0 {
      NoEntries(u, input, at, depth, limit, previous);
    } else if r.Parsed? {
      var e, middle, after := EntriesTurn(u, input, at, depth, limit, count, previous);
      var previous' := Some(input[at..middle]);
      ItemSound(u, input, at, depth, limit);
      ItemSound(u, input, middle, depth, limit);
      EntriesSound(u, input, after, depth, limit, count - 1, previous');
      var tail := ParseEntries(u, input, after, depth, limit, count - 1, previous');
      EntrySound(u, input, at, middle, after, tail.next, previous, e, tail.value, limit - depth);
    }
  }

  lemma {:induction false} NoEntries(u: Unicode, input: seq<byte>, at: nat, depth: nat, limit: nat,
                                     previous: Option<seq<byte>>)
    requires at <= |input|
    ensures ParseEntries(u, input, at, depth, limit, 0, previous) == Parsed([], at)
    ensures SoundEntries(u, input, at, at, previous, [], limit - depth)
  {
  }

  /** The first turn of an entry loop that succeeds. */
  lemma {:induction false} EntriesTurn(u: Unicode, input: seq<byte>, at: nat, depth: nat, limit: nat, count: nat,
                                       previous: Option<seq<byte>>)
    returns (e: Entry, middle: nat, after: nat)
    requires at <= |input| && count > 0 && ParseEntries(u, input, at, depth, limit, count, previous).Parsed?
    ensures at <= middle <= after <= |input|
    ensures ParseItem(u, input, at, depth, limit) == Parsed(e.key, middle)
    ensures KeyOrder(previous, input[at..middle], at).None?
    ensures ParseItem(u, input, middle, depth, limit) == Parsed(e.value, after)
    ensures var tail := ParseEntries(u, input, after, depth, limit, count - 1, Some(input[at..middle]));
      && tail.Parsed?
      && ParseEntries(u, input, at, depth, limit, count, previous) == Parsed([e] + tail.value, tail.next)
  {
    hide ParseItem;
    var key := ParseItem(u, input, at, depth, limit);
    var value := ParseItem(u, input, key.next, depth, limit);
    e, middle, after := Entry(key.value, value.value), key.next, value.next;
  }

  lemma {:induction false} EntrySound(u: Unicode, input: seq<byte>, at: nat, middle: nat, after: nat, next: nat,
                   previous: Option<seq<byte>>, e: Entry, rest: seq<Entry>, levels: int)
    requires SoundValue(u, input, at, middle, e.key, levels)
    requires SoundValue(u, input, middle, after, e.value, levels)
    requires KeyOrder(previous, input[at..middle], at).None?
    requires SoundEntries(u, input, after, next, Some(input[at..middle]), rest, levels)
    ensures SoundEntries(u, input, at, next, previous, [e] + rest, levels)
  {
    hide Encode, IsCanonical, NestsWithin, LexLess, StrictlyAscending;
    var first, pairs := EncodeEntry(e), EncodeEntries(rest);
    FollowsCons(previous, first, pairs);
    assert EncodeEntries([e] + rest) == [first] + pairs;
    assert Flatten([first] + pairs) == first.key + first.item + Flatten(pairs);
    Slices(input, at, middle, after);
    Slices(input, at, after, next);
  }

  // ---------------------------------------------------------------------------
  // A canonical value is parsed back wherever its encoding stands
  // ---------------------------------------------------------------------------

  lemma {:induction false} ItemComplete(u: Unicode, input: seq<byte>, at: nat, depth: nat, limit: nat, v: Value)
    requires IsCanonical(u, v) && NestsWithin(v, limit - depth)
    requires At(input, at, Encode(v))
    ensures ParseItem(u, input, at, depth, limit) == Parsed(v, at + |Encode(v)|)
    decreases v, 0
  {
    hide Encode, ParseItem, EncodeArgument, IsCanonical, NestsWithin, StrictlyAscending, ParseItems, ParseEntries;
    DepthLeft(v, limit - depth);
    match v {
      case Array(items) =>
        ArrayParts(u, items, limit - depth);
        var head := EncodeArgument(4, |items|);
        ArrayBytes(items);
        AtConcat(input, at, head, EncodeItems(items));
        ItemsComplete(u, input, at + |head|, depth + 1, limit, items);
        ArrayAccepted(u, input, at, depth, limit, items);
      case Map(entries) =>
        MapParts(u, entries, limit - depth);
        var head, pairs := EncodeArgument(5, |entries|), EncodeEntries(entries);
        SortFixesStrict(pairs);
        AtConcat(input, at, head, Flatten(pairs));
        EntriesComplete(u, input, at + |head|, depth + 1, limit, entries, None);
        MapAccepted(u, input, at, depth, limit, entries);
      case _ =>
        LeafComplete(u, input, at, depth, limit, v);
    }
  }

  lemma {:induction false} DepthLeft(v: Value, levels: int)
    requires NestsWithin(v, levels)
    ensures levels >= 0
  {
  }

  lemma {:induction false} LeafComplete(u: Unicode, input: seq<byte>, at: nat, depth: nat, limit: nat, v: Value)
    requires !v.Array? && !v.Map? && IsCanonical(u, v) && depth <= limit
    requires At(input, at, Encode(v))
    ensures ParseItem(u, input, at, depth, limit) == Parsed(v, at + |Encode(v)|)
  {
    hide ParseItems, ParseEntries, EncodeItems, EncodeEntries, ReadArgument, EncodeArgument;
    match v {
      case Uint(unsigned) =>
        HeadComplete(input, at, 0, unsigned);
      case NegInt(signed) =>
        HeadComplete(input, at, 1, -1 - signed);
      case Bytes(bytes) =>
        AtConcat(input, at, EncodeArgument(2, |bytes|), bytes);
        HeadComplete(input, at, 2, |bytes|);
      case Text(utf8) =>
        AtConcat(input, at, EncodeArgument(3, |utf8|), utf8);
        HeadComplete(input, at, 3, |utf8|);
      case Null =>
        assert input[at] == input[at..at + 1][0];
    }
  }

  lemma {:induction false} ArrayBytes(items: seq<Value>)
    requires |items| < TWO_TO_THE_64
    ensures Encode(Array(items)) == EncodeArgument(4, |items|) + EncodeItems(items)
  {
    hide EncodeArgument, EncodeItems, EncodeEntries, Sort, Flatten;
  }

  lemma {:induction false} MapBytes(entries: seq<Entry>)
    requires |entries| < TWO_TO_THE_64
    ensures Encode(Map(entries)) == EncodeArgument(5, |entries|) + Flatten(Sort(EncodeEntries(entries)))
  {
    hide EncodeArgument, EncodeItems, EncodeEntries, Sort, Flatten;
  }

  lemma {:induction false} ArrayParts(u: Unicode, items: seq<Value>, levels: int)
    ensures IsCanonical(u, Array(items)) && NestsWithin(Array(items), levels) <==>
      && |items| < TWO_TO_THE_64 && levels >= 0
      && forall i :: 0 <= i < |items| ==> IsCanonical(u, items[i]) && NestsWithin(items[i], levels - 1)
  {
  }

  lemma {:induction false} MapParts(u: Unicode, entries: seq<Entry>, levels: int)
    requires IsCanonical(u, Map(entries)) && NestsWithin(Map(entries), levels)
    ensures forall i :: 0 <= i < |entries| ==> CanonicalEntry(u, entries[i], levels - 1)
    ensures |entries| < TWO_TO_THE_64 && StrictlyAscending(EncodeEntries(entries))
    ensures Encode(Map(entries)) == EncodeArgument(5, |entries|) + Flatten(EncodeEntries(entries))
  {
    hide Encode, EncodeArgument, LexLess, Sort, StrictlyAscending, EncodeEntries, Flatten;
    forall i | 0 <= i < |entries| ensures CanonicalEntry(u, entries[i], levels - 1) {
      assert EntryNestsWithin(entries[i], levels - 1);
    }
    SortFixesStrict(EncodeEntries(entries));
    MapBytes(entries);
  }

  lemma {:induction false} ArrayAccepted(u: Unicode, input: seq<byte>, at: nat, depth: nat, limit: nat,
      items: seq<Value>)
    requires |items| < TWO_TO_THE_64 && depth <= limit
    requires At(input, at, EncodeArgument(4, |items|))
    requires At(input, at + |EncodeArgument(4, |items|)|, EncodeItems(items))
    ensures ParseItem(u, input, at, depth, limit)
         == match ParseItems(u, input, at + |EncodeArgument(4, |items|)|, depth + 1, limit, |items|)
            case Failed(error) => Failed(error)
            case Parsed(parsed, next) => Parsed(Array(parsed), next)
  {
    hide ParseItems, EncodeArgument, ReadArgument, EncodeItems;
    HeadComplete(input, at, 4, |items|);
  }

  lemma {:induction false} MapAccepted(u: Unicode, input: seq<byte>, at: nat, depth: nat, limit: nat,
      entries: seq<Entry>)
    requires |entries| < TWO_TO_THE_64 && depth <= limit
    requires At(input, at, EncodeArgument(5, |entries|))
    requires At(input, at + |EncodeArgument(5, |entries|)|, Flatten(Sort(EncodeEntries(entries))))
    ensures ParseItem(u, input, at, depth, limit)
         == match ParseEntries(u, input, at + |EncodeArgument(5, |entries|)|, depth + 1, limit, |entries|, None)
            case Failed(error) => Failed(error)
            case Parsed(parsed, next) => Parsed(Map(parsed), next)
  {
    hide ParseEntries, EncodeArgument, ReadArgument, Encode, Sort;
    HeadComplete(input, at, 5, |entries|);
    SortedLength(entries);
  }

  lemma {:induction false} SortedLength(entries: seq<Entry>)
    ensures |Flatten(Sort(EncodeEntries(entries)))| >= 2 * |entries|
  {
    var pairs := EncodeEntries(entries);
    SortMembers(pairs);
    forall i | 0 <= i < |pairs| ensures |Sort(pairs)[i].key| >= 1 && |Sort(pairs)[i].item| >= 1 {
      assert Sort(pairs)[i] in Sort(pairs);
    }
    FlattenLength(Sort(pairs));
  }

  lemma {:induction false} ItemsComplete(u: Unicode, input: seq<byte>, at: nat, depth: nat, limit: nat,
      items: seq<Value>)
    requires forall i :: 0 <= i < |items| ==> IsCanonical(u, items[i]) && NestsWithin(items[i], limit - depth)
    requires At(input, at, EncodeItems(items))
    ensures ParseItems(u, input, at, depth, limit, |items|) == Parsed(items, at + |EncodeItems(items)|)
    decreases items
  {
    hide ParseItem, Encode, IsCanonical, NestsWithin;
    if items != [] {
      AtConcat(input, at, Encode(items[0]), EncodeItems(items[1..]));
      ItemComplete(u, input, at, depth, limit, items[0]);
      ItemsComplete(u, input, at + |Encode(items[0])|, depth, limit, items[1..]);
      assert items == [items[0]] + items[1..];
    }
  }

  /** Each encoded entry takes at least two bytes. */
  lemma {:induction false} FlattenLength(pairs: seq<Keyed<seq<byte>>>)
    requires forall i :: 0 <= i < |pairs| ==> |pairs[i].key| >= 1 && |pairs[i].item| >= 1
    ensures |Flatten(pairs)| >= 2 * |pairs|
  {
    if pairs != [] {
      FlattenLength(pairs[1..]);
    }
  }

  lemma {:induction false} EntriesComplete(u: Unicode, input: seq<byte>, at: nat, depth: nat, limit: nat,
                                           entries: seq<Entry>, previous: Option<seq<byte>>)
    requires forall i :: 0 <= i < |entries| ==> CanonicalEntry(u, entries[i], limit - depth)
    requires StrictlyAscending(EncodeEntries(entries)) && Follows(previous, EncodeEntries(entries))
    requires At(input, at, Flatten(EncodeEntries(entries)))
    ensures ParseEntries(u, input, at, depth, limit, |entries|, previous)
         == Parsed(entries, at + |Flatten(EncodeEntries(entries))|)
    decreases entries
  {
    hide ParseItem, ParseEntries, Encode, EncodeEntries, IsCanonical, NestsWithin, LexLess, StrictlyAscending, Follows;
    if entries == [] {
      NoEntries(u, input, at, depth, limit, previous);
      NoBytes();
    } else {
      var e, pairs := entries[0], EncodeEntries(entries);
      var middle := at + |Encode(e.key)|;
      var after := middle + |Encode(e.value)|;
      assert entries decreases to e;
      assert pairs[1..] == EncodeEntries(entries[1..]);
      FollowsUncons(previous, pairs);
      AtConcat(input, at, Encode(e.key) + Encode(e.value), Flatten(pairs[1..]));
      AtConcat(input, at, Encode(e.key), Encode(e.value));
      ItemComplete(u, input, at, depth, limit, e.key);
      ItemComplete(u, input, middle, depth, limit, e.value);
      EntriesComplete(u, input, after, depth, limit, entries[1..], Some(Encode(e.key)));
      EntriesStep(u, input, at, depth, limit, |entries|, previous, e, middle, after);
      assert entries == [e] + entries[1..];
    }
  }

  lemma {:induction false} NoBytes()
    ensures Flatten(EncodeEntries([])) == []
  {
  }

  lemma {:induction false} FollowsUncons(previous: Option<seq<byte>>, pairs: seq<Keyed<seq<byte>>>)
    requires pairs != [] && StrictlyAscending(pairs) && Follows(previous, pairs)
    ensures previous.Some? ==> LexLess(previous.value, pairs[0].key)
    ensures StrictlyAscending(pairs[1..]) && Follows(Some(pairs[0].key), pairs[1..])
  {
    hide LexLess;
  }

  /** One turn of the entry loop. */
  lemma {:induction false} EntriesStep(u: Unicode, input: seq<byte>, at: nat, depth: nat, limit: nat, count: nat,
                    previous: Option<seq<byte>>, e: Entry, middle: nat, after: nat)
    requires at <= middle <= after <= |input| && count > 0
    requires ParseItem(u, input, at, depth, limit) == Parsed(e.key, middle)
    requires KeyOrder(previous, input[at..middle], at).None?
    requires ParseItem(u, input, middle, depth, limit) == Parsed(e.value, after)
    ensures ParseEntries(u, input, at, depth, limit, count, previous)
         == Prepend([e], ParseEntries(u, input, after, depth, limit, count - 1, Some(input[at..middle])))
  {
    hide ParseItem;
  }
}
