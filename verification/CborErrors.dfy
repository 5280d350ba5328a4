/** Which input gets which error: from the decoder, and from the check before encoding. */
module CborErrors {
  import opened Bytes
  import opened Options
  import opened KeyedSort
  import opened CborValues
  import opened CborEncoding
  import opened CborParsing
  import opened CborInverse

  // ---------------------------------------------------------------------------
  // Heads
  // ---------------------------------------------------------------------------

  /** What is wrong with an item can be seen from where it stands and its first byte (section 3 of RFC 8949). */
  lemma {:induction false} FirstByteErrors(u: Unicode, input: seq<byte>, at: nat, depth: nat, limit: nat)
    requires at <= |input|
    ensures var r := ParseItem(u, input, at, depth, limit);
      && (depth > limit ==> r == Failed(DepthLimitExceeded(limit, at)))
      && (depth <= limit && at == |input| ==> r == Failed(Truncated(1, at)))
      && (depth <= limit && at < |input| ==>
            var first := input[at];
            && (first < 0xc0 && first % 32 == 31 ==> r == Failed(IndefiniteLength(at)))
            && (first < 0xc0 && 28 <= first % 32 <= 30 ==>
                  r == Failed(ReservedAdditionalInformation(first % 32, at)))
            && (first < 0xc0 && 24 <= first % 32 <= 27 && |input| - at - 1 < WidthOf(first % 32) ==>
                  r == Failed(Truncated(WidthOf(first % 32) - (|input| - at - 1), at + 1)))
            && (0xc0 <= first < 0xe0 ==> r == Failed(TagNotAllowed(at)))
            && (0xe0 <= first && first != 0xf6 ==> r == Failed(UnsupportedSimpleValue(first - 0xe0, at))))
  {
    hide ParseContent;
  }

  /** A head that spells its argument with more bytes than it needs is refused as such. */
  lemma {:induction false} LongHeadNamed(u: Unicode, input: seq<byte>, at: nat, depth: nat, limit: nat,
      head: seq<byte>, majorType: nat, argument: u64)
    requires majorType <= 5 && depth <= limit && Spells(head, majorType, argument) && At(input, at, head)
    requires head != EncodeArgument(majorType, argument)
    ensures ParseItem(u, input, at, depth, limit) == Failed(NonMinimalArgument(argument, |head| - 1, at))
  {
    hide ParseContent, FromBe, ToBe, EncodeArgument, Pow256;
    assert input[at] == input[at..at + |head|][0] == head[0];
    assert input[at + 1..at + |head|] == input[at..at + |head|][1..] == head[1..];
    HeadSound(input, at);
    assert head[0] % 32 >= 24 by {
      if head[0] % 32 <= 23 {
        ShortHead(head, majorType, argument);
      }
    }
  }

  lemma {:induction false} ShortHead(head: seq<byte>, majorType: nat, argument: u64)
    requires majorType < 8 && Spells(head, majorType, argument) && head[0] % 32 <= 23
    ensures head == EncodeArgument(majorType, argument)
  {
  }

  /** Where the decoder goes on after the encoder's head. */
  lemma {:induction false} AfterHead(u: Unicode, input: seq<byte>, at: nat, depth: nat, limit: nat,
      majorType: nat, argument: u64)
    requires majorType <= 5 && depth <= limit && At(input, at, EncodeArgument(majorType, argument))
    ensures at + |EncodeArgument(majorType, argument)| <= |input|
    ensures ParseItem(u, input, at, depth, limit)
         == ParseContent(u, input, at, at + |EncodeArgument(majorType, argument)|, depth, limit, majorType, argument)
  {
    hide ParseContent, EncodeArgument, ReadArgument;
    HeadComplete(input, at, majorType, argument);
  }

  // ---------------------------------------------------------------------------
  // Content
  // ---------------------------------------------------------------------------

  /** What can be wrong behind a good head, apart from what is inside a container. */
  lemma {:induction false} ContentErrors(u: Unicode, input: seq<byte>, at: nat, depth: nat, limit: nat,
      majorType: nat, argument: u64)
    requires majorType <= 5 && depth <= limit && At(input, at, EncodeArgument(majorType, argument))
    ensures var r := ParseItem(u, input, at, depth, limit);
      var start := at + |EncodeArgument(majorType, argument)|;
      && start <= |input|
      && (majorType == 1 && argument >= 0x8000_0000_0000_0000 ==> r == Failed(NegativeIntegerOutOfRange(at)))
      && (2 <= majorType <= 4 && argument > |input| - start ==> r == Failed(LengthOutOfRange(argument, at)))
      && (majorType == 5 && 2 * argument > |input| - start && |input| < TWO_TO_THE_64 ==>
            r == Failed(LengthOutOfRange(argument, at)))
      && (majorType == 3 && argument <= |input| - start ==>
            var text := input[start..start + argument];
            && (!u.validUtf8(text) ==> r == Failed(InvalidUtf8(at)))
            && (u.validUtf8(text) && !u.isNfc(text) ==> r == Failed(NotNormalizedNfc(at))))
  {
    hide ParseItem, EncodeArgument, ParseItems, ParseEntries;
    AfterHead(u, input, at, depth, limit, majorType, argument);
    Saturates(argument);
  }

  lemma {:induction false} Saturates(argument: u64)
    ensures SaturatingMul(argument, 1) == argument
    ensures SaturatingMul(argument, 2) == if 2 * argument < TWO_TO_THE_64 then 2 * argument else TWO_TO_THE_64 - 1
  {
  }

  // ---------------------------------------------------------------------------
  // Containers
  // ---------------------------------------------------------------------------

  /** Behind good items, an array fails as the first bad one does. */
  lemma {:induction false} BadItemNamed(u: Unicode, input: seq<byte>, at: nat, depth: nat, limit: nat, count: nat,
      items: seq<Value>, error: Error)
    requires |items| < count && At(input, at, EncodeItems(items))
    requires forall i :: 0 <= i < |items| ==> IsCanonical(u, items[i]) && NestsWithin(items[i], limit - depth)
    requires ParseItem(u, input, at + |EncodeItems(items)|, depth, limit) == Failed(error)
    ensures ParseItems(u, input, at, depth, limit, count) == Failed(error)
    decreases items
  {
    hide ParseItem, Encode, IsCanonical, NestsWithin;
    if items != [] {
      AtConcat(input, at, Encode(items[0]), EncodeItems(items[1..]));
      ItemComplete(u, input, at, depth, limit, items[0]);
      BadItemNamed(u, input, at + |Encode(items[0])|, depth, limit, count - 1, items[1..], error);
    }
  }

  /** The first key that does not come after the one before it: equal to it, or preceding it. */
  ghost predicate FirstMisplaced(entries: seq<Entry>, previous: Option<seq<byte>>, i: nat) {
    && i < |entries|
    && (if i == 0 then previous.Some? && !Precedes(previous.value, Encode(entries[0].key))
        else !Precedes(Encode(entries[i - 1].key), Encode(entries[i].key)))
    && (i > 0 && previous.Some? ==> Precedes(previous.value, Encode(entries[0].key)))
    && forall k :: 0 < k < i ==> Precedes(Encode(entries[k - 1].key), Encode(entries[k].key))
  }

  function MisplacedError(before: seq<byte>, key: seq<byte>, offset: nat): Error {
    if before == key then DuplicateMapKey(offset) else UnsortedMapKeys(offset)
  }

  /** One turn of the entry loop, up to where it fails. */
  lemma {:induction false} EntryTurn(u: Unicode, input: seq<byte>, at: nat, depth: nat, limit: nat,
      entries: seq<Entry>, previous: Option<seq<byte>>)
    requires entries != [] && CanonicalEntry(u, entries[0], limit - depth)
    requires At(input, at, Flatten(EncodeEntries(entries)))
    ensures var key := Encode(entries[0].key);
      var after := at + |key| + |Encode(entries[0].value)|;
      && At(input, after, Flatten(EncodeEntries(entries[1..])))
      && (previous.Some? && !Precedes(previous.value, key) ==>
            ParseEntries(u, input, at, depth, limit, |entries|, previous)
              == Failed(MisplacedError(previous.value, key, at)))
      && ((previous.Some? ==> Precedes(previous.value, key)) ==>
            var tail := ParseEntries(u, input, after, depth, limit, |entries| - 1, Some(key));
            tail.Failed? ==> ParseEntries(u, input, at, depth, limit, |entries|, previous) == Failed(tail.error))
  {
    hide ParseItem, Encode, EncodeEntries, IsCanonical, NestsWithin, LexLess, Precedes;
    var e, pairs := entries[0], EncodeEntries(entries);
    assert pairs[1..] == EncodeEntries(entries[1..]);
    AtConcat(input, at, Encode(e.key) + Encode(e.value), Flatten(pairs[1..]));
    AtConcat(input, at, Encode(e.key), Encode(e.value));
    ItemComplete(u, input, at, depth, limit, e.key);
    ItemComplete(u, input, at + |Encode(e.key)|, depth, limit, e.value);
    if previous.Some? {
      LexIsPrecedes(previous.value, Encode(e.key));
    }
  }

  lemma {:induction false} MisplacedEntries(u: Unicode, input: seq<byte>, at: nat, depth: nat, limit: nat,
      entries: seq<Entry>, previous: Option<seq<byte>>, i: nat)
    requires forall k :: 0 <= k < |entries| ==> CanonicalEntry(u, entries[k], limit - depth)
    requires FirstMisplaced(entries, previous, i) && At(input, at, Flatten(EncodeEntries(entries)))
    ensures ParseEntries(u, input, at, depth, limit, |entries|, previous)
         == Failed(MisplacedError(if i == 0 then previous.value else Encode(entries[i - 1].key),
                                  Encode(entries[i].key), at + |Flatten(EncodeEntries(entries[..i]))|))
    decreases i
  {
    hide ParseEntries, Encode, EncodeEntries, Flatten, CanonicalEntry, Precedes, At, MisplacedError;
    var e := entries[0];
    EntryTurn(u, input, at, depth, limit, entries, previous);
    if i == 0 {
      NoBytes();
      assert entries[..0] == [];
    } else {
      var after := at + |Encode(e.key)| + |Encode(e.value)|;
      MisplacedEntries(u, input, after, depth, limit, entries[1..], Some(Encode(e.key)), i - 1);
      FirstPairBytes(entries, i);
    }
  }

  lemma {:induction false} FirstPairBytes(entries: seq<Entry>, i: nat)
    requires 0 < i <= |entries|
    ensures |Flatten(EncodeEntries(entries[..i]))|
         == |Encode(entries[0].key)| + |Encode(entries[0].value)| + |Flatten(EncodeEntries(entries[1..][..i - 1]))|
  {
    hide Encode;
    assert entries[..i][1..] == entries[1..][..i - 1] && entries[..i][0] == entries[0];
    assert EncodeEntries(entries[..i])[1..] == EncodeEntries(entries[..i][1..]);
  }

  /**
   * Good entries written in any order that is not ascending: the decoder refuses the first key out of place, at its
   * offset, as a duplicate if it equals the key before it and as unsorted if it precedes it.
   */
  lemma {:induction false} MisplacedKeyNamed(u: Unicode, entries: seq<Entry>, i: nat)
    requires |entries| < TWO_TO_THE_64
    requires forall k :: 0 <= k < |entries| ==> CanonicalEntry(u, entries[k], MAXIMUM_NESTING_DEPTH - 1)
    requires 0 < i < |entries| && !Precedes(Encode(entries[i - 1].key), Encode(entries[i].key))
    requires forall k :: 0 < k < i ==> Precedes(Encode(entries[k - 1].key), Encode(entries[k].key))
    ensures var head := EncodeArgument(5, |entries|);
      var offset := |head| + |Flatten(EncodeEntries(entries[..i]))|;
      Decode(u, head + Flatten(EncodeEntries(entries)))
        == Err(if Encode(entries[i - 1].key) == Encode(entries[i].key) then DuplicateMapKey(offset)
               else UnsortedMapKeys(offset))
  {
    hide ParseItem, Encode, EncodeEntries, EncodeArgument, IsCanonical, NestsWithin, Precedes, ParseEntries, Flatten;
    var head, body := EncodeArgument(5, |entries|), Flatten(EncodeEntries(entries));
    var input := head + body;
    assert At(input, 0, head + body);
    AtConcat(input, 0, head, body);
    AfterHead(u, input, 0, 0, MAXIMUM_NESTING_DEPTH, 5, |entries|);
    EntriesLength(entries);
    Saturates(|entries|);
    MisplacedEntries(u, input, |head|, 1, MAXIMUM_NESTING_DEPTH, entries, None, i);
  }

  lemma {:induction false} EntriesLength(entries: seq<Entry>)
    ensures |Flatten(EncodeEntries(entries))| >= 2 * |entries|
  {
    hide Encode;
    FlattenLength(EncodeEntries(entries));
  }

  // ---------------------------------------------------------------------------
  // Before encoding
  // ---------------------------------------------------------------------------

  /** Everything that is wrong with a value, in the order a full traversal meets it. */
  ghost function Obstacles(u: Unicode, v: Value): seq<Error>
    decreases v, 0
  {
    match v
    case Text(utf8) => if u.isNfc(utf8) then [] else [UnnormalizedTextInValue]
    case Array(items) => ItemObstacles(u, items)
    case Map(entries) =>
      EntryObstacles(u, entries)
      + if exists i, j :: 0 <= i < j < |entries| && Encode(entries[i].key) == Encode(entries[j].key)
        then [DuplicateKeyInValue] else []
    case _ => []
  }

  ghost function ItemObstacles(u: Unicode, items: seq<Value>): seq<Error>
    decreases items
  {
    if items == [] then [] else Obstacles(u, items[0]) + ItemObstacles(u, items[1..])
  }

  ghost function EntryObstacles(u: Unicode, entries: seq<Entry>): seq<Error>
    decreases entries
  {
    if entries == [] then [] else ObstaclesOf(u, entries[0]) + EntryObstacles(u, entries[1..])
  }

  ghost function ObstaclesOf(u: Unicode, e: Entry): seq<Error>
    decreases e
  {
    Obstacles(u, e.key) + Obstacles(u, e.value)
  }

  function FirstOf(errors: seq<Error>): Result<()> {
    if errors == [] then Ok(()) else Err(errors[0])
  }

  /** The check reports the first of all obstacles, and passes only when there is none. */
  lemma {:induction false} FirstObstacleNamed(u: Unicode, v: Value)
    ensures Validate(u, v) == FirstOf(Obstacles(u, v))
    decreases v, 1
  {
    hide Encode, EncodeKeys, Sort, HasNeighbours;
    match v {
      case Array(items) =>
        FirstItemObstacle(u, items);
      case Map(entries) =>
        FirstEntryObstacle(u, entries);
        NeighboursAreDuplicates(EncodeKeys(entries));
        RepeatedKeys(entries);
      case _ =>
    }
  }

  lemma {:induction false} RepeatedKeys(entries: seq<Entry>)
    ensures DistinctKeys(EncodeKeys(entries)) <==>
      !exists i, j :: 0 <= i < j < |entries| && Encode(entries[i].key) == Encode(entries[j].key)
  {
    hide Encode;
    var keys := EncodeKeys(entries);
    if i, j :| 0 <= i < j < |entries| && Encode(entries[i].key) == Encode(entries[j].key) {
      assert keys[i].key == keys[j].key;
    }
  }

  lemma {:induction false} FirstItemObstacle(u: Unicode, items: seq<Value>)
    ensures ValidateItems(u, items) == FirstOf(ItemObstacles(u, items))
    decreases items, 1
  {
    hide Validate, Obstacles;
    if items != [] {
      FirstObstacleNamed(u, items[0]);
      FirstItemObstacle(u, items[1..]);
    }
  }

  lemma {:induction false} FirstEntryObstacle(u: Unicode, entries: seq<Entry>)
    ensures ValidateEntries(u, entries) == FirstOf(EntryObstacles(u, entries))
    decreases entries, 1
  {
    hide Validate, Obstacles;
    if entries != [] {
      FirstObstacleOf(u, entries[0]);
      FirstEntryObstacle(u, entries[1..]);
    }
  }

  lemma {:induction false} FirstObstacleOf(u: Unicode, e: Entry)
    ensures ValidateEntry(u, e) == FirstOf(ObstaclesOf(u, e))
    decreases e, 0
  {
    hide Validate, Obstacles;
    FirstObstacleNamed(u, e.key);
    FirstObstacleNamed(u, e.value);
  }
}
