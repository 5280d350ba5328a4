/** What the encoder writes, which values it accepts, and the canonical form of a value. */
module CborEncoding {
  import opened Bytes
  import opened KeyedSort
  import opened CborValues

  /** An item head: major type in the top three bits, then the shortest argument form. */
  function EncodeArgument(majorType: nat, argument: u64): (head: seq<byte>)
    requires majorType < 8
    ensures 1 <= |head| <= 9
  {
    var high := 32 * majorType;
    if argument < 24 then [high + argument]
    else if argument <= 0xff then [high + 24] + ToBe(argument, 1)
    else if argument <= 0xffff then [high + 25] + ToBe(argument, 2)
    else if argument <= 0xffff_ffff then [high + 26] + ToBe(argument, 4)
    else [high + 27] + ToBe(argument, 8)
  }

  function Encode(v: Value): (encoded: seq<byte>)
    ensures |encoded| >= 1
    decreases v, 0
  {
    match v
    case Uint(unsigned) => EncodeArgument(0, unsigned)
    case NegInt(signed) => if signed < 0 then EncodeArgument(1, -1 - signed) else EncodeArgument(0, signed)
    case Bytes(bytes) => EncodeArgument(2, AsU64(|bytes|)) + bytes
    case Text(utf8) => EncodeArgument(3, AsU64(|utf8|)) + utf8
    case Array(items) => EncodeArgument(4, AsU64(|items|)) + EncodeItems(items)
    case Map(entries) => EncodeArgument(5, AsU64(|entries|)) + Flatten(Sort(EncodeEntries(entries)))
    case Null => [0xf6]
  }

  function EncodeItems(items: seq<Value>): (encoded: seq<byte>)
    ensures |encoded| >= |items|
    decreases items
  {
    if items == [] then [] else Encode(items[0]) + EncodeItems(items[1..])
  }

  /** The encoded entries in input order, each keyed by its encoded key. */
  function EncodeEntries(entries: seq<Entry>): (encoded: seq<Keyed<seq<byte>>>)
    ensures |encoded| == |entries|
    ensures forall i :: 0 <= i < |entries| ==> encoded[i] == EncodeEntry(entries[i])
    decreases entries
  {
    if entries == [] then [] else [EncodeEntry(entries[0])] + EncodeEntries(entries[1..])
  }

  function EncodeEntry(e: Entry): Keyed<seq<byte>>
    decreases e
  {
    Keyed(Encode(e.key), Encode(e.value))
  }

  function Flatten(pairs: seq<Keyed<seq<byte>>>): seq<byte> {
    if pairs == [] then [] else pairs[0].key + pairs[0].item + Flatten(pairs[1..])
  }

  // ---------------------------------------------------------------------------
  // Which values may be encoded
  // ---------------------------------------------------------------------------

  /** NFC text throughout, and no map holds two keys with the same encoding. */
  ghost predicate Encodable(u: Unicode, v: Value) {
    match v
    case Text(utf8) => u.isNfc(utf8)
    case Array(items) => forall i :: 0 <= i < |items| ==> Encodable(u, items[i])
    case Map(entries) =>
      && (forall i :: 0 <= i < |entries| ==> Encodable(u, entries[i].key) && Encodable(u, entries[i].value))
      && DistinctKeys(EncodeEntries(entries))
    case _ => true
  }

  /** `validate_encodable`: the first obstacle met in traversal order, or `Ok`. */
  function Validate(u: Unicode, v: Value): Result<()>
    decreases v, 0
  {
    match v
    case Text(utf8) => if u.isNfc(utf8) then Ok(()) else Err(UnnormalizedTextInValue)
    case Array(items) => ValidateItems(u, items)
    case Map(entries) =>
      var checked := ValidateEntries(u, entries);
      if checked.Err? then checked
      else if HasNeighbours(Sort(EncodeKeys(entries))) then Err(DuplicateKeyInValue)
      else Ok(())
    case _ => Ok(())
  }

  function ValidateItems(u: Unicode, items: seq<Value>): Result<()>
    decreases items
  {
    if items == [] then Ok(())
    else
      var first := Validate(u, items[0]);
      if first.Err? then first else ValidateItems(u, items[1..])
  }

  function ValidateEntries(u: Unicode, entries: seq<Entry>): Result<()>
    decreases entries
  {
    if entries == [] then Ok(())
    else
      var first := ValidateEntry(u, entries[0]);
      if first.Err? then first else ValidateEntries(u, entries[1..])
  }

  function ValidateEntry(u: Unicode, e: Entry): Result<()>
    decreases e
  {
    var key := Validate(u, e.key);
    if key.Err? then key else Validate(u, e.value)
  }

  /** The encoded keys alone, in input order. */
  function EncodeKeys(entries: seq<Entry>): seq<Keyed<()>> {
    seq(|entries|, i requires 0 <= i < |entries| => Keyed(Encode(entries[i].key), ()))
  }

  /** Some entry's key equals the next entry's key (`windows(2).any`). */
  predicate HasNeighbours<T>(xs: seq<Keyed<T>>) {
    exists i :: 0 <= i < |xs| - 1 && xs[i].key == xs[i + 1].key
  }

  /** After sorting, equal keys are neighbours, so scanning pairs finds every duplicate. */
  lemma {:induction false} NeighboursAreDuplicates<T>(xs: seq<Keyed<T>>)
    ensures HasNeighbours(Sort(xs)) <==> !DistinctKeys(xs)
  {
    hide LexLess, Sort;
    var s := Sort(xs);
    SortSorts(xs);
    SortDistinct(xs);
    if !DistinctKeys(s) {
      var i, j :| 0 <= i < j < |s| && s[i].key == s[j].key;
      assert !LexLess(s[i + 1].key, s[i].key);
      if i + 1 < j {
        assert !LexLess(s[j].key, s[i + 1].key);
      }
      LexTotal(s[i].key, s[i + 1].key);
    }
    if HasNeighbours(s) {
      var i :| 0 <= i < |s| - 1 && s[i].key == s[i + 1].key;
    }
  }

  /** The traversal accepts exactly the encodable values. */
  lemma {:induction false} ValidateExact(u: Unicode, v: Value)
    ensures Validate(u, v).Ok? <==> Encodable(u, v)
    decreases v, 0
  {
    hide Encode, EncodeEntries, EncodeKeys, Sort, DistinctKeys, HasNeighbours;
    match v {
      case Array(items) =>
        ValidateItemsExact(u, items);
      case Map(entries) =>
        ValidateEntriesExact(u, entries);
        NeighboursAreDuplicates(EncodeKeys(entries));
        KeysDistinct(entries);
      case _ =>
    }
  }

  lemma {:induction false} KeysDistinct(entries: seq<Entry>)
    ensures DistinctKeys(EncodeKeys(entries)) <==> DistinctKeys(EncodeEntries(entries))
  {
    hide Encode, EncodeEntries;
    var keys, pairs := EncodeKeys(entries), EncodeEntries(entries);
    assert forall i :: 0 <= i < |entries| ==> keys[i].key == pairs[i].key;
  }

  lemma {:induction false} ValidateItemsExact(u: Unicode, items: seq<Value>)
    ensures ValidateItems(u, items).Ok? <==> forall i :: 0 <= i < |items| ==> Encodable(u, items[i])
    decreases items
  {
    if items != [] {
      ValidateExact(u, items[0]);
      ValidateItemsExact(u, items[1..]);
      assert forall i :: 1 <= i < |items| ==> items[i] == items[1..][i - 1];
      assert forall i :: 0 <= i < |items[1..]| ==> items[1..][i] == items[i + 1];
    }
  }

  lemma {:induction false} ValidateEntriesExact(u: Unicode, entries: seq<Entry>)
    ensures ValidateEntries(u, entries).Ok? <==>
      forall i :: 0 <= i < |entries| ==> Encodable(u, entries[i].key) && Encodable(u, entries[i].value)
    decreases entries
  {
    if entries != [] {
      assert entries decreases to entries[0];
      ValidateExact(u, entries[0].key);
      ValidateExact(u, entries[0].value);
      ValidateEntriesExact(u, entries[1..]);
      assert forall i :: 1 <= i < |entries| ==> entries[i] == entries[1..][i - 1];
      assert forall i :: 0 <= i < |entries[1..]| ==> entries[1..][i] == entries[i + 1];
    }
  }

  // ---------------------------------------------------------------------------
  // Canonical form
  // ---------------------------------------------------------------------------

  /** The value with non-negative integers unsigned and map entries in encoded-key order, at every level. */
  function Canon(v: Value): Value
    decreases v, 0
  {
    match v
    case NegInt(signed) => if signed < 0 then v else Uint(signed)
    case Array(items) => Array(CanonItems(items))
    case Map(entries) => Map(Items(Sort(CanonEntries(entries))))
    case _ => v
  }

  function CanonItems(items: seq<Value>): (r: seq<Value>)
    ensures |r| == |items|
    ensures forall i :: 0 <= i < |items| ==> r[i] == Canon(items[i])
    decreases items
  {
    if items == [] then [] else [Canon(items[0])] + CanonItems(items[1..])
  }

  function CanonEntries(entries: seq<Entry>): (r: seq<Keyed<Entry>>)
    ensures |r| == |entries|
    ensures forall i :: 0 <= i < |entries| ==> r[i] == CanonEntry(entries[i])
    decreases entries
  {
    if entries == [] then [] else [CanonEntry(entries[0])] + CanonEntries(entries[1..])
  }

  function CanonEntry(e: Entry): Keyed<Entry>
    decreases e
  {
    Keyed(Encode(e.key), Entry(Canon(e.key), Canon(e.value)))
  }

  function Items<T>(xs: seq<Keyed<T>>): (r: seq<T>)
    ensures |r| == |xs|
    ensures forall i :: 0 <= i < |xs| ==> r[i] == xs[i].item
  {
    seq(|xs|, i requires 0 <= i < |xs| => xs[i].item)
  }

  /** A value the decoder can return: canonical at every level. */
  ghost predicate IsCanonical(u: Unicode, v: Value) {
    match v
    case NegInt(signed) => signed < 0
    case Bytes(bytes) => |bytes| < TWO_TO_THE_64
    case Text(utf8) => |utf8| < TWO_TO_THE_64 && u.validUtf8(utf8) && u.isNfc(utf8)
    case Array(items) =>
      && |items| < TWO_TO_THE_64
      && forall i :: 0 <= i < |items| ==> IsCanonical(u, items[i])
    case Map(entries) =>
      && |entries| < TWO_TO_THE_64
      && (forall i :: 0 <= i < |entries| ==> IsCanonical(u, entries[i].key) && IsCanonical(u, entries[i].value))
      && StrictlyAscending(EncodeEntries(entries))
    case _ => true
  }

  /** A canonical value passes validation and is its own canonical form. */
  lemma {:induction false} CanonicalIsEncodable(u: Unicode, v: Value)
    requires IsCanonical(u, v)
    ensures Encodable(u, v) && Representable(u, v)
    ensures Canon(v) == v
    decreases v
  {
    match v {
      case Array(items) =>
        forall i | 0 <= i < |items|
          ensures Encodable(u, items[i]) && Representable(u, items[i]) && Canon(items[i]) == items[i]
        {
          CanonicalIsEncodable(u, items[i]);
        }
        assert CanonItems(items) == items;
      case Map(entries) =>
        forall i | 0 <= i < |entries|
          ensures Encodable(u, entries[i].key) && Representable(u, entries[i].key)
          ensures Encodable(u, entries[i].value) && Representable(u, entries[i].value)
          ensures Canon(entries[i].key) == entries[i].key && Canon(entries[i].value) == entries[i].value
        {
          CanonicalIsEncodable(u, entries[i].key);
          CanonicalIsEncodable(u, entries[i].value);
        }
        SortFixesStrict(EncodeEntries(entries));
        SortStrict(EncodeEntries(entries));
        SortFixesStrict(CanonEntries(entries));
        assert Items(CanonEntries(entries)) == entries;
      case _ =>
    }
  }

  /** `plain` carries what `coded` encodes, entry by entry. */
  ghost predicate Parallel(plain: seq<Keyed<Entry>>, coded: seq<Keyed<seq<byte>>>) {
    && |plain| == |coded|
    && forall i :: 0 <= i < |plain| ==> ParallelAt(plain[i], coded[i])
  }

  ghost predicate ParallelAt(plain: Keyed<Entry>, coded: Keyed<seq<byte>>) {
    plain.key == coded.key == Encode(plain.item.key) && coded.item == Encode(plain.item.value)
  }

  lemma {:induction false} InsertParallel(
      x: Keyed<Entry>, y: Keyed<seq<byte>>, plain: seq<Keyed<Entry>>, coded: seq<Keyed<seq<byte>>>)
    requires ParallelAt(x, y) && Parallel(plain, coded)
    ensures Parallel(Insert(x, plain), Insert(y, coded))
  {
    if plain != [] {
      assert ParallelAt(plain[0], coded[0]);
      if LexLess(plain[0].key, x.key) {
        assert Parallel(plain[1..], coded[1..]);
        InsertParallel(x, y, plain[1..], coded[1..]);
      }
    }
  }

  lemma {:induction false} SortParallel(plain: seq<Keyed<Entry>>, coded: seq<Keyed<seq<byte>>>)
    requires Parallel(plain, coded)
    ensures Parallel(Sort(plain), Sort(coded))
  {
    if plain != [] {
      assert ParallelAt(plain[0], coded[0]);
      assert Parallel(plain[1..], coded[1..]);
      SortParallel(plain[1..], coded[1..]);
      InsertParallel(plain[0], coded[0], Sort(plain[1..]), Sort(coded[1..]));
    }
  }

  /** Canonicalising never changes the bytes. */
  lemma {:induction false} CanonSameBytes(v: Value)
    ensures Encode(Canon(v)) == Encode(v)
    decreases v, 0
  {
    match v {
      case Array(items) =>
        CanonItemsSameBytes(items);
      case Map(entries) =>
        CanonEntriesSorted(entries);
        var sorted := Sort(EncodeEntries(entries));
        SortIdempotent(EncodeEntries(entries));
        assert EncodeEntries(Canon(v).entries) == sorted;
      case _ =>
    }
  }

  lemma {:induction false} CanonItemsSameBytes(items: seq<Value>)
    ensures EncodeItems(CanonItems(items)) == EncodeItems(items)
    decreases items
  {
    if items != [] {
      CanonSameBytes(items[0]);
      CanonItemsSameBytes(items[1..]);
    }
  }

  lemma {:induction false} CanonEntriesSorted(entries: seq<Entry>)
    ensures EncodeEntries(Items(Sort(CanonEntries(entries)))) == Sort(EncodeEntries(entries))
    ensures Parallel(Sort(CanonEntries(entries)), Sort(EncodeEntries(entries)))
    decreases entries
  {
    forall i | 0 <= i < |entries| ensures ParallelAt(CanonEntries(entries)[i], EncodeEntries(entries)[i]) {
      assert entries decreases to entries[i];
      CanonSameBytes(entries[i].key);
      CanonSameBytes(entries[i].value);
    }
    SortParallel(CanonEntries(entries), EncodeEntries(entries));
    var plain, coded := Sort(CanonEntries(entries)), Sort(EncodeEntries(entries));
    forall i | 0 <= i < |plain| ensures EncodeEntries(Items(plain))[i] == coded[i] {
      assert ParallelAt(plain[i], coded[i]);
    }
  }

  lemma {:induction false} SortFixesAscending<T>(xs: seq<Keyed<T>>)
    requires Ascending(xs)
    ensures Sort(xs) == xs
  {
    if xs != [] {
      SortFixesAscending(xs[1..]);
    }
  }

  lemma {:induction false} SortIdempotent<T>(xs: seq<Keyed<T>>)
    ensures Sort(Sort(xs)) == Sort(xs)
  {
    SortSorts(xs);
    SortFixesAscending(Sort(xs));
  }

  /** Canonicalising an encodable value gives a value the decoder can return, no deeper than it was. */
  lemma {:induction false} CanonIsCanonical(u: Unicode, v: Value, levels: int)
    requires Encodable(u, v) && Representable(u, v) && NestsWithin(v, levels)
    ensures IsCanonical(u, Canon(v)) && NestsWithin(Canon(v), levels)
    decreases v, 0
  {
    match v {
      case Array(items) =>
        forall i | 0 <= i < |items|
          ensures IsCanonical(u, Canon(items[i])) && NestsWithin(Canon(items[i]), levels - 1)
        {
          CanonIsCanonical(u, items[i], levels - 1);
        }
      case Map(entries) =>
        CanonEntriesCanonical(u, entries, levels - 1);
        CanonEntriesSorted(entries);
        SortStrict(EncodeEntries(entries));
      case _ =>
    }
  }

  ghost predicate CanonicalEntry(u: Unicode, e: Entry, levels: int) {
    IsCanonical(u, e.key) && IsCanonical(u, e.value) && EntryNestsWithin(e, levels)
  }

  lemma {:induction false} CanonEntriesCanonical(u: Unicode, entries: seq<Entry>, levels: int)
    requires forall i :: 0 <= i < |entries| ==> Encodable(u, entries[i].key) && Encodable(u, entries[i].value)
    requires forall i :: 0 <= i < |entries| ==> Representable(u, entries[i].key) && Representable(u, entries[i].value)
    requires forall i :: 0 <= i < |entries| ==> EntryNestsWithin(entries[i], levels)
    ensures forall i :: 0 <= i < |entries| ==>
      CanonicalEntry(u, Items(Sort(CanonEntries(entries)))[i], levels)
    decreases entries, 0
  {
    var keyed := CanonEntries(entries);
    var sorted := Sort(keyed);
    SortMembers(keyed);
    forall i | 0 <= i < |sorted| ensures CanonicalEntry(u, sorted[i].item, levels) {
      assert sorted[i] in sorted;
      var j :| 0 <= j < |keyed| && keyed[j] == sorted[i];
      assert entries decreases to entries[j];
      assert EntryNestsWithin(entries[j], levels);
      CanonIsCanonical(u, entries[j].key, levels);
      CanonIsCanonical(u, entries[j].value, levels);
    }
  }
}
