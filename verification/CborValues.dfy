/** The closed CBOR value model, its errors, and what Rust's types guarantee about a value. */
module CborValues {
  import opened Bytes

  /** The two Unicode tests the codec takes from libraries; nothing is assumed of either. */
  datatype Unicode = Unicode(validUtf8: seq<byte> -> bool, isNfc: seq<byte> -> bool)

  const MAXIMUM_NESTING_DEPTH: nat := 128

  datatype Value =
    | Uint(unsigned: u64)
    | NegInt(signed: i64)
    | Bytes(bytes: seq<byte>)
    | Text(utf8: seq<byte>)
    | Array(items: seq<Value>)
    | Map(entries: seq<Entry>)
    | Null

  datatype Entry = Entry(key: Value, value: Value)

  datatype Error =
    | Truncated(needed: nat, offset: nat)
    | IndefiniteLength(offset: nat)
    | ReservedAdditionalInformation(additional: nat, offset: nat)
    | NonMinimalArgument(argument: u64, width: nat, offset: nat)
    | UnsupportedSimpleValue(additional: nat, offset: nat)
    | TagNotAllowed(offset: nat)
    | NegativeIntegerOutOfRange(offset: nat)
    | LengthOutOfRange(length: u64, offset: nat)
    | InvalidUtf8(offset: nat)
    | NotNormalizedNfc(offset: nat)
    | DuplicateMapKey(offset: nat)
    | UnsortedMapKeys(offset: nat)
    | TrailingBytes(count: nat)
    | DepthLimitExceeded(limit: nat, offset: nat)
    | UnnormalizedTextInValue
    | DuplicateKeyInValue

  datatype Result<+T> = Ok(value: T) | Err(error: Error)

  /** What Rust's types promise of every value: lengths fit in `u64` and a `String` is UTF-8. */
  ghost predicate Representable(u: Unicode, v: Value) {
    match v
    case Bytes(bytes) => |bytes| < TWO_TO_THE_64
    case Text(utf8) => |utf8| < TWO_TO_THE_64 && u.validUtf8(utf8)
    case Array(items) =>
      && |items| < TWO_TO_THE_64
      && forall i :: 0 <= i < |items| ==> Representable(u, items[i])
    case Map(entries) =>
      && |entries| < TWO_TO_THE_64
      && forall i :: 0 <= i < |entries| ==> Representable(u, entries[i].key) && Representable(u, entries[i].value)
    case _ => true
  }

  /** Containers nest at most `levels` deep below `v`; a leaf or empty container needs none. */
  ghost predicate NestsWithin(v: Value, levels: int)
    decreases v
  {
    && levels >= 0
    && match v
       case Array(items) => forall i :: 0 <= i < |items| ==> NestsWithin(items[i], levels - 1)
       case Map(entries) => forall i :: 0 <= i < |entries| ==> EntryNestsWithin(entries[i], levels - 1)
       case _ => true
  }

  ghost predicate EntryNestsWithin(e: Entry, levels: int)
    decreases e
  {
    NestsWithin(e.key, levels) && NestsWithin(e.value, levels)
  }

  lemma {:induction false} NestsWithinMonotone(v: Value, low: int, high: int)
    requires NestsWithin(v, low) && low <= high
    ensures NestsWithin(v, high)
    decreases v
  {
    match v {
      case Array(items) =>
        forall i | 0 <= i < |items| ensures NestsWithin(items[i], high - 1) {
          NestsWithinMonotone(items[i], low - 1, high - 1);
        }
      case Map(entries) =>
        forall i | 0 <= i < |entries| ensures EntryNestsWithin(entries[i], high - 1) {
          assert EntryNestsWithin(entries[i], low - 1);
          NestsWithinMonotone(entries[i].key, low - 1, high - 1);
          NestsWithinMonotone(entries[i].value, low - 1, high - 1);
        }
      case _ =>
    }
  }

  /** Every value nests finitely deep. */
  lemma {:induction false} NestingLevels(v: Value) returns (levels: nat)
    ensures NestsWithin(v, levels)
    decreases v, 0
  {
    levels := 0;
    match v {
      case Array(items) =>
        var below := ItemLevels(items);
        levels := below + 1;
      case Map(entries) =>
        var below := EntryLevels(entries);
        levels := below + 1;
      case _ =>
    }
  }

  lemma {:induction false} ItemLevels(items: seq<Value>) returns (levels: nat)
    ensures forall i :: 0 <= i < |items| ==> NestsWithin(items[i], levels)
    decreases items
  {
    levels := 0;
    if items != [] {
      var first := NestingLevels(items[0]);
      var rest := ItemLevels(items[1..]);
      levels := first + rest;
      forall i | 0 <= i < |items| ensures NestsWithin(items[i], levels) {
        if i == 0 {
          NestsWithinMonotone(items[0], first, levels);
        } else {
          assert items[i] == items[1..][i - 1];
          NestsWithinMonotone(items[i], rest, levels);
        }
      }
    }
  }

  lemma {:induction false} EntryLevels(entries: seq<Entry>) returns (levels: nat)
    ensures forall i :: 0 <= i < |entries| ==> EntryNestsWithin(entries[i], levels)
    decreases entries
  {
    levels := 0;
    if entries != [] {
      assert entries decreases to entries[0];
      var key := NestingLevels(entries[0].key);
      var value := NestingLevels(entries[0].value);
      var rest := EntryLevels(entries[1..]);
      levels := key + value + rest;
      forall i | 0 <= i < |entries| ensures EntryNestsWithin(entries[i], levels) {
        if i == 0 {
          NestsWithinMonotone(entries[0].key, key, levels);
          NestsWithinMonotone(entries[0].value, value, levels);
        } else {
          assert entries[i] == entries[1..][i - 1];
          NestsWithinMonotone(entries[i].key, rest, levels);
          NestsWithinMonotone(entries[i].value, rest, levels);
        }
      }
    }
  }
}
