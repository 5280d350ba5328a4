/** The codec as it runs: an encoder appending to a buffer and a decoder moving a cursor. */
module CborCodec {
  import opened Bytes
  import opened Options
  import opened KeyedSort
  import opened CborValues
  import opened CborEncoding
  import opened CborParsing

  // ---------------------------------------------------------------------------
  // Encoder
  // ---------------------------------------------------------------------------

  /** The output vector the encoder appends to. */
  class Output {
    var bytes: seq<byte>

    constructor ()
      ensures bytes == []
    {
      bytes := [];
    }

    method Push(b: byte)
      modifies this
      ensures bytes == old(bytes) + [b]
    {
      bytes := bytes + [b];
    }

    method Extend(more: seq<byte>)
      modifies this
      ensures bytes == old(bytes) + more
    {
      bytes := bytes + more;
    }
  }

  method EncodeArgumentInto(majorType: nat, argument: u64, output: Output)
    requires majorType < 8
    modifies output
    ensures output.bytes == old(output.bytes) + EncodeArgument(majorType, argument)
  {
    hide ToBe;
    var head := 32 * majorType;
    if argument < 24 {
      output.Push(head + argument);
    } else if argument <= 0xff {
      output.Push(head + 24);
      output.Extend(ToBe(argument, 1));
    } else if argument <= 0xffff {
      output.Push(head + 25);
      output.Extend(ToBe(argument, 2));
    } else if argument <= 0xffff_ffff {
      output.Push(head + 26);
      output.Extend(ToBe(argument, 4));
    } else {
      output.Push(head + 27);
      output.Extend(ToBe(argument, 8));
    }
  }

  /** `encode_item`: the encoding of one value in a fresh buffer. */
  method EncodeItem(v: Value) returns (encoded: seq<byte>)
    ensures encoded == Encode(v)
    decreases v, 1
  {
    var output := new Output();
    EncodeInto(v, output);
    encoded := output.bytes;
    assert [] + Encode(v) == Encode(v);
  }

  method EncodeInto(v: Value, output: Output)
    modifies output
    ensures output.bytes == old(output.bytes) + Encode(v)
    decreases v, 0
  {
    hide EncodeArgument, EncodeItems, EncodeEntries, Sort, Flatten;
    match v {
      case Uint(unsigned) =>
        EncodeArgumentInto(0, unsigned, output);
      case NegInt(signed) =>
        if signed < 0 {
          EncodeArgumentInto(1, -1 - signed, output);
        } else {
          EncodeArgumentInto(0, signed, output);
        }
      case Bytes(bytes) =>
        EncodeArgumentInto(2, AsU64(|bytes|), output);
        output.Extend(bytes);
      case Text(utf8) =>
        EncodeArgumentInto(3, AsU64(|utf8|), output);
        output.Extend(utf8);
      case Array(items) =>
        EncodeArgumentInto(4, AsU64(|items|), output);
        EncodeItemsInto(items, output);
      case Map(entries) =>
        var encoded := EncodePairs(entries);
        encoded := Sort(encoded);
        EncodeArgumentInto(5, AsU64(|encoded|), output);
        FlattenInto(encoded, output);
      case Null =>
        output.Push(0xf6);
    }
  }

  method EncodeItemsInto(items: seq<Value>, output: Output)
    modifies output
    ensures output.bytes == old(output.bytes) + EncodeItems(items)
    decreases items
  {
    hide Encode;
    ghost var before := output.bytes;
    for i := 0 to |items|
      invariant output.bytes + EncodeItems(items[i..]) == before + EncodeItems(items)
    {
      ghost var bytes := output.bytes;
      EncodeInto(items[i], output);
      assert items[i..][0] == items[i] && items[i..][1..] == items[i + 1..];
      assert bytes + (Encode(items[i]) + EncodeItems(items[i + 1..]))
          == (bytes + Encode(items[i])) + EncodeItems(items[i + 1..]);
    }
    assert output.bytes + [] == output.bytes;
  }

  method EncodePairs(entries: seq<Entry>) returns (encoded: seq<Keyed<seq<byte>>>)
    ensures encoded == EncodeEntries(entries)
    decreases entries
  {
    hide Encode;
    encoded := [];
    for i := 0 to |entries|
      invariant |encoded| == i
      invariant forall k :: 0 <= k < i ==> encoded[k] == EncodeEntry(entries[k])
    {
      assert entries decreases to entries[i];
      var key := EncodeItem(entries[i].key);
      var value := EncodeItem(entries[i].value);
      encoded := encoded + [Keyed(key, value)];
    }
  }

  method FlattenInto(pairs: seq<Keyed<seq<byte>>>, output: Output)
    modifies output
    ensures output.bytes == old(output.bytes) + Flatten(pairs)
  {
    ghost var before := output.bytes;
    for i := 0 to |pairs|
      invariant output.bytes + Flatten(pairs[i..]) == before + Flatten(pairs)
    {
      ghost var bytes := output.bytes;
      output.Extend(pairs[i].key);
      output.Extend(pairs[i].item);
      assert pairs[i..][0] == pairs[i] && pairs[i..][1..] == pairs[i + 1..];
      assert bytes + (pairs[i].key + pairs[i].item + Flatten(pairs[i + 1..]))
          == bytes + pairs[i].key + pairs[i].item + Flatten(pairs[i + 1..]);
    }
    assert output.bytes + [] == output.bytes;
  }

  /** `validate_encodable`: stops at the first obstacle in traversal order. */
  method ValidateEncodable(u: Unicode, v: Value) returns (r: Result<()>)
    ensures r == Validate(u, v)
    decreases v, 0
  {
    match v {
      case Text(utf8) =>
        if !u.isNfc(utf8) {
          return Err(UnnormalizedTextInValue);
        }
      case Array(items) =>
        r := ValidateAll(u, items);
        return;
      case Map(entries) =>
        var encodedKeys: seq<Keyed<()>>;
        r, encodedKeys := ValidatePairs(u, entries);
        if r.Err? {
          return;
        }
        encodedKeys := Sort(encodedKeys);
        if HasNeighbours(encodedKeys) {
          return Err(DuplicateKeyInValue);
        }
      case _ =>
    }
    return Ok(());
  }

  method ValidateAll(u: Unicode, items: seq<Value>) returns (r: Result<()>)
    ensures r == ValidateItems(u, items)
    decreases items
  {
    hide Validate;
    for i := 0 to |items|
      invariant ValidateItems(u, items) == ValidateItems(u, items[i..])
    {
      var checked := ValidateEncodable(u, items[i]);
      assert items[i..][0] == items[i] && items[i..][1..] == items[i + 1..];
      if checked.Err? {
        return checked;
      }
    }
    return Ok(());
  }

  method ValidatePairs(u: Unicode, entries: seq<Entry>)
    returns (r: Result<()>, encodedKeys: seq<Keyed<()>>)
    ensures r == ValidateEntries(u, entries)
    ensures r.Ok? ==> encodedKeys == EncodeKeys(entries)
    decreases entries
  {
    hide Validate, Encode;
    encodedKeys := [];
    for i := 0 to |entries|
      invariant ValidateEntries(u, entries) == ValidateEntries(u, entries[i..])
      invariant |encodedKeys| == i
      invariant forall k :: 0 <= k < i ==> encodedKeys[k] == Keyed(Encode(entries[k].key), ())
    {
      assert entries decreases to entries[i];
      assert entries[i..][0] == entries[i] && entries[i..][1..] == entries[i + 1..];
      var key := ValidateEncodable(u, entries[i].key);
      if key.Err? {
        return key, encodedKeys;
      }
      var value := ValidateEncodable(u, entries[i].value);
      if value.Err? {
        return value, encodedKeys;
      }
      var encodedKey := EncodeItem(entries[i].key);
      encodedKeys := encodedKeys + [Keyed(encodedKey, ())];
    }
    return Ok(()), encodedKeys;
  }

  /** Succeeds exactly on the encodable values, with their encoding. */
  method EncodeCanonicalChecked(u: Unicode, v: Value) returns (r: Result<seq<byte>>)
    ensures r.Ok? <==> Encodable(u, v)
    ensures r.Ok? ==> r.value == Encode(v)
    ensures r.Err? ==> r.error == UnnormalizedTextInValue || r.error == DuplicateKeyInValue
  {
    hide Validate, Encode, Encodable;
    var checked := ValidateEncodable(u, v);
    ValidateExact(u, v);
    if checked.Err? {
      ValidateErrors(u, v);
      return Err(checked.error);
    }
    var encoded := EncodeItem(v);
    return Ok(encoded);
  }

  lemma {:induction false} ValidateErrors(u: Unicode, v: Value)
    requires Validate(u, v).Err?
    ensures Validate(u, v).error == UnnormalizedTextInValue || Validate(u, v).error == DuplicateKeyInValue
    decreases v, 0
  {
    match v {
      case Array(items) =>
        ValidateItemsErrors(u, items);
      case Map(entries) =>
        if ValidateEntries(u, entries).Err? {
          ValidateEntriesErrors(u, entries);
        }
      case _ =>
    }
  }

  lemma {:induction false} ValidateItemsErrors(u: Unicode, items: seq<Value>)
    requires ValidateItems(u, items).Err?
    ensures var e := ValidateItems(u, items).error; e == UnnormalizedTextInValue || e == DuplicateKeyInValue
    decreases items
  {
    hide Validate;
    if Validate(u, items[0]).Err? {
      ValidateErrors(u, items[0]);
    } else {
      ValidateItemsErrors(u, items[1..]);
    }
  }

  lemma {:induction false} ValidateEntriesErrors(u: Unicode, entries: seq<Entry>)
    requires ValidateEntries(u, entries).Err?
    ensures var e := ValidateEntries(u, entries).error; e == UnnormalizedTextInValue || e == DuplicateKeyInValue
    decreases entries
  {
    hide Validate;
    var first := entries[0];
    assert entries decreases to first;
    if Validate(u, first.key).Err? {
      ValidateErrors(u, first.key);
    } else if Validate(u, first.value).Err? {
      ValidateErrors(u, first.value);
    } else {
      ValidateEntriesErrors(u, entries[1..]);
    }
  }

  // ---------------------------------------------------------------------------
  // Decoder
  // ---------------------------------------------------------------------------

  /** A method's result and final position are what the specification says. */
  predicate Agrees<T(==)>(r: Result<T>, offset: nat, spec: Parsed<T>) {
    match spec
    case Failed(error) => r == Err(error)
    case Parsed(value, next) => r == Ok(value) && offset == next
  }

  /** The elements of all arrays and maps in a value, at every level. */
  ghost function Elements(v: Value): nat
    decreases v, 0
  {
    match v
    case Array(items) => |items| + ItemElements(items)
    case Map(entries) => |entries| + EntryElements(entries)
    case _ => 0
  }

  ghost function ItemElements(items: seq<Value>): nat
    decreases items
  {
    if items == [] then 0 else ItemElements(items[..|items| - 1]) + Elements(items[|items| - 1])
  }

  ghost function EntryElements(entries: seq<Entry>): nat
    decreases entries
  {
    if entries == [] then 0 else EntryElements(entries[..|entries| - 1]) + ElementsOf(entries[|entries| - 1])
  }

  ghost function ElementsOf(e: Entry): nat
    decreases e
  {
    Elements(e.key) + Elements(e.value)
  }

  lemma {:induction false} NoElements()
    ensures ItemElements([]) == 0 && EntryElements([]) == 0
  {
  }

  lemma {:induction false} ItemElementsSnoc(items: seq<Value>, item: Value)
    ensures ItemElements(items + [item]) == ItemElements(items) + Elements(item)
  {
    hide Elements;
    assert (items + [item])[..|items|] == items;
  }

  lemma {:induction false} EntryElementsSnoc(entries: seq<Entry>, e: Entry)
    ensures EntryElements(entries + [e]) == EntryElements(entries) + Elements(e.key) + Elements(e.value)
  {
    hide Elements;
    assert (entries + [e])[..|entries|] == entries;
  }

  /** What a run that fails at this depth may have reserved: each open container at most the input left. */
  function ReserveBound(depth: nat, left: nat): nat
    requires depth <= MAXIMUM_NESTING_DEPTH + 1
  {
    (MAXIMUM_NESTING_DEPTH + 2 - depth) * left
  }

  lemma {:induction false} ReserveBoundStep(depth: nat, reserved: nat, consumed: nat, left: nat, total: nat)
    requires depth <= MAXIMUM_NESTING_DEPTH && reserved <= consumed + left <= total
    ensures reserved + consumed + ReserveBound(depth + 1, left) <= ReserveBound(depth, total)
  {
    var k := MAXIMUM_NESTING_DEPTH + 1 - depth;
    assert k * (consumed + left) == k * consumed + k * left;
    assert consumed <= k * consumed;
    assert (k + 1) * (consumed + left) <= (k + 1) * total;
  }

  class Decoder {
    const unicode: Unicode
    const input: seq<byte>
    var offset: nat
    /** Elements requested by `Vec::with_capacity` so far. */
    ghost var reserved: nat

    ghost predicate Valid()
      reads this
    {
      offset <= |input|
    }

    constructor (unicode: Unicode, input: seq<byte>)
      ensures Valid() && this.unicode == unicode && this.input == input
      ensures offset == 0 && reserved == 0
    {
      this.unicode := unicode;
      this.input := input;
      offset := 0;
      reserved := 0;
    }

    method ReadFixed(count: nat) returns (r: Result<seq<byte>>)
      requires Valid()
      modifies this`offset
      ensures Valid()
      ensures if old(offset) + count <= |input|
        then r == Ok(input[old(offset)..old(offset) + count]) && offset == old(offset) + count
        else r == Err(Truncated(count - (|input| - old(offset)), old(offset))) && offset == old(offset)
    {
      var remaining := |input| - offset;
      if remaining < count {
        return Err(Truncated(count - remaining, offset));
      }
      var slice := input[offset..offset + count];
      offset := offset + count;
      return Ok(slice);
    }

    method TakeDeclared(length: u64, headOffset: nat) returns (r: Result<seq<byte>>)
      requires Valid()
      modifies this`offset
      ensures Valid()
      ensures if length > |input| - old(offset)
        then r == Err(LengthOutOfRange(length, headOffset)) && offset == old(offset)
        else r == Ok(input[old(offset)..old(offset) + length]) && offset == old(offset) + length
    {
      var remaining := |input| - offset;
      if length > remaining {
        return Err(LengthOutOfRange(length, headOffset));
      }
      r := ReadFixed(length);
    }

    /** A big-endian argument of `width` bytes that has no shorter form. */
    method ReadWideArgument(width: nat, least: nat, headOffset: nat) returns (r: Result<u64>)
      requires Valid() && (width == 1 || width == 2 || width == 4 || width == 8)
      modifies this`offset
      ensures Valid() && Agrees(r, offset, ReadWide(input, old(offset), width, least, headOffset))
    {
      hide FromBe, Pow256;
      var raw := ReadFixed(width);
      if raw.Err? {
        return Err(raw.error);
      }
      FromBeBound(raw.value);
      Pow256Widths();
      var value: u64 := FromBe(raw.value);
      if value < least {
        return Err(NonMinimalArgument(value, width, headOffset));
      }
      return Ok(value);
    }

    method ReadArgumentAt(additional: nat, headOffset: nat) returns (r: Result<u64>)
      requires Valid() && additional < 32
      modifies this`offset
      ensures Valid() && Agrees(r, offset, ReadArgument(input, old(offset), additional, headOffset))
    {
      hide ReadWide;
      if additional <= 23 {
        return Ok(additional);
      } else if additional == 24 {
        r := ReadWideArgument(1, 24, headOffset);
      } else if additional == 25 {
        r := ReadWideArgument(2, 0x100, headOffset);
      } else if additional == 26 {
        r := ReadWideArgument(4, 0x1_0000, headOffset);
      } else if additional == 27 {
        r := ReadWideArgument(8, 0x1_0000_0000, headOffset);
      } else if additional == 31 {
        return Err(IndefiniteLength(headOffset));
      } else {
        return Err(ReservedAdditionalInformation(additional, headOffset));
      }
    }

    /** True when the declared item count cannot fit in the remaining bytes. */
    method IsImpossibleContainer(length: u64, minimumBytesPerItem: u64) returns (impossible: bool)
      requires Valid() && minimumBytesPerItem >= 1
      ensures impossible <==> SaturatingMul(length, minimumBytesPerItem) > |input| - offset
      ensures !impossible ==> length <= |input| - offset
    {
      impossible := SaturatingMul(length, minimumBytesPerItem) > |input| - offset;
      if !impossible {
        SaturatingMulGrows(length, minimumBytesPerItem);
      }
    }

    /**
     * One item: the result and the cursor are exactly `ParseItem`'s. An accepted item reserved fewer
     * elements than it has bytes; a failing run reserved at most `ReserveBound`.
     */
    method DecodeItem(depth: nat) returns (r: Result<Value>)
      requires Valid() && depth <= MAXIMUM_NESTING_DEPTH + 1
      modifies this
      ensures Valid() && Agrees(r, offset, ParseItem(unicode, input, old(offset), depth, MAXIMUM_NESTING_DEPTH))
      ensures r.Ok? ==> old(offset) < offset && reserved + 1 <= old(reserved) + (offset - old(offset))
      ensures r.Ok? ==> reserved == old(reserved) + Elements(r.value)
      ensures r.Err? ==> reserved <= old(reserved) + ReserveBound(depth, |input| - old(offset))
      decreases MAXIMUM_NESTING_DEPTH + 1 - depth, 3
    {
      hide ParseContent, ReadArgument, ReserveBound;
      var headOffset := offset;
      if depth > MAXIMUM_NESTING_DEPTH {
        return Err(DepthLimitExceeded(MAXIMUM_NESTING_DEPTH, headOffset));
      }
      var head := ReadFixed(1);
      if head.Err? {
        return Err(head.error);
      }
      var majorType, additional := head.value[0] / 32, head.value[0] % 32;
      if majorType == 6 {
        return Err(TagNotAllowed(headOffset));
      }
      if majorType == 7 {
        if additional == 22 {
          return Ok(Null);
        }
        return Err(UnsupportedSimpleValue(additional, headOffset));
      }
      var argument := ReadArgumentAt(additional, headOffset);
      if argument.Err? {
        return Err(argument.error);
      }
      r := DecodeContent(headOffset, depth, majorType, argument.value);
    }

    method DecodeContent(headOffset: nat, depth: nat, majorType: nat, argument: u64) returns (r: Result<Value>)
      requires Valid() && headOffset < offset && depth <= MAXIMUM_NESTING_DEPTH && majorType <= 5
      modifies this
      ensures Valid() && Agrees(r, offset,
        ParseContent(unicode, input, headOffset, old(offset), depth, MAXIMUM_NESTING_DEPTH, majorType, argument))
      ensures r.Ok? ==> reserved == old(reserved) + Elements(r.value)
      ensures r.Ok? ==> old(offset) <= offset && reserved <= old(reserved) + (offset - old(offset))
      ensures r.Err? ==> reserved <= old(reserved) + ReserveBound(depth, |input| - headOffset)
      decreases MAXIMUM_NESTING_DEPTH - depth, 5
    {
      hide ParseItems, ParseEntries, ReserveBound;
      match majorType {
        case 0 =>
          return Ok(Uint(argument));
        case 1 =>
          if argument >= TWO_TO_THE_63 {
            return Err(NegativeIntegerOutOfRange(headOffset));
          }
          return Ok(NegInt(-1 - argument));
        case 2 =>
          var bytes := TakeDeclared(argument, headOffset);
          if bytes.Err? {
            return Err(bytes.error);
          }
          return Ok(Bytes(bytes.value));
        case 3 =>
          var utf8 := TakeDeclared(argument, headOffset);
          if utf8.Err? {
            return Err(utf8.error);
          }
          if !unicode.validUtf8(utf8.value) {
            return Err(InvalidUtf8(headOffset));
          }
          if !unicode.isNfc(utf8.value) {
            return Err(NotNormalizedNfc(headOffset));
          }
          return Ok(Text(utf8.value));
        case 4 =>
          var impossible := IsImpossibleContainer(argument, 1);
          if impossible {
            return Err(LengthOutOfRange(argument, headOffset));
          }
          var items := DecodeItems(depth, argument, headOffset);
          if items.Err? {
            return Err(items.error);
          }
          return Ok(Array(items.value));
        case _ =>
          var impossible := IsImpossibleContainer(argument, 2);
          if impossible {
            return Err(LengthOutOfRange(argument, headOffset));
          }
          var entries := DecodeEntries(depth, argument, headOffset);
          if entries.Err? {
            return Err(entries.error);
          }
          return Ok(Map(entries.value));
      }
    }

    method DecodeItems(depth: nat, length: nat, ghost headOffset: nat) returns (r: Result<seq<Value>>)
      requires Valid() && depth <= MAXIMUM_NESTING_DEPTH && headOffset < offset && length <= |input| - offset
      modifies this
      ensures Valid() && Agrees(r, offset,
        ParseItems(unicode, input, old(offset), depth + 1, MAXIMUM_NESTING_DEPTH, length))
      ensures r.Ok? ==> |r.value| == length && reserved == old(reserved) + length + ItemElements(r.value)
      ensures r.Ok? ==> old(offset) <= offset && reserved <= old(reserved) + (offset - old(offset))
      ensures r.Err? ==> reserved <= old(reserved) + ReserveBound(depth, |input| - headOffset)
      decreases MAXIMUM_NESTING_DEPTH - depth, 4
    {
      hide ParseItem, ParseItems, ReserveBound, Prepend, Elements;
      var start := offset;
      ghost var before := reserved;
      reserved := reserved + length;
      var items: seq<Value> := [];
      PrependNothing(ParseItems(unicode, input, start, depth + 1, MAXIMUM_NESTING_DEPTH, length));
      for i := 0 to length
        invariant start <= offset <= |input|
        invariant ParseItems(unicode, input, start, depth + 1, MAXIMUM_NESTING_DEPTH, length)
          == Prepend(items, ParseItems(unicode, input, offset, depth + 1, MAXIMUM_NESTING_DEPTH, length - i))
        invariant reserved + i <= before + length + (offset - start)
        invariant |items| == i && reserved == before + length + ItemElements(items)
      {
        ReserveBoundStep(depth, length, offset - start, |input| - offset, |input| - headOffset);
        ghost var at := offset;
        ItemsTurn(unicode, input, at, depth + 1, MAXIMUM_NESTING_DEPTH, length - i, items);
        var item := DecodeItem(depth + 1);
        if item.Err? {
          return Err(item.error);
        }
        ItemElementsSnoc(items, item.value);
        items := items + [item.value];
      }
      ItemsEnd(unicode, input, offset, depth + 1, MAXIMUM_NESTING_DEPTH, items);
      return Ok(items);
    }

    method DecodeEntries(depth: nat, length: nat, ghost headOffset: nat) returns (r: Result<seq<Entry>>)
      requires Valid() && depth <= MAXIMUM_NESTING_DEPTH && headOffset < offset && length <= |input| - offset
      modifies this
      ensures Valid() && Agrees(r, offset,
        ParseEntries(unicode, input, old(offset), depth + 1, MAXIMUM_NESTING_DEPTH, length, None))
      ensures r.Ok? ==> |r.value| == length && reserved == old(reserved) + length + EntryElements(r.value)
      ensures r.Ok? ==> old(offset) <= offset && reserved <= old(reserved) + (offset - old(offset))
      ensures r.Err? ==> reserved <= old(reserved) + ReserveBound(depth, |input| - headOffset)
      decreases MAXIMUM_NESTING_DEPTH - depth, 4
    {
      hide ParseItem, ParseEntries, ReserveBound, LexLess, Prepend, Elements, EntryElements, KeyOrder;
      var start := offset;
      ghost var before := reserved;
      reserved := reserved + length;
      var entries: seq<Entry> := [];
      var previousKey: Option<seq<byte>> := None;
      NoElements();
      PrependNothing(ParseEntries(unicode, input, start, depth + 1, MAXIMUM_NESTING_DEPTH, length, None));
      for i := 0 to length
        invariant start <= offset <= |input|
        invariant ParseEntries(unicode, input, start, depth + 1, MAXIMUM_NESTING_DEPTH, length, None)
          == Prepend(entries,
               ParseEntries(unicode, input, offset, depth + 1, MAXIMUM_NESTING_DEPTH, length - i, previousKey))
        invariant reserved + i <= before + length + (offset - start)
        invariant |entries| == i && reserved == before + length + EntryElements(entries)
      {
        var keyStart := offset;
        ReserveBoundStep(depth, length, offset - start, |input| - offset, |input| - headOffset);
        EntriesTurnFrom(unicode, input, keyStart, depth + 1, MAXIMUM_NESTING_DEPTH, length - i, previousKey, entries);
        var key := DecodeItem(depth + 1);
        if key.Err? {
          return Err(key.error);
        }
        var keyBytes := input[keyStart..offset];
        KeyOrdered(previousKey, keyBytes, keyStart);
        if previousKey.Some? {
          if previousKey.value == keyBytes {
            ReserveSoFar(depth, length, offset - start, |input| - offset, |input| - headOffset);
            return Err(DuplicateMapKey(keyStart));
          }
          if !LexLess(previousKey.value, keyBytes) {
            ReserveSoFar(depth, length, offset - start, |input| - offset, |input| - headOffset);
            return Err(UnsortedMapKeys(keyStart));
          }
        }
        ReserveBoundStep(depth, length, offset - start, |input| - offset, |input| - headOffset);
        var value := DecodeItem(depth + 1);
        if value.Err? {
          return Err(value.error);
        }
        previousKey := Some(keyBytes);
        EntryElementsSnoc(entries, Entry(key.value, value.value));
        entries := entries + [Entry(key.value, value.value)];
      }
      EntriesEnd(unicode, input, offset, depth + 1, MAXIMUM_NESTING_DEPTH, previousKey, entries);
      return Ok(entries);
    }
  }

  /** The three ways a key can stand to the one before it. */
  lemma {:induction false} KeyOrdered(previous: Option<seq<byte>>, key: seq<byte>, at: nat)
    ensures previous.None? ==> KeyOrder(previous, key, at) == None
    ensures previous.Some? && previous.value == key ==> KeyOrder(previous, key, at) == Some(DuplicateMapKey(at))
    ensures previous.Some? && previous.value != key ==>
      KeyOrder(previous, key, at) == if LexLess(previous.value, key) then None else Some(UnsortedMapKeys(at))
  {
    hide LexLess;
    LexIrreflexive(key);
  }

  /** One turn of the item loop, with what was collected before it. */
  lemma {:induction false} ItemsTurn(u: Unicode, input: seq<byte>, at: nat, depth: nat, limit: nat, count: nat,
      done: seq<Value>)
    requires at <= |input| && count > 0
    ensures Prepend(done, ParseItems(u, input, at, depth, limit, count))
         == match ParseItem(u, input, at, depth, limit)
            case Failed(error) => Failed(error)
            case Parsed(item, next) => Prepend(done + [item], ParseItems(u, input, next, depth, limit, count - 1))
  {
    hide ParseItem;
    var item := ParseItem(u, input, at, depth, limit);
    if item.Parsed? {
      PrependOne(done, item.value, ParseItems(u, input, item.next, depth, limit, count - 1));
    }
  }

  lemma {:induction false} ItemsEnd(u: Unicode, input: seq<byte>, at: nat, depth: nat, limit: nat, done: seq<Value>)
    requires at <= |input|
    ensures Prepend(done, ParseItems(u, input, at, depth, limit, 0)) == Parsed(done, at)
  {
    PrependLast(done, at);
  }

  /** One turn of the entry loop, with what was collected before it. */
  lemma {:induction false} EntriesTurnFrom(u: Unicode, input: seq<byte>, at: nat, depth: nat, limit: nat, count: nat,
                                           previous: Option<seq<byte>>, done: seq<Entry>)
    requires at <= |input| && count > 0
    ensures Prepend(done, ParseEntries(u, input, at, depth, limit, count, previous))
         == match ParseItem(u, input, at, depth, limit)
            case Failed(error) => Failed(error)
            case Parsed(key, middle) =>
              match KeyOrder(previous, input[at..middle], at)
              case Some(error) => Failed(error)
              case None =>
                match ParseItem(u, input, middle, depth, limit)
                case Failed(error) => Failed(error)
                case Parsed(value, next) =>
                  Prepend(done + [Entry(key, value)],
                          ParseEntries(u, input, next, depth, limit, count - 1, Some(input[at..middle])))
  {
    hide ParseItem, LexLess;
    var key := ParseItem(u, input, at, depth, limit);
    if key.Parsed? {
      var value := ParseItem(u, input, key.next, depth, limit);
      if value.Parsed? {
        PrependOne(done, Entry(key.value, value.value),
                   ParseEntries(u, input, value.next, depth, limit, count - 1, Some(input[at..key.next])));
      }
    }
  }

  lemma {:induction false} EntriesEnd(u: Unicode, input: seq<byte>, at: nat, depth: nat, limit: nat,
                                      previous: Option<seq<byte>>, done: seq<Entry>)
    requires at <= |input|
    ensures Prepend(done, ParseEntries(u, input, at, depth, limit, 0, previous)) == Parsed(done, at)
  {
    PrependLast(done, at);
  }

  lemma {:induction false} SaturatingMulGrows(a: u64, b: u64)
    requires b >= 1
    ensures a <= SaturatingMul(a, b)
  {
  }

  lemma {:induction false} ReserveSoFar(depth: nat, reserved: nat, consumed: nat, left: nat, total: nat)
    requires depth <= MAXIMUM_NESTING_DEPTH && reserved <= consumed + left <= total
    ensures reserved + consumed <= ReserveBound(depth, total)
  {
    ReserveBoundStep(depth, reserved, consumed, left, total);
  }

  /**
   * `decode_canonical`. It reserves exactly the elements of what it accepts, fewer than the input has bytes, and below
   * 130 times the input length whatever happens.
   */
  method DecodeCanonical(u: Unicode, bytes: seq<byte>) returns (r: Result<Value>, ghost reserved: nat)
    ensures r == Decode(u, bytes)
    ensures r.Ok? ==> reserved == Elements(r.value) < |bytes|
    ensures reserved <= 130 * |bytes|
  {
    hide ParseItem;
    var decoder := new Decoder(u, bytes);
    var value := decoder.DecodeItem(0);
    reserved := decoder.reserved;
    if value.Err? {
      return Err(value.error), reserved;
    }
    if decoder.offset != |bytes| {
      return Err(TrailingBytes(|bytes| - decoder.offset)), reserved;
    }
    return value, reserved;
  }
}
