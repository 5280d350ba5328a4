/** Encodings and meanings correspond one to one, and encodings delimit themselves. */
module CborMeaning {
  import opened Bytes
  import opened Options
  import opened KeyedSort
  import opened CborValues
  import opened CborEncoding
  import opened CborParsing
  import opened CborInverse
  import opened CborTheorems

  // ---------------------------------------------------------------------------
  // Meaning
  // ---------------------------------------------------------------------------

  predicate IsInteger(v: Value) {
    v.Uint? || v.NegInt?
  }

  function IntegerOf(v: Value): int
    requires IsInteger(v)
  {
    if v.Uint? then v.unsigned else v.signed
  }

  /** Equal integers, strings and arrays; maps hold the same entries in any order. */
  ghost predicate SameMeaning(a: Value, b: Value)
    decreases a
  {
    match a
    case Bytes(bytes) => b == a
    case Text(utf8) => b == a
    case Null => b == a
    case Array(items) =>
      b.Array? && |items| == |b.items| && forall i :: 0 <= i < |items| ==> SameMeaning(items[i], b.items[i])
    case Map(entries) =>
      && b.Map?
      && (forall i :: 0 <= i < |entries| ==> HasTwin(entries[i], b.entries))
      && (forall j :: 0 <= j < |b.entries| ==> IsTwin(entries, b.entries[j]))
    case _ => IsInteger(b) && IntegerOf(a) == IntegerOf(b)
  }

  ghost predicate HasTwin(e: Entry, b: seq<Entry>)
    decreases e, 1
  {
    exists j :: 0 <= j < |b| && SameEntry(e, b[j])
  }

  ghost predicate IsTwin(a: seq<Entry>, f: Entry)
    decreases a
  {
    exists i :: 0 <= i < |a| && SameEntry(a[i], f)
  }

  ghost predicate SameEntry(e: Entry, f: Entry)
    decreases e, 0
  {
    SameMeaning(e.key, f.key) && SameMeaning(e.value, f.value)
  }

  lemma {:induction false} MeaningFixesBytes(u: Unicode, a: Value, b: Value)
    requires Encodable(u, a) && Encodable(u, b) && SameMeaning(a, b)
    requires Representable(u, a) && Representable(u, b)
    ensures Encode(a) == Encode(b)
    decreases a, 0
  {
    hide Encode, EncodeArgument, EncodeItems, EncodeEntries, Sort, Flatten, DistinctKeys, HasTwin, IsTwin;
    match a {
      case Array(items) =>
        ArrayBytes(items);
        ArrayBytes(b.items);
        MeaningFixesItems(u, items, b.items);
      case Map(entries) =>
        MapBytes(entries);
        MapBytes(b.entries);
        MeaningFixesEntries(u, entries, b.entries);
        SameSize(EncodeEntries(entries), EncodeEntries(b.entries));
      case _ =>
        MeaningFixesLeaf(a, b);
    }
  }

  lemma {:induction false} MeaningFixesLeaf(a: Value, b: Value)
    requires !a.Array? && !a.Map? && SameMeaning(a, b)
    ensures Encode(a) == Encode(b)
  {
    hide EncodeArgument, EncodeItems, EncodeEntries;
  }

  lemma {:induction false} MeaningFixesItems(u: Unicode, a: seq<Value>, b: seq<Value>)
    requires |a| == |b|
    requires forall i :: 0 <= i < |a| ==> Encodable(u, a[i]) && Encodable(u, b[i])
    requires forall i :: 0 <= i < |a| ==> Representable(u, a[i]) && Representable(u, b[i])
    requires forall i :: 0 <= i < |a| ==> SameMeaning(a[i], b[i])
    ensures EncodeItems(a) == EncodeItems(b)
    decreases a
  {
    hide Encode, Encodable, Representable, SameMeaning;
    if a != [] {
      MeaningFixesBytes(u, a[0], b[0]);
      MeaningFixesItems(u, a[1..], b[1..]);
    }
  }

  ghost predicate EntryAllowed(u: Unicode, e: Entry) {
    && Encodable(u, e.key) && Encodable(u, e.value)
    && Representable(u, e.key) && Representable(u, e.value)
  }

  lemma {:induction false} MeaningFixesEntries(u: Unicode, a: seq<Entry>, b: seq<Entry>)
    requires forall i :: 0 <= i < |a| ==> EntryAllowed(u, a[i])
    requires forall j :: 0 <= j < |b| ==> EntryAllowed(u, b[j])
    requires DistinctKeys(EncodeEntries(a)) && DistinctKeys(EncodeEntries(b))
    requires forall i :: 0 <= i < |a| ==> HasTwin(a[i], b)
    requires forall j :: 0 <= j < |b| ==> IsTwin(a, b[j])
    ensures Sort(EncodeEntries(a)) == Sort(EncodeEntries(b))
    decreases a, 1
  {
    hide Encode, SameEntry, HasTwin, IsTwin, DistinctKeys, Sort, EncodeEntries, EncodeEntry, EntryAllowed;
    var left, right := EncodeEntries(a), EncodeEntries(b);
    forall x ensures x in left <==> x in right {
      if x in left {
        var i :| 0 <= i < |left| && left[i] == x;
        TwinCode(u, a, i, b);
      }
      if x in right {
        var j :| 0 <= j < |right| && right[j] == x;
        TwinCodeBack(u, a, b, j);
      }
    }
    SortIgnoresOrder(left, right);
  }

  lemma {:induction false} TwinCode(u: Unicode, a: seq<Entry>, i: nat, b: seq<Entry>)
    requires i < |a| && EntryAllowed(u, a[i]) && HasTwin(a[i], b)
    requires forall j :: 0 <= j < |b| ==> EntryAllowed(u, b[j])
    ensures EncodeEntry(a[i]) in EncodeEntries(b)
    decreases a, 0, 1
  {
    hide EncodeEntries, EncodeEntry, SameEntry, EntryAllowed;
    var j :| 0 <= j < |b| && SameEntry(a[i], b[j]);
    MeaningFixesEntry(u, a, i, b[j]);
    assert EncodeEntries(b)[j] == EncodeEntry(a[i]);
  }

  lemma {:induction false} TwinCodeBack(u: Unicode, a: seq<Entry>, b: seq<Entry>, j: nat)
    requires j < |b| && EntryAllowed(u, b[j]) && IsTwin(a, b[j])
    requires forall i :: 0 <= i < |a| ==> EntryAllowed(u, a[i])
    ensures EncodeEntry(b[j]) in EncodeEntries(a)
    decreases a, 0, 1
  {
    hide EncodeEntries, EncodeEntry, SameEntry, EntryAllowed;
    var i :| 0 <= i < |a| && SameEntry(a[i], b[j]);
    MeaningFixesEntry(u, a, i, b[j]);
    assert EncodeEntries(a)[i] == EncodeEntry(b[j]);
  }

  lemma {:induction false} MeaningFixesEntry(u: Unicode, a: seq<Entry>, i: nat, f: Entry)
    requires i < |a| && EntryAllowed(u, a[i]) && EntryAllowed(u, f) && SameEntry(a[i], f)
    ensures EncodeEntry(a[i]) == EncodeEntry(f)
    decreases a, 0, 0
  {
    hide Encode, Encodable, Representable, SameMeaning;
    assert a decreases to a[i];
    MeaningFixesBytes(u, a[i].key, f.key);
    MeaningFixesBytes(u, a[i].value, f.value);
  }

  lemma {:induction false} SameSize<T>(xs: seq<Keyed<T>>, ys: seq<Keyed<T>>)
    requires Sort(xs) == Sort(ys)
    ensures |xs| == |ys|
  {
    assert |Sort(xs)| == |xs| && |Sort(ys)| == |ys|;
  }

  lemma {:induction false} CanonFixesMeaning(a: Value, b: Value)
    requires Canon(a) == Canon(b)
    ensures SameMeaning(a, b)
    decreases a, 0
  {
    hide Encode, Sort, CanonEntries, HasTwin, IsTwin;
    match a {
      case Array(items) =>
        assert b.Array?;
        forall i | 0 <= i < |items| ensures SameMeaning(items[i], b.items[i]) {
          assert CanonItems(items)[i] == CanonItems(b.items)[i];
          CanonFixesMeaning(items[i], b.items[i]);
        }
      case Map(entries) =>
        assert b.Map?;
        CanonFixesEntries(entries, b.entries);
      case _ =>
    }
  }

  lemma {:induction false} CanonFixesEntries(a: seq<Entry>, b: seq<Entry>)
    requires Items(Sort(CanonEntries(a))) == Items(Sort(CanonEntries(b)))
    ensures forall i :: 0 <= i < |a| ==> HasTwin(a[i], b)
    ensures forall j :: 0 <= j < |b| ==> IsTwin(a, b[j])
    decreases a, 1
  {
    hide Encode, Canon, SameMeaning, SameEntry, Sort, CanonEntries;
    var left, right := CanonEntries(a), CanonEntries(b);
    forall i | 0 <= i < |a| ensures HasTwin(a[i], b) {
      var j := SameItemIn(left, right, i);
      CanonFixesEntry(a, i, b[j]);
    }
    forall j | 0 <= j < |b| ensures IsTwin(a, b[j]) {
      var i := SameItemIn(right, left, j);
      CanonFixesEntry(a, i, b[j]);
    }
  }

  lemma {:induction false} CanonFixesEntry(a: seq<Entry>, i: nat, f: Entry)
    requires i < |a| && CanonEntry(a[i]).item == CanonEntry(f).item
    ensures SameEntry(a[i], f)
    decreases a, 0
  {
    hide Canon, SameMeaning;
    assert a decreases to a[i];
    CanonFixesMeaning(a[i].key, f.key);
    CanonFixesMeaning(a[i].value, f.value);
  }

  /** Lists that sort to the same items hold the same items. */
  lemma {:induction false} SameItemIn<T>(xs: seq<Keyed<T>>, ys: seq<Keyed<T>>, i: nat) returns (j: nat)
    requires i < |xs| && Items(Sort(xs)) == Items(Sort(ys))
    ensures j < |ys| && ys[j].item == xs[i].item
  {
    hide Sort;
    SortMembers(xs);
    SortMembers(ys);
    assert xs[i] in xs;
    var p :| 0 <= p < |Sort(xs)| && Sort(xs)[p] == xs[i];
    assert Items(Sort(ys))[p] == xs[i].item;
    assert Sort(ys)[p] in Sort(ys);
    j :| 0 <= j < |ys| && ys[j] == Sort(ys)[p];
  }

  lemma {:induction false} BytesFixCanon(u: Unicode, a: Value, b: Value)
    requires Encodable(u, a) && Representable(u, a) && Encodable(u, b) && Representable(u, b)
    requires Encode(a) <= Encode(b)
    ensures Canon(a) == Canon(b) && Encode(a) == Encode(b)
  {
    hide Encode, Canon, Encodable, Representable, ParseItem, NestsWithin;
    var m := NestingLevels(a);
    var n := NestingLevels(b);
    NestsWithinMonotone(a, m, m + n);
    NestsWithinMonotone(b, n, m + n);
    var input := Encode(b);
    assert input[0..|Encode(a)|] == Encode(a) && input[0..|input|] == input;
    EncodedParses(u, input, 0, 0, m + n, a);
    EncodedParses(u, input, 0, 0, m + n, b);
  }

  /**
   * Over encodable values of any depth, equal bytes, equal canonical forms and equal meanings are one
   * and the same thing; so reordering map entries at any level never changes the bytes.
   */
  lemma {:induction false} EncodingIsMeaning(u: Unicode, a: Value, b: Value)
    requires Encodable(u, a) && Representable(u, a) && Encodable(u, b) && Representable(u, b)
    ensures Encode(a) == Encode(b) <==> Canon(a) == Canon(b)
    ensures Encode(a) == Encode(b) <==> SameMeaning(a, b)
  {
    hide Encode, Canon, Encodable, Representable, SameMeaning;
    if Encode(a) == Encode(b) {
      BytesFixCanon(u, a, b);
      CanonFixesMeaning(a, b);
    }
    if Canon(a) == Canon(b) {
      CanonSameBytes(a);
      CanonSameBytes(b);
    }
    if SameMeaning(a, b) {
      MeaningFixesBytes(u, a, b);
    }
  }

  /** No encoding is a proper prefix of another. */
  lemma {:induction false} EncodingsArePrefixFree(u: Unicode, a: Value, b: Value)
    requires Encodable(u, a) && Representable(u, a) && Encodable(u, b) && Representable(u, b)
    ensures !(Encode(a) < Encode(b))
  {
    hide Encode, Canon, Encodable, Representable;
    if Encode(a) < Encode(b) {
      BytesFixCanon(u, a, b);
      assert false;
    }
  }

  // ---------------------------------------------------------------------------
  // Self-delimiting input
  // ---------------------------------------------------------------------------

  /** Anything after an accepted input is counted as trailing bytes. */
  lemma {:induction false} TrailingBytesRejected(u: Unicode, bytes: seq<byte>, extra: seq<byte>)
    requires Decode(u, bytes).Ok? && extra != []
    ensures Decode(u, bytes + extra) == Err(TrailingBytes(|extra|))
  {
    hide ParseItem, Encode, IsCanonical, NestsWithin, Canon, Validate, Representable;
    BytesAreCanonical(u, bytes);
    var v := Decode(u, bytes).value;
    assert (bytes + extra)[0..|bytes|] == bytes;
    ItemComplete(u, bytes + extra, 0, 0, MAXIMUM_NESTING_DEPTH, v);
  }

  /** The input stops inside `part`, having agreed with it so far. */
  ghost predicate Cut(input: seq<byte>, at: nat, part: seq<byte>) {
    at <= |input| < at + |part| && input[at..] == part[..|input| - at]
  }

  predicate RanOut<T>(r: Parsed<T>) {
    r.Failed? && (r.error.Truncated? || r.error.LengthOutOfRange?)
  }

  lemma {:induction false} CutConcat(input: seq<byte>, at: nat, left: seq<byte>, right: seq<byte>)
    requires Cut(input, at, left + right)
    ensures if At(input, at, left) then Cut(input, at + |left|, right) else Cut(input, at, left)
  {
    var whole := left + right;
    if |input| - at < |left| {
      assert whole[..|input| - at] == left[..|input| - at];
    } else {
      assert input[at..at + |left|] == input[at..][..|left|] == whole[..|left|] == left;
      assert input[at + |left|..] == input[at..][|left|..] == right[..|input| - at - |left|];
    }
  }

  lemma {:induction false} CutHead(input: seq<byte>, at: nat, majorType: nat, argument: u64)
    requires majorType < 8 && at < |input| && Cut(input, at, EncodeArgument(majorType, argument))
    ensures input[at] / 32 == majorType && RanOut(ReadArgument(input, at + 1, input[at] % 32, at))
  {
    assert input[at] == input[at..][0] == EncodeArgument(majorType, argument)[0];
  }

  lemma {:induction false} CutItem(u: Unicode, input: seq<byte>, at: nat, depth: nat, limit: nat, v: Value)
    requires IsCanonical(u, v) && NestsWithin(v, limit - depth)
    requires Cut(input, at, Encode(v))
    ensures RanOut(ParseItem(u, input, at, depth, limit))
    decreases v, 0
  {
    hide Encode, ParseItem, EncodeArgument, IsCanonical, NestsWithin, StrictlyAscending, ParseItems, ParseEntries;
    hide Cut, RanOut;
    DepthLeft(v, limit - depth);
    match v {
      case Array(items) =>
        ArrayParts(u, items, limit - depth);
        var head := EncodeArgument(4, |items|);
        ArrayBytes(items);
        CutConcat(input, at, head, EncodeItems(items));
        if At(input, at, head) {
          CutItems(u, input, at + |head|, depth + 1, limit, items);
          CutArray(u, input, at, depth, limit, items);
        } else {
          CutOpening(u, input, at, depth, limit, 4, |items|);
        }
      case Map(entries) =>
        MapParts(u, entries, limit - depth);
        var head, pairs := EncodeArgument(5, |entries|), EncodeEntries(entries);
        CutConcat(input, at, head, Flatten(pairs));
        if At(input, at, head) {
          NoFollower(pairs);
          CutEntries(u, input, at + |head|, depth + 1, limit, entries, None);
          CutMap(u, input, at, depth, limit, entries);
        } else {
          CutOpening(u, input, at, depth, limit, 5, |entries|);
        }
      case _ =>
        CutLeaf(u, input, at, depth, limit, v);
    }
  }

  lemma {:induction false} NoFollower(pairs: seq<Keyed<seq<byte>>>)
    ensures Follows(None, pairs)
  {
  }

  lemma {:induction false} CutOpening(u: Unicode, input: seq<byte>, at: nat, depth: nat, limit: nat,
      majorType: nat, argument: u64)
    requires majorType <= 5 && depth <= limit && Cut(input, at, EncodeArgument(majorType, argument))
    ensures RanOut(ParseItem(u, input, at, depth, limit))
  {
    hide EncodeArgument, ReadArgument, ParseContent;
    if at < |input| {
      CutHead(input, at, majorType, argument);
    }
  }

  lemma {:induction false} CutArray(u: Unicode, input: seq<byte>, at: nat, depth: nat, limit: nat, items: seq<Value>)
    requires |items| < TWO_TO_THE_64 && depth <= limit && At(input, at, EncodeArgument(4, |items|))
    requires RanOut(ParseItems(u, input, at + |EncodeArgument(4, |items|)|, depth + 1, limit, |items|))
    ensures RanOut(ParseItem(u, input, at, depth, limit))
  {
    hide EncodeArgument, ReadArgument, ParseItems;
    HeadComplete(input, at, 4, |items|);
  }

  lemma {:induction false} CutMap(u: Unicode, input: seq<byte>, at: nat, depth: nat, limit: nat, entries: seq<Entry>)
    requires |entries| < TWO_TO_THE_64 && depth <= limit && At(input, at, EncodeArgument(5, |entries|))
    requires RanOut(ParseEntries(u, input, at + |EncodeArgument(5, |entries|)|, depth + 1, limit, |entries|, None))
    ensures RanOut(ParseItem(u, input, at, depth, limit))
  {
    hide EncodeArgument, ReadArgument, ParseEntries;
    HeadComplete(input, at, 5, |entries|);
  }

  lemma {:induction false} CutLeaf(u: Unicode, input: seq<byte>, at: nat, depth: nat, limit: nat, v: Value)
    requires !v.Array? && !v.Map? && IsCanonical(u, v) && depth <= limit
    requires Cut(input, at, Encode(v))
    ensures RanOut(ParseItem(u, input, at, depth, limit))
  {
    hide ParseItems, ParseEntries, EncodeItems, EncodeEntries, ReadArgument, EncodeArgument;
    match v {
      case Uint(unsigned) =>
        CutOpening(u, input, at, depth, limit, 0, unsigned);
      case NegInt(signed) =>
        CutOpening(u, input, at, depth, limit, 1, -1 - signed);
      case Bytes(bytes) =>
        CutString(u, input, at, depth, limit, 2, bytes);
      case Text(utf8) =>
        CutString(u, input, at, depth, limit, 3, utf8);
      case Null =>
    }
  }

  lemma {:induction false} CutString(u: Unicode, input: seq<byte>, at: nat, depth: nat, limit: nat,
      majorType: nat, text: seq<byte>)
    requires 2 <= majorType <= 3 && |text| < TWO_TO_THE_64 && depth <= limit
    requires Cut(input, at, EncodeArgument(majorType, |text|) + text)
    ensures RanOut(ParseItem(u, input, at, depth, limit))
  {
    hide EncodeArgument, ReadArgument, ParseItems, ParseEntries;
    CutConcat(input, at, EncodeArgument(majorType, |text|), text);
    if At(input, at, EncodeArgument(majorType, |text|)) {
      HeadComplete(input, at, majorType, |text|);
    } else {
      CutOpening(u, input, at, depth, limit, majorType, |text|);
    }
  }

  lemma {:induction false} CutItems(u: Unicode, input: seq<byte>, at: nat, depth: nat, limit: nat, items: seq<Value>)
    requires forall i :: 0 <= i < |items| ==> IsCanonical(u, items[i]) && NestsWithin(items[i], limit - depth)
    requires Cut(input, at, EncodeItems(items))
    ensures RanOut(ParseItems(u, input, at, depth, limit, |items|))
    decreases items
  {
    hide ParseItem, Encode, IsCanonical, NestsWithin;
    if items != [] {
      CutConcat(input, at, Encode(items[0]), EncodeItems(items[1..]));
      if At(input, at, Encode(items[0])) {
        ItemComplete(u, input, at, depth, limit, items[0]);
        CutItems(u, input, at + |Encode(items[0])|, depth, limit, items[1..]);
      } else {
        CutItem(u, input, at, depth, limit, items[0]);
      }
    }
  }

  lemma {:induction false} CutEntries(u: Unicode, input: seq<byte>, at: nat, depth: nat, limit: nat,
                                      entries: seq<Entry>, previous: Option<seq<byte>>)
    requires forall i :: 0 <= i < |entries| ==> CanonicalEntry(u, entries[i], limit - depth)
    requires StrictlyAscending(EncodeEntries(entries)) && Follows(previous, EncodeEntries(entries))
    requires Cut(input, at, Flatten(EncodeEntries(entries)))
    ensures RanOut(ParseEntries(u, input, at, depth, limit, |entries|, previous))
    decreases entries
  {
    hide ParseItem, Encode, EncodeEntries, IsCanonical, NestsWithin, LexLess, Cut, StrictlyAscending, Follows;
    if entries == [] {
      NothingCut(input, at);
    } else {
      var e, pairs := entries[0], EncodeEntries(entries);
      var middle := at + |Encode(e.key)|;
      assert entries decreases to e;
      assert pairs[1..] == EncodeEntries(entries[1..]);
      FollowsUncons(previous, pairs);
      CutConcat(input, at, Encode(e.key) + Encode(e.value), Flatten(pairs[1..]));
      if At(input, at, Encode(e.key) + Encode(e.value)) {
        AtConcat(input, at, Encode(e.key), Encode(e.value));
        ItemComplete(u, input, at, depth, limit, e.key);
        ItemComplete(u, input, middle, depth, limit, e.value);
        CutEntries(u, input, middle + |Encode(e.value)|, depth, limit, entries[1..], Some(Encode(e.key)));
      } else {
        CutConcat(input, at, Encode(e.key), Encode(e.value));
        if At(input, at, Encode(e.key)) {
          ItemComplete(u, input, at, depth, limit, e.key);
          CutItem(u, input, middle, depth, limit, e.value);
        } else {
          CutItem(u, input, at, depth, limit, e.key);
        }
      }
    }
  }

  lemma {:induction false} NothingCut(input: seq<byte>, at: nat)
    ensures !Cut(input, at, Flatten(EncodeEntries([])))
  {
  }

  /** Every strict prefix of an accepted input is rejected because the input ran out, and for no other reason. */
  lemma {:induction false} StrictPrefixRejected(u: Unicode, bytes: seq<byte>, count: nat)
    requires Decode(u, bytes).Ok? && count < |bytes|
    ensures var r := Decode(u, bytes[..count]); r.Err? && (r.error.Truncated? || r.error.LengthOutOfRange?)
  {
    hide ParseItem, Encode, IsCanonical, NestsWithin, Canon, Validate, Representable;
    BytesAreCanonical(u, bytes);
    assert bytes[..count][0..] == bytes[..count];
    CutItem(u, bytes[..count], 0, 0, MAXIMUM_NESTING_DEPTH, Decode(u, bytes).value);
  }

  // ---------------------------------------------------------------------------
  // Reported offsets
  // ---------------------------------------------------------------------------

  /** A decoding error names a place between `low` and `high`. */
  predicate Locates(e: Error, low: nat, high: nat) {
    match e
    case TrailingBytes(_) => false
    case UnnormalizedTextInValue => false
    case DuplicateKeyInValue => false
    case _ => low <= e.offset <= high
  }

  lemma {:induction false} ItemErrorLocated(u: Unicode, input: seq<byte>, at: nat, depth: nat, limit: nat)
    requires at <= |input| && ParseItem(u, input, at, depth, limit).Failed?
    ensures Locates(ParseItem(u, input, at, depth, limit).error, at, |input|)
    decreases Levels(depth, limit), 0, 0
  {
    if depth <= limit && at < |input| && input[at] / 32 <= 5 {
      var head := ReadArgument(input, at + 1, input[at] % 32, at);
      if head.Parsed? {
        ContentErrorLocated(u, input, at, head.next, depth, limit, input[at] / 32, head.value);
      }
    }
  }

  lemma {:induction false} ContentErrorLocated(u: Unicode, input: seq<byte>, at: nat, start: nat, depth: nat,
      limit: nat,
                                               majorType: nat, argument: u64)
    requires at < start <= |input| && depth <= limit && majorType <= 5
    requires ParseContent(u, input, at, start, depth, limit, majorType, argument).Failed?
    ensures Locates(ParseContent(u, input, at, start, depth, limit, majorType, argument).error, at, |input|)
    decreases limit - depth, 2, 0
  {
    if majorType == 4 && ParseItems(u, input, start, depth + 1, limit, argument).Failed? {
      ItemsErrorLocated(u, input, start, depth + 1, limit, argument);
    }
    if majorType == 5 && ParseEntries(u, input, start, depth + 1, limit, argument, None).Failed? {
      EntriesErrorLocated(u, input, start, depth + 1, limit, argument, None);
    }
  }

  lemma {:induction false} ItemsErrorLocated(u: Unicode, input: seq<byte>, at: nat, depth: nat, limit: nat, count: nat)
    requires at <= |input| && ParseItems(u, input, at, depth, limit, count).Failed?
    ensures Locates(ParseItems(u, input, at, depth, limit, count).error, at, |input|)
    decreases Levels(depth, limit), 1, count
  {
    hide ParseItem;
    if count > 0 {
      var first := ParseItem(u, input, at, depth, limit);
      if first.Failed? {
        ItemErrorLocated(u, input, at, depth, limit);
      } else {
        ItemsErrorLocated(u, input, first.next, depth, limit, count - 1);
      }
    }
  }

  lemma {:induction false} EntriesErrorLocated(u: Unicode, input: seq<byte>, at: nat, depth: nat, limit: nat,
      count: nat,
                                               previous: Option<seq<byte>>)
    requires at <= |input| && ParseEntries(u, input, at, depth, limit, count, previous).Failed?
    ensures Locates(ParseEntries(u, input, at, depth, limit, count, previous).error, at, |input|)
    decreases Levels(depth, limit), 1, count
  {
    hide ParseItem;
    if count > 0 {
      var key := ParseItem(u, input, at, depth, limit);
      if key.Failed? {
        ItemErrorLocated(u, input, at, depth, limit);
      } else if KeyOrder(previous, input[at..key.next], at).None? {
        var value := ParseItem(u, input, key.next, depth, limit);
        if value.Failed? {
          ItemErrorLocated(u, input, key.next, depth, limit);
        } else {
          EntriesErrorLocated(u, input, value.next, depth, limit, count - 1, Some(input[at..key.next]));
        }
      }
    }
  }

  /** Every rejection either counts trailing bytes or names an offset inside the input. */
  lemma {:induction false} RejectionLocated(u: Unicode, bytes: seq<byte>)
    requires Decode(u, bytes).Err?
    ensures var e := Decode(u, bytes).error;
      if e.TrailingBytes? then 1 <= e.count < |bytes| else Locates(e, 0, |bytes|)
  {
    hide ParseItem;
    if ParseItem(u, bytes, 0, 0, MAXIMUM_NESTING_DEPTH).Failed? {
      ItemErrorLocated(u, bytes, 0, 0, MAXIMUM_NESTING_DEPTH);
    }
  }
}
