/** What the decoder accepts, as a function of the input, a position and the nesting depth. */
module CborParsing {
  import opened Bytes
  import opened Options
  import opened CborValues

  datatype Parsed<+T> = Parsed(value: T, next: nat) | Failed(error: Error)

  /** Puts what was already collected in front of what is still to be parsed. */
  function Prepend<T>(done: seq<T>, rest: Parsed<seq<T>>): Parsed<seq<T>> {
    match rest
    case Failed(error) => Failed(error)
    case Parsed(value, next) => Parsed(done + value, next)
  }

  lemma {:induction false} PrependNothing<T>(rest: Parsed<seq<T>>)
    ensures Prepend([], rest) == rest
  {
    if rest.Parsed? {
      assert [] + rest.value == rest.value;
    }
  }

  lemma {:induction false} PrependOne<T>(done: seq<T>, x: T, rest: Parsed<seq<T>>)
    ensures Prepend(done, Prepend([x], rest)) == Prepend(done + [x], rest)
  {
    if rest.Parsed? {
      assert done + ([x] + rest.value) == (done + [x]) + rest.value;
    }
  }

  lemma {:induction false} PrependLast<T>(done: seq<T>, next: nat)
    ensures Prepend(done, Parsed([], next)) == Parsed(done, next)
  {
    assert done + [] == done;
  }

  /** A big-endian argument of `width` bytes; values below `least` had a shorter form. */
  function ReadWide(input: seq<byte>, at: nat, width: nat, least: nat, headOffset: nat): (r: Parsed<u64>)
    requires at <= |input| && (width == 1 || width == 2 || width == 4 || width == 8)
    ensures r.Parsed? ==> r.next == at + width <= |input| && least <= r.value
  {
    if |input| - at < width then Failed(Truncated(width - (|input| - at), at))
    else
      var digits := input[at..at + width];
      var argument: u64 := (FromBeBound(digits); Pow256Widths(); FromBe(digits));
      if argument < least then Failed(NonMinimalArgument(argument, width, headOffset))
      else Parsed(argument, at + width)
  }

  function ReadArgument(input: seq<byte>, at: nat, additional: nat, headOffset: nat): (r: Parsed<u64>)
    requires at <= |input|
    ensures r.Parsed? ==> at <= r.next <= |input|
  {
    if additional <= 23 then Parsed(additional, at)
    else if additional == 24 then ReadWide(input, at, 1, 24, headOffset)
    else if additional == 25 then ReadWide(input, at, 2, 0x100, headOffset)
    else if additional == 26 then ReadWide(input, at, 4, 0x1_0000, headOffset)
    else if additional == 27 then ReadWide(input, at, 8, 0x1_0000_0000, headOffset)
    else if additional == 31 then Failed(IndefiniteLength(headOffset))
    else Failed(ReservedAdditionalInformation(additional, headOffset))
  }

  /** One item at `at`; `depth` counts the containers around it. */
  function ParseItem(u: Unicode, input: seq<byte>, at: nat, depth: nat, limit: nat): (r: Parsed<Value>)
    requires at <= |input|
    ensures r.Parsed? ==> at < r.next <= |input|
    decreases Levels(depth, limit), 0, 0
  {
    if depth > limit then Failed(DepthLimitExceeded(limit, at))
    else if at == |input| then Failed(Truncated(1, at))
    else
      var majorType, additional := input[at] / 32, input[at] % 32;
      if majorType == 6 then Failed(TagNotAllowed(at))
      else if majorType == 7 then
        if additional == 22 then Parsed(Null, at + 1) else Failed(UnsupportedSimpleValue(additional, at))
      else
        match ReadArgument(input, at + 1, additional, at)
        case Failed(error) => Failed(error)
        case Parsed(argument, start) => ParseContent(u, input, at, start, depth, limit, majorType, argument)
  }

  function Levels(depth: nat, limit: nat): nat {
    if depth <= limit then limit + 1 - depth else 0
  }

  /** What follows the head of an item of major type 0 to 5. */
  function ParseContent(u: Unicode, input: seq<byte>, at: nat, start: nat, depth: nat, limit: nat,
                        majorType: nat, argument: u64): (r: Parsed<Value>)
    requires at < start <= |input| && depth <= limit && majorType <= 5
    ensures r.Parsed? ==> start <= r.next <= |input|
    decreases limit - depth, 2, 0
  {
    match majorType
    case 0 => Parsed(Uint(argument), start)
    case 1 =>
      if argument >= TWO_TO_THE_63 then Failed(NegativeIntegerOutOfRange(at))
      else Parsed(NegInt(-1 - argument), start)
    case 2 =>
      if argument > |input| - start then Failed(LengthOutOfRange(argument, at))
      else Parsed(Bytes(input[start..start + argument]), start + argument)
    case 3 =>
      if argument > |input| - start then Failed(LengthOutOfRange(argument, at))
      else
        var utf8 := input[start..start + argument];
        if !u.validUtf8(utf8) then Failed(InvalidUtf8(at))
        else if !u.isNfc(utf8) then Failed(NotNormalizedNfc(at))
        else Parsed(Text(utf8), start + argument)
    case 4 =>
      if SaturatingMul(argument, 1) > |input| - start then Failed(LengthOutOfRange(argument, at))
      else (
        match ParseItems(u, input, start, depth + 1, limit, argument)
        case Failed(error) => Failed(error)
        case Parsed(items, next) => Parsed(Array(items), next))
    case _ =>
      if SaturatingMul(argument, 2) > |input| - start then Failed(LengthOutOfRange(argument, at))
      else
        match ParseEntries(u, input, start, depth + 1, limit, argument, None)
        case Failed(error) => Failed(error)
        case Parsed(entries, next) => Parsed(Map(entries), next)
  }

  function ParseItems(u: Unicode, input: seq<byte>, at: nat, depth: nat, limit: nat, count: nat)
    : (r: Parsed<seq<Value>>)
    requires at <= |input|
    ensures r.Parsed? ==> at <= r.next <= |input| && |r.value| == count
    decreases Levels(depth, limit), 1, count
  {
    if count == 0 then Parsed([], at)
    else
      match ParseItem(u, input, at, depth, limit)
      case Failed(error) => Failed(error)
      case Parsed(first, middle) =>
        match ParseItems(u, input, middle, depth, limit, count - 1)
        case Failed(error) => Failed(error)
        case Parsed(rest, next) => Parsed([first] + rest, next)
  }

  /** Whether the key bytes at `at` may follow `previous`; the error otherwise. */
  function KeyOrder(previous: Option<seq<byte>>, key: seq<byte>, at: nat): Option<Error> {
    match previous
    case None => None
    case Some(last) =>
      if LexLess(last, key) then None
      else if last == key then Some(DuplicateMapKey(at))
      else Some(UnsortedMapKeys(at))
  }

  function ParseEntries(u: Unicode, input: seq<byte>, at: nat, depth: nat, limit: nat, count: nat,
                        previous: Option<seq<byte>>): (r: Parsed<seq<Entry>>)
    requires at <= |input|
    ensures r.Parsed? ==> at <= r.next <= |input| && |r.value| == count
    decreases Levels(depth, limit), 1, count
  {
    if count == 0 then Parsed([], at)
    else
      match ParseItem(u, input, at, depth, limit)
      case Failed(error) => Failed(error)
      case Parsed(key, middle) =>
        match KeyOrder(previous, input[at..middle], at)
        case Some(error) => Failed(error)
        case None =>
          match ParseItem(u, input, middle, depth, limit)
          case Failed(error) => Failed(error)
          case Parsed(value, after) =>
            match ParseEntries(u, input, after, depth, limit, count - 1, Some(input[at..middle]))
            case Failed(error) => Failed(error)
            case Parsed(rest, next) => Parsed([Entry(key, value)] + rest, next)
  }

  /** `decode_canonical`: exactly one item and nothing after it. */
  function Decode(u: Unicode, input: seq<byte>): Result<Value> {
    match ParseItem(u, input, 0, 0, MAXIMUM_NESTING_DEPTH)
    case Failed(error) => Err(error)
    case Parsed(value, next) => if next != |input| then Err(TrailingBytes(|input| - next)) else Ok(value)
  }
}
