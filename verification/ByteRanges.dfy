/** Ranged downloads of a buffered export body, and what a client can stitch from them. */
module ByteRanges {
  import opened Bytes
  import opened Numerals
  import opened Trimming
  import opened Options

  // ---------------------------------------------------------------------------
  // Header text
  // ---------------------------------------------------------------------------

  /** A number of section 2.1 of RFC 7233: one or more digits, however many and however large. */
  predicate IsNumber(s: string) {
    s != [] && AllDigits(s)
  }

  /** `str::parse::<usize>`: an optional `+`, at least one digit, no overflow. */
  function ParseUsize(s: string): Option<nat> {
    var digits := if s != [] && s[0] == '+' then s[1..] else s;
    if IsNumber(digits) && Value(digits) < TWO_TO_THE_64 then Some(Value(digits)) else None
  }

  /** The position of the first `-`, or the length. */
  function DashAt(s: string): (at: nat)
    ensures at <= |s|
    ensures forall i :: 0 <= i < at ==> s[i] != '-'
    ensures at < |s| ==> s[at] == '-'
  {
    if s == [] || s[0] == '-' then 0 else 1 + DashAt(s[1..])
  }

  const UNIT: string := "bytes="

  /** A header for one range, from the texts on either side of its dash. */
  function Header(startText: string, endText: string): string {
    UNIT + (startText + ['-'] + endText)
  }

  /** The texts around the first dash, if the unit is right, there is a dash and there is no comma. */
  function Split(header: string): Option<(string, string)> {
    if !(UNIT <= header) then None
    else
      var spec := header[|UNIT|..];
      var at := DashAt(spec);
      if ',' in spec || at == |spec| then None else Some((spec[..at], spec[at + 1..]))
  }

  lemma {:induction false} SplitHeader(startText: string, endText: string)
    requires '-' !in startText && ',' !in startText && ',' !in endText
    ensures Split(Header(startText, endText)) == Some((startText, endText))
  {
    hide DashAt;
    var spec := startText + ['-'] + endText;
    var header := Header(startText, endText);
    assert UNIT <= header && header[|UNIT|..] == spec && ',' !in spec;
    assert DashAt(spec) == |startText| by {
      assert spec[|startText|] == '-';
      assert forall i :: 0 <= i < |startText| ==> spec[i] == startText[i] && startText[i] in startText;
    }
    assert spec[..|startText|] == startText && spec[|startText| + 1..] == endText;
  }

  // ---------------------------------------------------------------------------
  // Range decision
  // ---------------------------------------------------------------------------

  datatype ByteRange = Satisfiable(start: nat, end: nat) | Unsatisfiable

  /** `parse_single_byte_range`: `None` means the range is not honoured and the full body is served. */
  function ParseSingleByteRange(header: string, total: nat): (r: Option<ByteRange>)
    ensures r.Some? && r.value.Satisfiable? ==> r.value.start <= r.value.end < total
  {
    match Split(header)
    case None => None
    case Some((startText, endText)) =>
      if total == 0 then Some(Unsatisfiable)
      else
        var last := total - 1;
        if startText == [] then
          match ParseUsize(endText)
          case None => None
          case Some(suffix) =>
            if suffix == 0 then Some(Unsatisfiable)
            else Some(Satisfiable(SaturatingSub(last, suffix - 1), last))
        else
          match ParseUsize(startText)
          case None => None
          case Some(start) =>
            if start > last then Some(Unsatisfiable)
            else if endText == [] then Some(Satisfiable(start, last))
            else
              match ParseUsize(endText)
              case None => None
              case Some(end) =>
                var clamped := if end <= last then end else last;
                if clamped < start then None else Some(Satisfiable(start, clamped))
  }

  function SaturatingSub(a: nat, b: nat): nat {
    if a >= b then a - b else 0
  }

  // ---------------------------------------------------------------------------
  // The grammar of section 2.1 of RFC 7233
  // ---------------------------------------------------------------------------

  /** The three forms, with their numbers as written. */
  datatype RangeForm = FirstLast(first: string, last: string) | From(first: string) | Suffix(count: string)

  /** Numbers are digits, and a last position is not before the first. */
  predicate Grammatical(form: RangeForm) {
    match form
    case FirstLast(first, last) => IsNumber(first) && IsNumber(last) && Value(first) <= Value(last)
    case From(first) => IsNumber(first)
    case Suffix(count) => IsNumber(count)
  }

  function Texts(form: RangeForm): (string, string) {
    match form
    case FirstLast(first, last) => (first, last)
    case From(first) => (first, [])
    case Suffix(count) => ([], count)
  }

  function Render(form: RangeForm): string {
    Header(Texts(form).0, Texts(form).1)
  }

  ghost predicate WellFormed(header: string) {
    exists form :: Grammatical(form) && Render(form) == header
  }

  /** Whether the form asks for the byte at `position` of a body of length `total`. */
  predicate Asks(form: RangeForm, total: nat, position: nat)
    requires Grammatical(form)
  {
    position < total &&
    match form
    case FirstLast(first, last) => Value(first) <= position <= Value(last)
    case From(first) => Value(first) <= position
    case Suffix(count) => total <= position + Value(count)
  }

  /** The decision selects exactly the bytes asked for. */
  ghost predicate Selects(r: Option<ByteRange>, form: RangeForm, total: nat)
    requires Grammatical(form)
  {
    match r
    case None => false
    case Some(Unsatisfiable) => forall position: nat :: !Asks(form, total, position)
    case Some(Satisfiable(start, end)) =>
      forall position: nat :: Asks(form, total, position) <==> start <= position <= end
  }

  /** Every number the decision gets to read fits in 64 bits; past the end, the last position is not read. */
  predicate Readable(form: RangeForm, total: nat)
    requires Grammatical(form)
  {
    total == 0 ||
    match form
    case FirstLast(first, last) =>
      Value(first) < TWO_TO_THE_64 && (total <= Value(first) || Value(last) < TWO_TO_THE_64)
    case From(first) => Value(first) < TWO_TO_THE_64
    case Suffix(count) => Value(count) < TWO_TO_THE_64
  }

  lemma {:induction false} NumberText(s: string)
    requires AllDigits(s)
    ensures '-' !in s && ',' !in s
    ensures s == [] || s[0] != '+'
  {
    assert forall i :: 0 <= i < |s| ==> IsDigit(s[i]);
  }

  lemma {:induction false} SplitRender(form: RangeForm)
    requires Grammatical(form)
    ensures Split(Render(form)) == Some(Texts(form))
  {
    hide Split, Value;
    var (startText, endText) := Texts(form);
    NumberText(startText);
    NumberText(endText);
    SplitHeader(startText, endText);
  }

  /**
   * Every well-formed first-last, open and suffix form, with numbers of any length, selects exactly the bytes it
   * asks for if and only if the numbers read on the way fit in 64 bits; otherwise the full body is served.
   */
  lemma {:induction false} FormSelectsItsBytes(form: RangeForm, total: nat)
    requires Grammatical(form)
    ensures Selects(ParseSingleByteRange(Render(form), total), form, total) <==> Readable(form, total)
    ensures !Readable(form, total) ==> ParseSingleByteRange(Render(form), total) == None
  {
    hide Split, Value, Render;
    SplitRender(form);
    NumberText(Texts(form).0);
    NumberText(Texts(form).1);
    var r := ParseSingleByteRange(Render(form), total);
    if Readable(form, total) && r == Some(Unsatisfiable) {
      assert forall position: nat :: !Asks(form, total, position);
    }
  }

  // ---------------------------------------------------------------------------
  // Malformed headers
  // ---------------------------------------------------------------------------

  /** The number as written, or with a plus sign in front. */
  predicate Spells(text: string, number: string) {
    text == number || (number != [] && text == ['+'] + number)
  }

  /** The header is the form's, but for plus signs in front of its numbers. */
  predicate SpellsForm(header: string, form: RangeForm) {
    Split(header).Some?
    && Spells(Split(header).value.0, Texts(form).0) && Spells(Split(header).value.1, Texts(form).1)
  }

  predicate AsksSomething(form: RangeForm, total: nat)
    requires Grammatical(form)
  {
    total > 0 &&
    match form
    case FirstLast(first, _) => Value(first) < total
    case From(first) => Value(first) < total
    case Suffix(count) => Value(count) > 0
  }

  /** The header spells, plus signs aside, a form that the decision can read and that asks for some byte. */
  predicate Tolerated(header: string, form: RangeForm, total: nat) {
    Grammatical(form) && SpellsForm(header, form) && Readable(form, total) && AsksSomething(form, total)
  }

  /** The text reads as a number at or past the end of the body. */
  predicate PastEnd(text: string, total: nat) {
    ParseUsize(text).Some? && total <= ParseUsize(text).value
  }

  /**
   * What the decision looks at before it has seen that the header is malformed: an empty body, a first position
   * at or past the end, or a suffix of length zero.
   */
  predicate RefusedEarly(header: string, total: nat) {
    match Split(header)
    case None => false
    case Some((startText, endText)) =>
      total == 0 || PastEnd(startText, total) || (startText == [] && ParseUsize(endText) == Some(0))
  }

  /** A text that reads as a number is that number's digits, perhaps after a plus sign. */
  lemma {:induction false} ParsedText(text: string) returns (number: string)
    requires ParseUsize(text).Some?
    ensures IsNumber(number) && Spells(text, number) && ParseUsize(text) == Some(Value(number))
    ensures Value(number) < TWO_TO_THE_64
  {
    hide Value;
    number := if text[0] == '+' then text[1..] else text;
    assert text[0] == '+' ==> text == ['+'] + number;
  }

  lemma {:induction false} SpelledNumber(text: string, number: string)
    requires IsNumber(number) && Spells(text, number)
    ensures text != []
    ensures ParseUsize(text) == if Value(number) < TWO_TO_THE_64 then Some(Value(number)) else None
  {
    hide Value;
    NumberText(number);
    if text != number {
      assert text[1..] == number;
    }
  }

  /** A tolerated header is decided as its form would be. */
  lemma {:induction false} ToleratedSelects(header: string, form: RangeForm, total: nat)
    requires Tolerated(header, form, total)
    ensures var r := ParseSingleByteRange(header, total);
      r.Some? && r.value.Satisfiable? && Selects(r, form, total)
  {
    hide Split, Value, ParseUsize, Spells;
    var (startText, endText) := Split(header).value;
    var (first, last) := Texts(form);
    if first == [] {
      assert startText == [] by {
        SpelledNothing(startText);
      }
      SpelledNumber(endText, last);
    } else {
      SpelledNumber(startText, first);
      if last == [] {
        SpelledNothing(endText);
      } else {
        SpelledNumber(endText, last);
      }
    }
  }

  lemma {:induction false} SpelledNothing(text: string)
    ensures Spells(text, []) <==> text == []
  {
  }

  /** Whatever is served in part is, plus signs aside, a form the decision can read. */
  lemma {:induction false} ServedIsTolerated(header: string, total: nat) returns (form: RangeForm)
    requires var r := ParseSingleByteRange(header, total); r.Some? && r.value.Satisfiable?
    ensures Tolerated(header, form, total)
  {
    hide Split, Value, ParseUsize, Spells;
    var (startText, endText) := Split(header).value;
    SpelledNothing([]);
    if startText == [] {
      var count := ParsedText(endText);
      form := Suffix(count);
    } else {
      var first := ParsedText(startText);
      if endText == [] {
        form := From(first);
      } else {
        var last := ParsedText(endText);
        form := FirstLast(first, last);
      }
    }
  }

  /** A header is answered 416 exactly when it is refused early. */
  lemma {:induction false} RefusedExactly(header: string, total: nat)
    ensures ParseSingleByteRange(header, total) == Some(Unsatisfiable) <==> RefusedEarly(header, total)
  {
    hide Split, ParseUsize;
    NothingReads();
  }

  lemma {:induction false} NothingReads()
    ensures ParseUsize([]) == None
  {
  }

  /** A malformed header gets part of the body exactly when its only defect is a plus sign before a number. */
  lemma {:induction false} MalformedServedExactly(header: string, total: nat)
    requires !WellFormed(header)
    ensures var r := ParseSingleByteRange(header, total);
      (r.Some? && r.value.Satisfiable?) <==> exists form :: Tolerated(header, form, total)
    ensures forall form :: Tolerated(header, form, total) ==>
      Selects(ParseSingleByteRange(header, total), form, total) && Render(form) != header
  {
    hide ParseSingleByteRange, Selects, SpellsForm, Readable, AsksSomething;
    var r := ParseSingleByteRange(header, total);
    if r.Some? && r.value.Satisfiable? {
      var form := ServedIsTolerated(header, total);
    }
    forall form | Tolerated(header, form, total)
      ensures Selects(r, form, total) && Render(form) != header && r.Some? && r.value.Satisfiable?
    {
      ToleratedSelects(header, form, total);
    }
  }

  /** What is promised: a well-formed range selects its bytes, and anything malformed gets the full body. */
  ghost predicate Promised(r: Option<ByteRange>, header: string, total: nat) {
    if WellFormed(header) then exists form :: Grammatical(form) && Render(form) == header && Selects(r, form, total)
    else r == None
  }

  /** The header is well-formed and every number read on the way fits in 64 bits. */
  ghost predicate ReadableHeader(header: string, total: nat) {
    exists form :: Grammatical(form) && Render(form) == header && Readable(form, total)
  }

  /**
   * The promise is kept exactly on well-formed headers whose numbers can be read, and on malformed ones that are
   * neither refused before their defect is seen nor tolerated for a plus sign.
   */
  lemma {:induction false} PromiseKeptExactly(header: string, total: nat)
    ensures Promised(ParseSingleByteRange(header, total), header, total) <==>
      if WellFormed(header) then ReadableHeader(header, total)
      else !RefusedEarly(header, total) && !exists form :: Tolerated(header, form, total)
  {
    hide ParseSingleByteRange, Selects, Readable, RefusedEarly, Tolerated, Render;
    var r := ParseSingleByteRange(header, total);
    if WellFormed(header) {
      forall form | Grammatical(form) && Render(form) == header
        ensures Selects(r, form, total) <==> Readable(form, total)
      {
        FormSelectsItsBytes(form, total);
      }
    } else {
      MalformedServedExactly(header, total);
      RefusedExactly(header, total);
    }
  }

  /** Well-formedness read off the two texts. */
  predicate WellFormedTexts(startText: string, endText: string) {
    || (startText == [] && IsNumber(endText))
    || (IsNumber(startText) && endText == [])
    || (IsNumber(startText) && IsNumber(endText) && Value(startText) <= Value(endText))
  }

  lemma {:induction false} MalformedTexts(startText: string, endText: string)
    requires '-' !in startText && ',' !in startText && ',' !in endText && !WellFormedTexts(startText, endText)
    ensures !WellFormed(Header(startText, endText))
  {
    hide Split, Value, Header;
    SplitHeader(startText, endText);
    forall form | Grammatical(form) ensures Render(form) != Header(startText, endText) {
      SplitRender(form);
    }
  }

  /** Malformed on a body of three bytes, and answered 416: a last position that is no number or comes too early. */
  lemma {:induction false} MalformedRefused()
    ensures !WellFormed(Header("9", "zz")) && ParseSingleByteRange(Header("9", "zz"), 3) == Some(Unsatisfiable)
    ensures !WellFormed(Header("5", "2")) && ParseSingleByteRange(Header("5", "2"), 3) == Some(Unsatisfiable)
    ensures !WellFormed(Header("zz", "")) && ParseSingleByteRange(Header("zz", ""), 0) == Some(Unsatisfiable)
  {
    hide Split, WellFormed, Header;
    assert !IsDigit("zz"[0]);
    DigitReads('9');
    DigitReads('5');
    DigitReads('2');
    SplitHeader("9", "zz");
    SplitHeader("5", "2");
    SplitHeader("zz", "");
    MalformedTexts("9", "zz");
    MalformedTexts("5", "2");
    MalformedTexts("zz", "");
  }

  lemma {:induction false} DigitReads(c: char)
    requires IsDigit(c)
    ensures IsNumber([c]) && Value([c]) == DigitValue(c) && ParseUsize([c]) == Some(DigitValue(c))
  {
    assert [c][..0] == [];
  }

  /** Malformed, and served in part: plus signs before the numbers. */
  lemma {:induction false} PlusServed()
    ensures !WellFormed(Header("+0", "+1")) && ParseSingleByteRange(Header("+0", "+1"), 3) == Some(Satisfiable(0, 1))
  {
    hide Split, WellFormed, Header;
    assert !IsDigit("+0"[0]);
    DigitReads('0');
    DigitReads('1');
    SplitHeader("+0", "+1");
    SpelledNumber("+0", "0");
    SpelledNumber("+1", "1");
    MalformedTexts("+0", "+1");
  }

  /** Well-formed, asking for the first byte of any body that has one, and not honoured: a last position of 2^64. */
  lemma {:induction false} HugeLastDeclined(total: nat)
    requires total > 0
    ensures var form := FirstLast("0", Decimal(TWO_TO_THE_64));
      && Grammatical(form) && Asks(form, total, 0)
      && ParseSingleByteRange(Render(form), total) == None
  {
    hide Decimal, ParseSingleByteRange;
    DigitReads('0');
    DecimalReads(TWO_TO_THE_64);
    FormSelectsItsBytes(FirstLast("0", Decimal(TWO_TO_THE_64)), total);
  }

  // ---------------------------------------------------------------------------
  // Responses
  // ---------------------------------------------------------------------------

  datatype RangeRequest = RangeRequest(range: Option<string>, ifRange: Option<string>)

  datatype Status = Ok | PartialContent | RangeNotSatisfiable

  /** `etag` and `total` go out with every response that has a range line. */
  datatype Response = Response(status: Status, body: seq<byte>, etag: string, start: nat, end: nat, total: nat)

  /** Header text holds only visible ASCII, spaces and tabs. */
  predicate IsBlank(c: char) {
    c == ' ' || c == '\t'
  }

  /** The response to one request for a body; `tag` is the strong entity tag. */
  function Respond(tag: seq<byte> -> string, body: seq<byte>, request: RangeRequest): (r: Response)
    ensures r.etag == tag(body)
  {
    var total, etag := |body|, tag(body);
    var range := if request.ifRange.Some? && Trim(IsBlank, request.ifRange.value) != etag then None else request.range;
    var decision := if range.Some? then ParseSingleByteRange(range.value, total) else None;
    match decision
    case Some(Satisfiable(start, end)) => Response(PartialContent, body[start..end + 1], etag, start, end, total)
    case Some(Unsatisfiable) => Response(RangeNotSatisfiable, [], etag, 0, 0, total)
    case None => Response(Ok, body, etag, 0, 0, total)
  }

  /** A range is asked for, and no validator stands against it. */
  predicate Considered(tag: seq<byte> -> string, body: seq<byte>, request: RangeRequest) {
    && request.range.Some?
    && (request.ifRange.Some? ==> Trim(IsBlank, request.ifRange.value) == tag(body))
  }

  /** What each status carries: the whole body, nothing, or the bytes the content range names. */
  lemma {:induction false} StatusCarries(tag: seq<byte> -> string, body: seq<byte>, request: RangeRequest)
    ensures var r := Respond(tag, body, request);
      && r.total == |body|
      && (r.status == Ok ==> r.body == body)
      && (r.status == RangeNotSatisfiable ==> r.body == [])
      && (r.status == PartialContent ==> r.start <= r.end < |body| && r.body == body[r.start..r.end + 1])
  {
    hide ParseSingleByteRange, Trim;
  }

  /** Without a range, or under a validator that is not the current tag, the whole body is served. */
  lemma {:induction false} UnconsideredGetsBody(tag: seq<byte> -> string, body: seq<byte>, request: RangeRequest)
    requires !Considered(tag, body, request)
    ensures Respond(tag, body, request).status == Ok && Respond(tag, body, request).body == body
  {
    hide ParseSingleByteRange, Trim;
  }

  /**
   * A well-formed range that is considered gets exactly the bytes it asks for, or 416 when there are none, if its
   * numbers can be read, and the whole body otherwise.
   */
  lemma {:induction false} WellFormedGetsBytes(tag: seq<byte> -> string, body: seq<byte>, request: RangeRequest,
      form: RangeForm)
    requires Considered(tag, body, request) && Grammatical(form) && request.range == Some(Render(form))
    ensures var r := Respond(tag, body, request);
      && (!Readable(form, |body|) ==> r.status == Ok)
      && (Readable(form, |body|) && (exists p: nat :: Asks(form, |body|, p)) ==>
            r.status == PartialContent && forall p: nat :: Asks(form, |body|, p) <==> r.start <= p <= r.end)
      && (Readable(form, |body|) && (forall p: nat :: !Asks(form, |body|, p)) ==> r.status == RangeNotSatisfiable)
  {
    hide ParseSingleByteRange, Trim, Asks, Readable, Render;
    FormSelectsItsBytes(form, |body|);
    var decision := ParseSingleByteRange(Render(form), |body|);
    if decision.Some? && decision.value.Satisfiable? {
      assert Readable(form, |body|) ==> Asks(form, |body|, decision.value.start);
    }
  }

  /** A malformed range that is considered: 206 for a plus sign, 416 when refused early, else the whole body. */
  lemma {:induction false} MalformedGetsStatus(tag: seq<byte> -> string, body: seq<byte>, request: RangeRequest)
    requires Considered(tag, body, request) && !WellFormed(request.range.value)
    ensures var r, header := Respond(tag, body, request), request.range.value;
      && (r.status == PartialContent <==> exists form :: Tolerated(header, form, |body|))
      && (r.status == RangeNotSatisfiable <==> RefusedEarly(header, |body|))
  {
    hide ParseSingleByteRange, Trim, Tolerated, RefusedEarly, WellFormed, Selects;
    MalformedServedExactly(request.range.value, |body|);
    RefusedExactly(request.range.value, |body|);
  }

  /** One request and the body it found; the body may differ from request to request. */
  datatype Exchange = Exchange(body: seq<byte>, request: RangeRequest)

  ghost predicate Injective(tag: seq<byte> -> string) {
    forall a, b :: tag(a) == tag(b) ==> a == b
  }

  /** The client asked for a range under `If-Range: validator` and got a partial body. */
  predicate IsPart(tag: seq<byte> -> string, x: Exchange, validator: string) {
    && x.request.ifRange.Some? && Trim(IsBlank, x.request.ifRange.value) == validator
    && Respond(tag, x.body, x.request).status == PartialContent
  }

  /** A partial body obtained under `If-Range` is a slice of a body with that very tag. */
  lemma {:induction false} PartHasTag(tag: seq<byte> -> string, x: Exchange, validator: string)
    requires IsPart(tag, x, validator)
    ensures var r := Respond(tag, x.body, x.request);
      && tag(x.body) == validator == r.etag
      && r.start <= r.end < r.total == |x.body|
      && r.body == x.body[r.start..r.end + 1]
  {
    hide ParseSingleByteRange, Trim;
  }

  /** `assembled` carries every received part at the place its `Content-Range` names. */
  ghost predicate Assembles(tag: seq<byte> -> string, run: seq<Exchange>, validator: string, assembled: seq<byte>) {
    forall i :: 0 <= i < |run| && IsPart(tag, run[i], validator) ==>
      var r := Respond(tag, run[i].body, run[i].request);
      && r.total == |assembled| && |r.body| == r.end + 1 - r.start
      && forall p :: r.start <= p <= r.end && p < |assembled| ==> assembled[p] == r.body[p - r.start]
  }

  /** Every position lies in some received part. */
  ghost predicate Covers(tag: seq<byte> -> string, run: seq<Exchange>, validator: string, total: nat) {
    forall p: nat :: p < total ==> SuppliedBy(tag, run, validator, p)
  }

  ghost predicate SuppliedBy(tag: seq<byte> -> string, run: seq<Exchange>, validator: string, p: nat) {
    exists i :: 0 <= i < |run| && Supplies(tag, run[i], validator, p)
  }

  predicate Supplies(tag: seq<byte> -> string, x: Exchange, validator: string, p: nat) {
    IsPart(tag, x, validator) && var r := Respond(tag, x.body, x.request); r.start <= p <= r.end
  }

  /**
   * Across any run in which the body changes between requests, parts obtained under one `If-Range`
   * validator that cover a whole length reassemble exactly the one body with that tag.
   */
  lemma {:induction false} StitchingIsFaithful(tag: seq<byte> -> string, run: seq<Exchange>, validator: string,
      assembled: seq<byte>)
    requires Injective(tag) && assembled != []
    requires Assembles(tag, run, validator, assembled) && Covers(tag, run, validator, |assembled|)
    ensures tag(assembled) == validator
    ensures forall i :: 0 <= i < |run| && IsPart(tag, run[i], validator) ==> run[i].body == assembled
  {
    hide Respond;
    assert SuppliedBy(tag, run, validator, 0);
    var first :| 0 <= first < |run| && Supplies(tag, run[first], validator, 0);
    var body := run[first].body;
    PartHasTag(tag, run[first], validator);
    forall i | 0 <= i < |run| && IsPart(tag, run[i], validator) ensures run[i].body == body {
      PartHasTag(tag, run[i], validator);
    }
    forall p | 0 <= p < |assembled| ensures assembled[p] == body[p] {
      assert SuppliedBy(tag, run, validator, p);
      var i :| 0 <= i < |run| && Supplies(tag, run[i], validator, p);
      PartHasTag(tag, run[i], validator);
    }
    assert assembled == body;
  }

  /** Without `If-Range` parts of different bodies do mix: two requests, two bodies, one torn result. */
  lemma {:induction false} UnconditionalPartsTear(tag: seq<byte> -> string)
    ensures var a, b := Exchange([1, 1], RangeRequest(Some(Render(FirstLast("0", "0"))), None)),
                        Exchange([2, 2], RangeRequest(Some(Render(FirstLast("1", "1"))), None));
      && Respond(tag, a.body, a.request) == Response(PartialContent, [1], tag([1, 1]), 0, 0, 2)
      && Respond(tag, b.body, b.request) == Response(PartialContent, [2], tag([2, 2]), 1, 1, 2)
  {
    hide ParseSingleByteRange, Render;
    DigitReads('0');
    DigitReads('1');
    FormSelectsItsBytes(FirstLast("0", "0"), 2);
    FormSelectsItsBytes(FirstLast("1", "1"), 2);
    ExactRange(ParseSingleByteRange(Render(FirstLast("0", "0")), 2), FirstLast("0", "0"), 0);
    ExactRange(ParseSingleByteRange(Render(FirstLast("1", "1")), 2), FirstLast("1", "1"), 1);
  }

  lemma {:induction false} ExactRange(r: Option<ByteRange>, form: RangeForm, at: nat)
    requires Grammatical(form) && form.FirstLast? && Value(form.first) == Value(form.last) == at < 2
    requires Selects(r, form, 2)
    requires r.Some? && r.value.Satisfiable? ==> r.value.start <= r.value.end
    ensures r == Some(Satisfiable(at, at))
  {
    hide Value;
    assert Asks(form, 2, at);
    if r.value.Satisfiable? {
      assert Asks(form, 2, r.value.start);
      assert Asks(form, 2, r.value.end);
    }
  }
}
