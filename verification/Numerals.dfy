/** Decimal numerals as text, and the numbers Rust's `Display` writes. */
module Numerals {
  predicate IsDigit(c: char) {
    '0' <= c <= '9'
  }

  function DigitValue(c: char): nat
    requires IsDigit(c)
  {
    c as int - '0' as int
  }

  predicate AllDigits(s: string) {
    forall i :: 0 <= i < |s| ==> IsDigit(s[i])
  }

  /** The number a digit string writes, leading zeros and all. */
  function Value(digits: string): nat
    requires AllDigits(digits)
  {
    if digits == [] then 0
    else 10 * Value(digits[..|digits| - 1]) + DigitValue(digits[|digits| - 1])
  }

  function Pow10(n: nat): nat {
    if n == 0 then 1 else 10 * Pow10(n - 1)
  }

  /** Digits are the ten ASCII ones, and the first counts most. */
  lemma {:induction false} FirstDigitCountsMost(c: char, rest: string)
    requires 48 <= c as int <= 57 && AllDigits(rest)
    ensures AllDigits([c] + rest) && Value([c] + rest) == (c as int - 48) * Pow10(|rest|) + Value(rest)
  {
    var digits := [c] + rest;
    if rest == [] {
      assert digits[..0] == [];
    } else {
      var front := rest[..|rest| - 1];
      FirstDigitCountsMost(c, front);
      assert digits[..|digits| - 1] == [c] + front;
      assert 10 * ((c as int - 48) * Pow10(|front|)) == (c as int - 48) * Pow10(|rest|);
    }
  }

  /** The decimal numeral of `n`. */
  function Decimal(n: nat): string {
    if n < 10 then [('0' as int + n) as char] else Decimal(n / 10) + [('0' as int + n % 10) as char]
  }

  lemma {:induction false} DecimalReads(n: nat)
    ensures Decimal(n) != [] && AllDigits(Decimal(n)) && Value(Decimal(n)) == n
  {
    if n >= 10 {
      DecimalReads(n / 10);
      var s := Decimal(n);
      assert s[..|s| - 1] == Decimal(n / 10);
    } else {
      assert Decimal(n)[..0] == [];
    }
  }

  // ---------------------------------------------------------------------------
  // Signed integers and floats
  // ---------------------------------------------------------------------------

  type Digits = s: string | AllDigits(s) witness []

  /** A float, as the decimal its `Display` form writes out. */
  datatype Float = NaN | Infinite(negative: bool) | Finite(negative: bool, whole: nat, fraction: Digits)

  function Sign(negative: bool): string {
    if negative then ['-'] else []
  }

  function Point(fraction: Digits): string {
    if fraction == [] then [] else ['.'] + fraction
  }

  function Show(x: Float): string {
    match x
    case NaN => "NaN"
    case Infinite(negative) => Sign(negative) + "inf"
    case Finite(negative, whole, fraction) => Sign(negative) + (Decimal(whole) + Point(fraction))
  }

  function ShowInt(n: int): string {
    if n < 0 then Sign(true) + Decimal(-n) else Decimal(n)
  }

  /** What is written: a minus sign if need be, then digits whose value is the magnitude. */
  lemma {:induction false} ShowIntReads(n: int)
    ensures var digits := if n < 0 then ShowInt(n)[1..] else ShowInt(n);
      && (n < 0 ==> ShowInt(n)[0] == '-')
      && AllDigits(digits) && Value(digits) == if n < 0 then -n else n
  {
    hide Decimal, Value;
    DecimalReads(if n < 0 then -n else n);
    assert n < 0 ==> ShowInt(n)[1..] == Decimal(-n);
  }

  /** What is written for a float: its sign, the digits of its whole part, and its fraction after a point. */
  lemma {:induction false} ShowReads(x: Float) returns (whole: string)
    ensures x.NaN? ==> Show(x) == "NaN"
    ensures x.Infinite? ==> Show(x) == if x.negative then "-inf" else "inf"
    ensures x.Finite? ==>
      && AllDigits(whole) && whole != [] && Value(whole) == x.whole
      && Show(x) == (if x.negative then "-" else "") + (whole + (if x.fraction == [] then "" else "." + x.fraction))
  {
    hide Decimal, Value;
    whole := [];
    if x.Finite? {
      DecimalReads(x.whole);
      whole := Decimal(x.whole);
    }
  }

  lemma {:induction false} ShowIntInjective(m: int, n: int)
    requires ShowInt(m) == ShowInt(n)
    ensures m == n
  {
    hide Decimal, Value;
    var a, b := if m < 0 then -m else m, if n < 0 then -n else n;
    DecimalReads(a);
    DecimalReads(b);
    assert IsDigit(Decimal(a)[0]) && IsDigit(Decimal(b)[0]);
    assert (ShowInt(m)[0] == '-' <==> m < 0) && (ShowInt(n)[0] == '-' <==> n < 0);
    if m < 0 && n < 0 {
      assert Decimal(-m) == ShowInt(m)[1..] == Decimal(-n);
    }
  }

  /** Digits up to a point or the end are told apart from what follows. */
  lemma {:induction false} SplitAtPoint(a: string, f: Digits, b: string, g: Digits)
    requires AllDigits(a) && AllDigits(b) && a + Point(f) == b + Point(g)
    ensures |a| <= |b|
  {
    var text := a + Point(f);
    assert forall i :: 0 <= i < |a| ==> IsDigit(text[i]);
    assert |text| > |b| ==> text[|b|] == '.';
  }

  lemma {:induction false} DecimalInjective(v: nat, f: Digits, w: nat, g: Digits)
    requires Decimal(v) + Point(f) == Decimal(w) + Point(g)
    ensures v == w && f == g
  {
    hide Decimal, Value;
    var a, b := Decimal(v), Decimal(w);
    DecimalReads(v);
    DecimalReads(w);
    SplitAtPoint(a, f, b, g);
    SplitAtPoint(b, g, a, f);
    assert a == (a + Point(f))[..|a|] == b;
    assert Point(f) == (a + Point(f))[|a|..] == Point(g);
    assert f != [] ==> f == Point(f)[1..] && g == Point(g)[1..];
  }

  /** What the text of a float starts with. */
  lemma {:induction false} ShowStarts(x: Float)
    ensures Show(x) != []
    ensures x.NaN? <==> Show(x)[0] == 'N'
    ensures !x.NaN? ==> (Show(x)[0] == '-' <==> x.negative)
    ensures !x.NaN? ==> |Show(x)| > |Sign(x.negative)|
    ensures x.Infinite? <==> !x.NaN? && Show(x)[|Sign(x.negative)|] == 'i'
  {
    hide Decimal, Value;
    if x.Finite? {
      DecimalReads(x.whole);
      assert Show(x)[|Sign(x.negative)|] == Decimal(x.whole)[0];
      assert IsDigit(Decimal(x.whole)[0]);
    }
  }

  /** Different floats are written differently. */
  lemma {:induction false} ShowInjective(x: Float, y: Float)
    requires Show(x) == Show(y)
    ensures x == y
  {
    hide Decimal, Value, Point;
    ShowStarts(x);
    ShowStarts(y);
    if x.Finite? && y.Finite? {
      var sign := Sign(x.negative);
      assert Decimal(x.whole) + Point(x.fraction) == Show(x)[|sign|..] == Decimal(y.whole) + Point(y.fraction);
      DecimalInjective(x.whole, x.fraction, y.whole, y.fraction);
    }
  }
}
