/**
 * 64-bit floats, as far as group orders need them: which numbers there are, how the larger of two is taken, and how
 * a sum is rounded (IEEE 754, to nearest, ties to even).
 */
module Doubles {
  /** Significands have 53 bits. */
  const TWO_TO_THE_53: nat := 0x20_0000_0000_0000

  datatype Format = Format(fractionBits: nat, largestScale: nat)

  /** Every finite double is a whole multiple of 2^-1074, and the largest scale their significands by 2^2045 of it. */
  const BINARY64: Format := Format(1074, 2045)

  function Pow2(n: nat): (p: nat)
    ensures p >= 1
  {
    if n == 0 then 1 else 2 * Pow2(n - 1)
  }

  /** The number of low bits a magnitude has beyond 53: neighbouring doubles there are 2^Scale apart. */
  function Scale(k: nat): nat {
    if k < TWO_TO_THE_53 then 0 else 1 + Scale(k / 2)
  }

  function Spacing(k: nat): (p: nat)
    ensures p >= 1
  {
    Pow2(Scale(k))
  }

  function Magnitude(k: int): nat {
    if k < 0 then -k else k
  }

  /** The multiple `k` of 2^-1074 is a double. */
  predicate Exact(k: int) {
    Magnitude(k) % Spacing(Magnitude(k)) == 0 && Scale(Magnitude(k)) <= BINARY64.largestScale
  }

  /** To the nearest multiple of the spacing, ties to the even one. */
  function Round(k: nat): nat {
    var spacing := Spacing(k);
    var quotient, rest := k / spacing, k % spacing;
    if 2 * rest > spacing || (2 * rest == spacing && quotient % 2 == 1) then (quotient + 1) * spacing
    else quotient * spacing
  }

  // ---------------------------------------------------------------------------
  // Scales
  // ---------------------------------------------------------------------------

  lemma {:induction false} Pow2Grows(m: nat, n: nat)
    requires m <= n
    ensures Pow2(m) <= Pow2(n) && Pow2(n) % Pow2(m) == 0
    decreases n
  {
    if m < n {
      Pow2Grows(m, n - 1);
      MultipleTwice(Pow2(n - 1), Pow2(m));
    }
  }

  lemma {:induction false} MultipleTwice(a: nat, d: nat)
    requires d >= 1 && a % d == 0
    ensures (2 * a) % d == 0
  {
    var q := a / d;
    assert a == q * d;
    Divides(2 * q, d, 0);
    assert 2 * a == 2 * q * d;
  }

  lemma {:induction false} Times(a: nat, b: nat, d: nat)
    ensures a <= b ==> a * d <= b * d
    ensures (a + 1) * d == a * d + d
  {
    if a <= b {
      assert (b - a) * d >= 0;
    }
  }

  /** Division takes apart what was put together. */
  lemma {:induction false} Divides(q: nat, d: nat, r: nat)
    requires r < d
    ensures (q * d + r) / d == q && (q * d + r) % d == r
  {
    var n := q * d + r;
    assert n == (n / d) * d + n % d;
    Times(q + 1, n / d, d);
    Times(n / d + 1, q, d);
  }

  lemma {:induction false} ScaleBounds(k: nat)
    ensures k < TWO_TO_THE_53 * Pow2(Scale(k))
    ensures Scale(k) > 0 ==> k >= TWO_TO_THE_53 * Pow2(Scale(k) - 1)
  {
    if k >= TWO_TO_THE_53 {
      ScaleBounds(k / 2);
    }
  }

  lemma {:induction false} ScaleAtMost(k: nat, s: nat)
    requires k < TWO_TO_THE_53 * Pow2(s)
    ensures Scale(k) <= s
  {
    hide Pow2;
    ScaleBounds(k);
    if Scale(k) > s {
      Pow2Grows(s, Scale(k) - 1);
    }
  }

  lemma {:induction false} ScaleAtLeast(k: nat, s: nat)
    requires k >= TWO_TO_THE_53 * Pow2(s)
    ensures Scale(k) >= s + 1
  {
    hide Pow2;
    ScaleBounds(k);
    if Scale(k) <= s {
      Pow2Grows(Scale(k), s);
    }
  }

  // ---------------------------------------------------------------------------
  // Rounding
  // ---------------------------------------------------------------------------

  /** Rounding is off by at most half the spacing. */
  lemma {:induction false} RoundError(k: nat)
    ensures 2 * k <= 2 * Round(k) + Spacing(k)
  {
    hide Spacing;
    var d := Spacing(k);
    assert k == (k / d) * d + k % d;
    assert (k / d + 1) * d == (k / d) * d + d;
  }

  lemma {:induction false} QuotientBounds(k: nat)
    ensures var q := k / Spacing(k);
      && k == q * Spacing(k) + k % Spacing(k)
      && (q + 1) * Spacing(k) <= TWO_TO_THE_53 * Spacing(k)
      && (Scale(k) > 0 ==> q * Spacing(k) >= TWO_TO_THE_53 * Pow2(Scale(k) - 1))
  {
    hide Pow2, Scale;
    var d := Spacing(k);
    var q := k / d;
    ScaleBounds(k);
    assert k == q * d + k % d;
    Times(q, q, d);
    Times(TWO_TO_THE_53, q, d);
    Times(q + 1, TWO_TO_THE_53, d);
    if Scale(k) > 0 {
      HalfAgain(Scale(k) - 1);
      Times(q + 1, TWO_TO_THE_53 / 2, d);
      Times(TWO_TO_THE_53 / 2, q, d);
    }
  }

  lemma {:induction false} NoMultipleBetween(q: nat, d: nat, n: nat)
    requires d >= 1 && n % d == 0
    ensures n <= q * d || n >= (q + 1) * d
  {
    var m := n / d;
    assert n == m * d;
    Times(m, q, d);
    Times(q + 1, m, d);
  }

  /** The neighbouring multiples of the spacing. */
  function Below(k: nat): nat {
    k / Spacing(k) * Spacing(k)
  }

  function Above(k: nat): nat {
    (k / Spacing(k) + 1) * Spacing(k)
  }

  /** No double lies strictly between two neighbouring multiples of the spacing. */
  lemma {:induction false} NoneBetween(k: nat, n: nat)
    requires n % Spacing(n) == 0
    ensures n <= Below(k) || n >= Above(k)
  {
    hide Pow2, Scale;
    var q := k / Spacing(k);
    QuotientBounds(k);
    if q * Spacing(k) < n < (q + 1) * Spacing(k) {
      ScaleAtMost(n, Scale(k));
      if Scale(k) > 0 {
        ScaleAtLeast(n, Scale(k) - 1);
      }
      NoMultipleBetween(q, Spacing(k), n);
    }
  }

  /** Rounding takes the multiple below or the one above, whichever is not farther. */
  lemma {:induction false} RoundParts(k: nat)
    ensures Below(k) <= k < Above(k)
    ensures || (Round(k) == Below(k) && k - Below(k) <= Above(k) - k)
            || (Round(k) == Above(k) && Above(k) - k <= k - Below(k))
  {
    hide Spacing;
    var d := Spacing(k);
    assert k == (k / d) * d + k % d;
    Times(k / d, k / d, d);
  }

  /** Rounding gives a nearest double: none is closer. */
  lemma {:induction false} RoundNearest(k: nat, n: nat)
    requires n % Spacing(n) == 0
    ensures var off, other := if Round(k) >= k then Round(k) - k else k - Round(k), if n >= k then n - k else k - n;
      off <= other
  {
    hide Spacing, Round, Below, Above;
    NoneBetween(k, n);
    RoundParts(k);
    NearerEnd(k, Below(k), Above(k), Round(k), n);
  }

  lemma {:induction false} NearerEnd(k: nat, low: nat, high: nat, r: nat, n: nat)
    requires low <= k < high && (n <= low || n >= high)
    requires (r == low && k - low <= high - k) || (r == high && high - k <= k - low)
    ensures var off, other := if r >= k then r - k else k - r, if n >= k then n - k else k - n;
      off <= other
  {
  }

  /** What is a multiple of its own spacing stays as it is. */
  lemma {:induction false} RoundExact(k: nat)
    requires k % Spacing(k) == 0
    ensures Round(k) == k
  {
    hide Spacing;
    var d := Spacing(k);
    assert k == (k / d) * d + k % d;
  }

  /** Multiples of 2^s with at most 53 significant bits are multiples of their own spacing. */
  lemma {:induction false} SpacedExactly(q: nat, s: nat)
    requires q <= TWO_TO_THE_53
    ensures var k := q * Pow2(s); k % Spacing(k) == 0
  {
    hide Pow2;
    var k := q * Pow2(s);
    if q < TWO_TO_THE_53 {
      Times(q + 1, TWO_TO_THE_53, Pow2(s));
      Times(q, q, Pow2(s));
      ScaleAtMost(k, s);
      MultipleOf(q, Pow2(s), Pow2(Scale(k)), s, Scale(k));
    } else {
      HalfAgain(s);
      assert k == (TWO_TO_THE_53 / 2) * Pow2(s + 1);
      ScaleAtMost(k, s + 1);
      MultipleOf(TWO_TO_THE_53 / 2, Pow2(s + 1), Pow2(Scale(k)), s + 1, Scale(k));
    }
  }

  lemma {:induction false} HalfAgain(s: nat)
    ensures Pow2(s + 1) == 2 * Pow2(s)
  {
  }

  lemma {:induction false} MultipleOf(q: nat, p: nat, d: nat, s: nat, m: nat)
    requires p == Pow2(s) && d == Pow2(m) && m <= s
    ensures (q * p) % d == 0
  {
    hide Pow2;
    Pow2Grows(m, s);
    var c := p / d;
    assert p == c * d;
    assert q * p == (q * c) * d;
    Divides(q * c, d, 0);
  }

  /** What rounding gives is a double again, unless it is too large. */
  lemma {:induction false} RoundIsExact(k: nat)
    ensures Round(k) % Spacing(Round(k)) == 0
  {
    hide Pow2, Scale;
    var d := Spacing(k);
    ScaleBounds(k);
    var q := k / d;
    assert q < TWO_TO_THE_53 by {
      assert k == q * d + k % d;
      assert q >= TWO_TO_THE_53 ==> q * d >= TWO_TO_THE_53 * d;
    }
    SpacedExactly(q, Scale(k));
    SpacedExactly(q + 1, Scale(k));
  }

  // ---------------------------------------------------------------------------
  // Adding one
  // ---------------------------------------------------------------------------

  /** Below 2^53, one more is larger after rounding. */
  lemma {:induction false} SmallGrows(k: int, e: nat)
    requires Magnitude(k) % Spacing(Magnitude(k)) == 0 && 0 <= k + Pow2(e) && k < TWO_TO_THE_53 * Pow2(e)
    ensures Round(k + Pow2(e)) > k
  {
    hide Pow2, Scale, Round;
    var one := Pow2(e);
    var x := k + one;
    SmallSum(k, e);
    if x == TWO_TO_THE_53 * one {
      SpacedExactly(TWO_TO_THE_53, e);
      RoundExact(x);
    } else {
      ScaleAtMost(x, e);
      Pow2Grows(Scale(x), e);
      RoundError(x);
    }
  }

  lemma {:induction false} SmallSum(k: int, e: nat)
    requires Magnitude(k) % Spacing(Magnitude(k)) == 0 && 0 <= k + Pow2(e) && k < TWO_TO_THE_53 * Pow2(e)
    ensures k + Pow2(e) <= TWO_TO_THE_53 * Pow2(e)
  {
    hide Pow2, Scale;
    var one := Pow2(e);
    if k >= 0 {
      ScaleAtMost(k, e);
      if Scale(k) == e {
        assert k == (k / one) * one;
        Times(TWO_TO_THE_53, k / one, one);
        Times(k / one, k / one, one);
        Times(k / one + 1, TWO_TO_THE_53, one);
      } else {
        ScaleBounds(k);
        Pow2Grows(Scale(k), e - 1);
        HalfAgain(e - 1);
      }
    }
  }

  /** From 2^53 on, one more is a tie at spacing two and lost beyond. */
  lemma {:induction false} LargeGrows(k: nat, e: nat)
    requires k % Spacing(k) == 0 && k >= TWO_TO_THE_53 * Pow2(e)
    ensures Round(k + Pow2(e)) > k <==>
      k < TWO_TO_THE_53 * Pow2(e + 1) && k / Pow2(e + 1) % 2 == 1
  {
    hide Pow2, Scale;
    var one, s, d := Pow2(e), Scale(k), Spacing(k);
    var q := k / d;
    assert k == q * d;
    ScaleAtLeast(k, e);
    HalfAgain(e);
    Pow2Grows(e + 1, s);
    LargeSum(k, e);
    Divides(q, d, one);
    assert (q + 1) * d == q * d + d;
    if s > e + 1 {
      Pow2Grows(e + 2, s);
      HalfAgain(e + 1);
      ScaleBounds(k);
      Pow2Grows(e + 1, s - 1);
    } else {
      ScaleBounds(k);
    }
  }

  /** The sum has the same spacing. */
  lemma {:induction false} LargeSum(k: nat, e: nat)
    requires k % Spacing(k) == 0 && k >= TWO_TO_THE_53 * Pow2(e)
    ensures Scale(k + Pow2(e)) == Scale(k)
  {
    hide Pow2, Scale;
    var one, s, d := Pow2(e), Scale(k), Spacing(k);
    var q := k / d;
    assert k == q * d;
    ScaleBounds(k);
    ScaleAtLeast(k, e);
    HalfAgain(e);
    Pow2Grows(e + 1, s);
    Times(TWO_TO_THE_53, q, d);
    Times(q, q, d);
    Times(q + 1, TWO_TO_THE_53, d);
    ScaleAtMost(k + one, s);
    ScaleAtLeast(k + one, s - 1);
  }

  // ---------------------------------------------------------------------------
  // Values
  // ---------------------------------------------------------------------------

  type Units = k: int | Exact(k) witness 0

  /** A double, finite ones in units of 2^-1074; the two zeros are one. */
  datatype Double = Finite(units: Units) | PosInfinity | NegInfinity | NaN

  /** One, in units of the format. */
  function One(format: Format): int {
    Pow2(format.fractionBits)
  }

  lemma {:induction false} OneIsExact()
    ensures Exact(-One(BINARY64))
  {
    hide Pow2, Scale;
    SpacedExactly(1, BINARY64.fractionBits);
    ScaleAtMost(One(BINARY64), BINARY64.fractionBits);
  }

  function MinusOne(): Double {
    OneIsExact();
    Finite(-One(BINARY64))
  }

  /** The double nearest to a number of units. */
  function Nearest(x: int): Double {
    var r := Round(Magnitude(x));
    if Scale(r) > BINARY64.largestScale then (if x < 0 then NegInfinity else PosInfinity)
    else
      RoundIsExact(Magnitude(x));
      var units: int := if x < 0 then -(r as int) else r;
      Finite(units)
  }

  function PlusOne(a: Double): Double {
    if a.Finite? then Nearest(a.units + One(BINARY64)) else a
  }

  /** The order of doubles; nothing is less than or greater than `NaN`. */
  predicate Less(a: Double, b: Double) {
    match a
    case NaN => false
    case PosInfinity => false
    case NegInfinity => b.Finite? || b.PosInfinity?
    case Finite(units) => b.PosInfinity? || (b.Finite? && units < b.units)
  }

  /** `f64::max`, which ignores `NaN`. */
  function Larger(a: Double, b: Double): Double {
    if a.NaN? then b else if Less(a, b) then b else a
  }

  /** Below 2^53, or below 2^54 and an odd multiple of two. */
  predicate RoomAbove(k: Units) {
    || k < TWO_TO_THE_53 * One(BINARY64)
    || (k < TWO_TO_THE_53 * Pow2(BINARY64.fractionBits + 1) && k / Pow2(BINARY64.fractionBits + 1) % 2 == 1)
  }

  lemma {:induction false} UnitsSpaced(k: Units)
    ensures Magnitude(k) % Spacing(Magnitude(k)) == 0 && Scale(Magnitude(k)) <= BINARY64.largestScale
  {
    assert Exact(k);
  }

  /** A larger scale means a larger number. */
  lemma {:induction false} LargerScale(a: nat, b: nat)
    requires Scale(a) < Scale(b)
    ensures a < b
  {
    hide Pow2, Scale;
    ScaleBounds(a);
    if b <= a {
      ScaleAtMost(b, Scale(a));
    }
  }

  lemma {:induction false} NearestGrows(k: Units, x: nat)
    ensures Less(Finite(k), Nearest(x)) <==> k < Round(x)
  {
    hide Pow2, Scale, Round, Spacing;
    UnitsSpaced(k);
    if k >= 0 && Scale(Round(x)) > BINARY64.largestScale {
      LargerScale(k, Round(x));
    }
  }

  /** From minus one up, adding one gives a larger double exactly when there is room above. */
  lemma {:induction false} PlusOneGrows(k: Units)
    requires k + One(BINARY64) >= 0
    ensures Less(Finite(k), PlusOne(Finite(k))) <==> RoomAbove(k)
  {
    hide Pow2, Scale, Round, Spacing, Nearest;
    UnitsSpaced(k);
    NearestGrows(k, k + One(BINARY64));
    if k < TWO_TO_THE_53 * One(BINARY64) {
      SmallGrows(k, BINARY64.fractionBits);
    } else {
      LargeGrows(k, BINARY64.fractionBits);
    }
  }

  /** At 2^53 there is no room: one more rounds back. */
  lemma {:induction false} NoRoomAt53()
    ensures var k := TWO_TO_THE_53 * One(BINARY64); Exact(k) && !RoomAbove(k)
  {
    hide Pow2, Scale;
    var e := BINARY64.fractionBits;
    HalfAgain(e);
    SpacedExactly(TWO_TO_THE_53, e);
    ScaleAtMost(TWO_TO_THE_53 * Pow2(e), e + 1);
    Divides(TWO_TO_THE_53 / 2, Pow2(e + 1), 0);
  }
}
