/** Bytes, fixed-width integers, big-endian digits and the byte-lexicographic order. */
module Bytes {
  type byte = n: int | 0 <= n < 256

  const TWO_TO_THE_64: int := 0x1_0000_0000_0000_0000
  const TWO_TO_THE_63: int := 0x8000_0000_0000_0000

  type u64 = n: int | 0 <= n < TWO_TO_THE_64
  type i64 = n: int | -TWO_TO_THE_63 <= n < TWO_TO_THE_63

  /** A length cast with `as u64`. */
  function AsU64(n: nat): u64 {
    n % TWO_TO_THE_64
  }

  /** `u64::saturating_mul`. */
  function SaturatingMul(a: u64, b: u64): u64 {
    var product: int := (a as int) * (b as int);
    if 0 <= product < TWO_TO_THE_64 then product else TWO_TO_THE_64 - 1
  }

  /** `input` carries `part` starting at `at`. */
  predicate At(input: seq<byte>, at: nat, part: seq<byte>) {
    at + |part| <= |input| && input[at..at + |part|] == part
  }

  lemma {:induction false} AtConcat(input: seq<byte>, at: nat, left: seq<byte>, right: seq<byte>)
    ensures At(input, at, left + right) <==> At(input, at, left) && At(input, at + |left|, right)
  {
    if at + |left| + |right| <= |input| {
      var whole := input[at..at + |left + right|];
      assert whole == input[at..at + |left|] + input[at + |left|..at + |left| + |right|];
      if whole == left + right {
        assert input[at..at + |left|] == whole[..|left|] == left;
        assert input[at + |left|..at + |left| + |right|] == whole[|left|..] == right;
      }
    }
  }

  // ---------------------------------------------------------------------------
  // Big-endian digits
  // ---------------------------------------------------------------------------

  function Pow256(width: nat): (p: nat)
    ensures p >= 1
  {
    if width == 0 then 1 else 256 * Pow256(width - 1)
  }

  /** The low `width` base-256 digits of `n`, most significant first (`to_be_bytes`). */
  function ToBe(n: nat, width: nat): (digits: seq<byte>)
    ensures |digits| == width
  {
    if width == 0 then [] else ToBe(n / 256, width - 1) + [n % 256]
  }

  /** The number a big-endian digit string denotes (`from_be_bytes`). */
  function FromBe(digits: seq<byte>): nat {
    if digits == [] then 0 else 256 * FromBe(digits[..|digits| - 1]) + digits[|digits| - 1]
  }

  /** The first digit counts most: big-endian, not little-endian. */
  lemma {:induction false} FirstDigitCountsMost(first: byte, rest: seq<byte>)
    ensures FromBe([first] + rest) == first * Pow256(|rest|) + FromBe(rest)
  {
    var digits := [first] + rest;
    if rest == [] {
      assert digits[..0] == [];
    } else {
      var front, last := rest[..|rest| - 1], rest[|rest| - 1];
      FirstDigitCountsMost(first, front);
      assert digits[..|digits| - 1] == [first] + front;
      assert 256 * (first * Pow256(|front|)) == first * Pow256(|rest|);
    }
  }

  lemma {:induction false} FromBeBound(digits: seq<byte>)
    ensures FromBe(digits) < Pow256(|digits|)
  {
    if digits != [] {
      FromBeBound(digits[..|digits| - 1]);
    }
  }

  lemma {:induction false} BeNumberRoundTrip(n: nat, width: nat)
    requires n < Pow256(width)
    ensures FromBe(ToBe(n, width)) == n
  {
    if width != 0 {
      BeNumberRoundTrip(n / 256, width - 1);
      assert ToBe(n, width)[..width - 1] == ToBe(n / 256, width - 1);
    }
  }

  lemma {:induction false} BeDigitsRoundTrip(digits: seq<byte>)
    ensures ToBe(FromBe(digits), |digits|) == digits
  {
    if digits != [] {
      var front, last := digits[..|digits| - 1], digits[|digits| - 1];
      BeDigitsRoundTrip(front);
      assert FromBe(digits) / 256 == FromBe(front) && FromBe(digits) % 256 == last;
      assert digits == front + [last];
    }
  }

  lemma {:induction false} Pow256Widths()
    ensures Pow256(1) == 0x100 && Pow256(2) == 0x1_0000 && Pow256(4) == 0x1_0000_0000
    ensures Pow256(8) == TWO_TO_THE_64
  {
    assert Pow256(1) == 256 * Pow256(0);
    assert Pow256(3) == 256 * Pow256(2);
    assert Pow256(5) == 256 * Pow256(4);
    assert Pow256(6) == 256 * Pow256(5);
    assert Pow256(7) == 256 * Pow256(6);
  }

  // ---------------------------------------------------------------------------
  // Byte-lexicographic order (`Ord` on byte slices)
  // ---------------------------------------------------------------------------

  predicate LexLess(a: seq<byte>, b: seq<byte>) {
    b != [] && (a == [] || a[0] < b[0] || (a[0] == b[0] && LexLess(a[1..], b[1..])))
  }

  lemma {:induction false} LexIrreflexive(a: seq<byte>)
    ensures !LexLess(a, a)
  {
    if a != [] {
      LexIrreflexive(a[1..]);
    }
  }

  lemma {:induction false} LexTransitive(a: seq<byte>, b: seq<byte>, c: seq<byte>)
    requires LexLess(a, b) && LexLess(b, c)
    ensures LexLess(a, c)
  {
    if a != [] && a[0] == b[0] == c[0] {
      LexTransitive(a[1..], b[1..], c[1..]);
    }
  }

  lemma {:induction false} LexTotal(a: seq<byte>, b: seq<byte>)
    ensures a == b || LexLess(a, b) || LexLess(b, a)
  {
    if a != [] && b != [] && a[0] == b[0] {
      LexTotal(a[1..], b[1..]);
      assert a == [a[0]] + a[1..] && b == [b[0]] + b[1..];
    }
  }

  lemma {:induction false} LexAsymmetric(a: seq<byte>, b: seq<byte>)
    requires LexLess(a, b)
    ensures !LexLess(b, a) && a != b
  {
    if LexLess(b, a) {
      LexTransitive(a, b, a);
    }
    LexIrreflexive(a);
  }

  /** Agreement up to some place, where one ends or holds the smaller byte: the order, without recursion. */
  predicate Precedes(x: seq<byte>, y: seq<byte>) {
    exists k :: 0 <= k <= |x| && k <= |y| && PrecedesAt(x, y, k)
  }

  predicate PrecedesAt(x: seq<byte>, y: seq<byte>, k: nat)
    requires k <= |x| && k <= |y|
  {
    x[..k] == y[..k] && k < |y| && (k == |x| || x[k] < y[k])
  }

  lemma {:induction false} LexIsPrecedes(a: seq<byte>, b: seq<byte>)
    ensures LexLess(a, b) <==> Precedes(a, b)
  {
    if a != [] && b != [] && a[0] == b[0] {
      LexIsPrecedes(a[1..], b[1..]);
      if Precedes(a[1..], b[1..]) {
        var k :| 0 <= k <= |a[1..]| && k <= |b[1..]| && PrecedesAt(a[1..], b[1..], k);
        assert a[..k + 1] == [a[0]] + a[1..][..k] && b[..k + 1] == [b[0]] + b[1..][..k];
        assert PrecedesAt(a, b, k + 1);
      }
      if Precedes(a, b) {
        var k :| 0 <= k <= |a| && k <= |b| && PrecedesAt(a, b, k);
        assert a[1..][..k - 1] == a[..k][1..] && b[1..][..k - 1] == b[..k][1..];
        assert PrecedesAt(a[1..], b[1..], k - 1);
      }
    } else {
      if LexLess(a, b) {
        assert PrecedesAt(a, b, 0);
      }
      if Precedes(a, b) {
        var k :| 0 <= k <= |a| && k <= |b| && PrecedesAt(a, b, k);
        assert k == 0;
      }
    }
  }
}
