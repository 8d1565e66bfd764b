/**
 Machine arithmetic shared by the image tools, the allocator and the power
 HAL: bitwise "and" defined bit by bit, page rounding through a mask, and the
 conversions C and C++ apply to integers.
 */
module Bits {

  const TWO_31: int := 0x8000_0000
  const TWO_32: int := 0x1_0000_0000
  const TWO_64: int := 0x1_0000_0000_0000_0000

  function Pow2(k: nat): (p: nat)
    ensures p >= 1
  {
    if k == 0 then 1 else 2 * Pow2(k - 1)
  }

  /** Bitwise "and" of two unsigned integers of any width. */
  function And(x: nat, y: nat): nat {
    if x == 0 || y == 0 then 0 else 2 * And(x / 2, y / 2) + (x % 2) * (y % 2)
  }

  lemma Pow2Values()
    ensures Pow2(4) == 16
    ensures Pow2(11) == 2048 && Pow2(12) == 4096 && Pow2(13) == 8192 && Pow2(14) == 16384
    ensures Pow2(15) == 32768 && Pow2(16) == 65536 && Pow2(17) == 131072
    ensures Pow2(32) == TWO_32
  {
    assert Pow2(8) == 256;
    assert Pow2(16) == 65536;
    assert Pow2(24) == 0x100_0000;
  }

  lemma HalfMod(x: nat, q: nat)
    requires q >= 1
    ensures x % (2 * q) == 2 * ((x / 2) % q) + x % 2
  {
    var h := x / 2;
    var r := 2 * (h % q) + x % 2;
    assert x == 2 * h + x % 2;
    assert x == (2 * q) * (h / q) + r by {
      assert h == q * (h / q) + h % q;
    }
    DivModUnique(x, 2 * q, h / q, r);
  }

  lemma MulAtLeast(d: int, a: int)
    requires d > 0 && a >= 1
    ensures d * a >= d
  {
  }

  lemma DivModUnique(x: int, d: int, q: int, r: int)
    requires d > 0 && 0 <= r < d && x == d * q + r
    ensures x / d == q && x % d == r
  {
    var q', r' := x / d, x % d;
    assert x == d * q' + r';
    if q' > q {
      MulAtLeast(d, q' - q);
    } else if q' < q {
      MulAtLeast(d, q - q');
    }
  }

  lemma AndStep(x: nat, y: nat)
    ensures And(x, y) == 2 * And(x / 2, y / 2) + (x % 2) * (y % 2)
  {
  }

  /** Masking with the band of bits [k, m) keeps exactly those bits. */
  lemma {:induction false} AndBand(x: nat, m: nat, k: nat)
    requires k <= m
    ensures Pow2(k) <= Pow2(m)
    ensures And(x, Pow2(m) - Pow2(k)) == x % Pow2(m) - x % Pow2(k)
    decreases m
  {
    if k < m {
      AndBand(x / 2, m - 1, if k == 0 then 0 else k - 1);
      HalfMod(x, Pow2(m - 1));
      AndStep(x, Pow2(m) - Pow2(k));
      if k == 0 {
        assert (Pow2(m) - 1) / 2 == Pow2(m - 1) - 1 && (Pow2(m) - 1) % 2 == 1;
      } else {
        HalfMod(x, Pow2(k - 1));
        assert (Pow2(m) - Pow2(k)) / 2 == Pow2(m - 1) - Pow2(k - 1) && (Pow2(m) - Pow2(k)) % 2 == 0;
      }
    }
  }

  /** The page sizes mkbootimg accepts: the powers of two from 2048 to 131072. */
  ghost predicate IsPageSize(p: nat) {
    exists k: nat :: 11 <= k <= 17 && p == Pow2(k)
  }

  lemma PageSizes(p: nat)
    ensures IsPageSize(p) <==> p in {2048, 4096, 8192, 16384, 32768, 65536, 131072}
  {
    Pow2Values();
    if IsPageSize(p) {
      var k: nat :| 11 <= k <= 17 && p == Pow2(k);
      assert k == 11 || k == 12 || k == 13 || k == 14 || k == 15 || k == 16 || k == 17;
    }
  }

  /** `x & (p - 1)` is the offset inside the page. */
  lemma MaskIsMod(x: nat, p: nat)
    requires IsPageSize(p)
    ensures p >= 2048
    ensures And(x, p - 1) == x % p
  {
    PageSizes(p);
    var k: nat :| 11 <= k <= 17 && p == Pow2(k);
    AndBand(x, k, 0);
  }

  /** `(x + pagemask) & ~pagemask` on 32-bit unsigned integers. */
  function MaskUp(x: nat, p: nat): nat
    requires 1 <= p <= TWO_32
  {
    And((x + (p - 1)) % TWO_32, TWO_32 - 1 - (p - 1))
  }

  /** Multiples of `p`, without division. */
  predicate Multiple(a: nat, p: nat)
    requires p >= 1
  {
    a == 0 || (a >= p && Multiple(a - p, p))
  }

  /** The least multiple of `p` that is at least `x`. */
  function RoundUp(x: nat, p: nat): (r: nat)
    requires p >= 1
    ensures x <= r < x + p
  {
    if x == 0 then 0 else if x <= p then p else p + RoundUp(x - p, p)
  }

  lemma {:induction false} RoundUpIsMultiple(x: nat, p: nat)
    requires p >= 1
    ensures Multiple(RoundUp(x, p), p)
    decreases x
  {
    if x > p {
      RoundUpIsMultiple(x - p, p);
    }
  }

  lemma ModStep(x: nat, p: nat)
    requires p >= 1 && x >= p
    ensures (x - p) % p == x % p
  {
    assert x == p * (x / p) + x % p;
    DivModUnique(x - p, p, x / p - 1, x % p);
  }

  lemma {:induction false} MultipleIsMod(a: nat, p: nat)
    requires p >= 1
    ensures Multiple(a, p) <==> a % p == 0
    decreases a
  {
    if a >= p {
      MultipleIsMod(a - p, p);
      ModStep(a, p);
    } else {
      DivModUnique(a, p, 0, a);
    }
  }

  lemma {:induction false} SumOfMultiples(a: nat, b: nat, p: nat)
    requires p >= 1 && Multiple(a, p) && Multiple(b, p)
    ensures Multiple(a + b, p)
    decreases a
  {
    if a > 0 {
      SumOfMultiples(a - p, b, p);
    }
  }

  lemma {:induction false} DiffOfMultiples(a: nat, b: nat, p: nat)
    requires p >= 1 && Multiple(a, p) && Multiple(b, p) && b <= a
    ensures Multiple(a - b, p)
    decreases b
  {
    if b > 0 {
      DiffOfMultiples(a - p, b - p, p);
    }
  }

  /** Any multiple of `p` at or above `x` is at or above `RoundUp(x, p)`. */
  lemma RoundUpLeast(x: nat, m: nat, p: nat)
    requires p >= 1 && Multiple(m, p) && x <= m
    ensures RoundUp(x, p) <= m
  {
    var r := RoundUp(x, p);
    if m < r {
      RoundUpIsMultiple(x, p);
      DiffOfMultiples(r, m, p);
    }
  }

  lemma RoundUpValue(x: nat, p: nat)
    requires p >= 1
    ensures RoundUp(x, p) == x + (p - 1) - (x + (p - 1)) % p
  {
    var r, y := RoundUp(x, p), x + (p - 1);
    RoundUpIsMultiple(x, p);
    MultipleIsMod(r, p);
    assert r == p * (r / p);
    DivModUnique(y, p, r / p, y - r);
  }

  lemma MaskUpAsAnd(x: nat, p: nat)
    requires 1 <= p && x + p <= TWO_32
    ensures MaskUp(x, p) == And(x + (p - 1), TWO_32 - p)
  {
    var y := x + (p - 1);
    assert y % TWO_32 == y;
  }

  lemma ClearLowBits(y: nat, p: nat)
    requires y < TWO_32 && IsPageSize(p)
    ensures p <= TWO_32
    ensures And(y, TWO_32 - p) == y - y % p
  {
    var k: nat :| 11 <= k <= 17 && p == Pow2(k);
    Pow2Values();
    AndBand(y, 32, k);
  }

  /** The mask expression rounds up to a page. */
  lemma MaskUpIsRoundUp(x: nat, p: nat)
    requires IsPageSize(p)
    requires x + p <= TWO_32
    ensures p >= 1 && p <= TWO_32
    ensures MaskUp(x, p) == RoundUp(x, p)
  {
    MaskUpAsAnd(x, p);
    var y: nat := x + (p - 1);
    ClearLowBits(y, p);
    RoundUpValue(x, p);
  }

  // ---- C++ integer conversions ----

  lemma DivBounds(a: nat, b: nat)
    requires b > 0
    ensures a / b >= 0 && (a / b) * b <= a < (a / b) * b + b
  {
    assert a == (a / b) * b + a % b;
  }

  /** C++ division truncates toward zero. */
  function TruncDiv(a: int, b: int): (r: int)
    requires b > 0
    ensures a >= 0 ==> r >= 0 && r * b <= a < r * b + b
    ensures a < 0 ==> r <= 0 && r * b - b < a <= r * b
  {
    if a >= 0 then DivBounds(a, b); a / b
    else
      DivBounds(-a, b);
      var q := (-a) / b;
      assert (-q) * b == -(q * b);
      -q
  }

  /** Conversion to a 32-bit unsigned integer. */
  function ToU32(x: int): (r: nat)
    ensures r < TWO_32
    ensures 0 <= x < TWO_32 ==> r == x
  {
    x % TWO_32
  }

  /** Conversion to a 32-bit signed integer (two's complement). */
  function ToI32(x: int): (r: int)
    ensures -TWO_31 <= r < TWO_31
    ensures -TWO_31 <= x < TWO_31 ==> r == x
  {
    (x + TWO_31) % TWO_32 - TWO_31
  }
}
