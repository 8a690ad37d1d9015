/** Integer and bit arithmetic of the converter: 64-bit words, the two-word
    128-bit product, the fixed-point logarithms and the 192-bit "upper 64 bits
    with sticky rounding" product.

    C's unsigned operators are written out on `nat`: `x >> k` is `x / 2^k`,
    `x << k` is `x * 2^k % 2^64`, `x & (2^k - 1)` is `x % 2^k`, and `|` of two
    operands whose set bits cannot overlap is `+`. Signed right shifts of
    negative values are floor divisions (Dafny's `/` by a positive divisor). */
module BitMath {

  const TWO_19: nat := 0x8_0000
  const TWO_32: nat := 0x1_0000_0000
  const TWO_41: nat := 0x200_0000_0000
  const TWO_52: nat := 0x10_0000_0000_0000
  const TWO_53: nat := 0x20_0000_0000_0000
  const TWO_61: nat := 0x2000_0000_0000_0000
  const TWO_62: nat := 0x4000_0000_0000_0000
  const TWO_63: nat := 0x8000_0000_0000_0000
  const TWO_64: nat := 0x1_0000_0000_0000_0000
  const TWO_127: nat := 0x8000_0000_0000_0000_0000_0000_0000_0000
  const TWO_128: nat := 0x1_0000_0000_0000_0000_0000_0000_0000_0000

  /** C's uint64_t and (32-bit) unsigned. */
  type u64 = x: int | 0 <= x < 0x1_0000_0000_0000_0000
  type u32 = x: int | 0 <= x < 0x1_0000_0000

  function Pow2(k: nat): (r: nat)
    ensures r >= 1
  {
    if k == 0 then 1 else 2 * Pow2(k - 1)
  }

  lemma {:induction false} Pow2Add(a: nat, b: nat)
    ensures Pow2(a + b) == Pow2(a) * Pow2(b)
  {
    if b > 0 {
      Pow2Add(a, b - 1);
      assert Pow2(a + b) == 2 * Pow2(a + b - 1);
    }
  }

  lemma {:induction false} Pow2Monotone(a: nat, b: nat)
    requires a <= b
    ensures Pow2(a) <= Pow2(b)
  {
    if a < b {
      Pow2Monotone(a, b - 1);
    }
  }

  /** The `uint128` struct: two 64-bit words. */
  datatype UInt128 = UInt128(hi: u64, lo: u64)
  {
    function Value(): nat { hi * TWO_64 + lo }
  }

  lemma {:induction false} UInt128Unique(p: UInt128, q: UInt128)
    requires p.Value() == q.Value()
    ensures p == q
  {
    assert p.hi == p.Value() / TWO_64 && q.hi == q.Value() / TWO_64;
  }

  lemma ProductBound(x: u64, y: u64)
    ensures x * y <= (TWO_64 - 1) * (TWO_64 - 1) < TWO_128
  {
    MulLe(x, y, TWO_64 - 1, TWO_64 - 1);
  }

  lemma MulLe(p: nat, q: nat, m: nat, n: nat)
    requires p <= m && q <= n
    ensures p * q <= m * n
  {
    assert p * q <= p * n;
    assert p * n <= m * n;
  }

  /** umul128, the `__int128` branch: the product split into its two words. */
  function Umul128(x: u64, y: u64): (r: UInt128)
    ensures r.Value() == x * y
  {
    ProductBound(x, y);
    UInt128(x * y / TWO_64, x * y % TWO_64)
  }

  /** umul128, the portable branch: four 32x32-bit partial products and a
      carry-collecting middle word. */
  function Umul128Portable(x: u64, y: u64): (r: UInt128)
    ensures r.Value() == x * y
  {
    var a, b := x / TWO_32, x % TWO_32;
    var c, d := y / TWO_32, y % TWO_32;
    LimbProducts(a, b, c, d);
    var ac: u64, bc: u64, ad: u64, bd: u64 := a * c, b * c, a * d, b * d;
    MiddleWordFits(ad, bc, bd);
    var intermediate: u64 := bd / TWO_32 + ad % TWO_32 + bc % TWO_32;
    var hi := (ac + intermediate / TWO_32 + ad / TWO_32 + bc / TWO_32) % TWO_64;
    var lo := ((intermediate * TWO_32) % TWO_64 + bd % TWO_32) % TWO_64;
    PortableExact(x, y, a, b, c, d, intermediate, hi, lo);
    UInt128(hi, lo)
  }

  lemma MiddleWordFits(ad: int, bc: int, bd: int)
    requires 0 <= bd < TWO_64
    ensures bd / TWO_32 + ad % TWO_32 + bc % TWO_32 < TWO_64
  {
  }

  lemma LimbProducts(a: nat, b: nat, c: nat, d: nat)
    requires a < TWO_32 && b < TWO_32 && c < TWO_32 && d < TWO_32
    ensures a * c < TWO_64 && b * c < TWO_64 && a * d < TWO_64 && b * d < TWO_64
  {
    MulLess(a, c, TWO_32);
    MulLess(b, c, TWO_32);
    MulLess(a, d, TWO_32);
    MulLess(b, d, TWO_32);
  }

  lemma MulLess(p: nat, q: nat, m: nat)
    requires p < m && q < m
    ensures p * q < m * m
  {
    if p > 0 {
      assert p * q < p * m;
      assert p * m <= m * m;
    }
  }

  /** The arithmetic behind the portable branch: the four limb products and
      `intermediate` fit in 64 bits, the sum that forms `hi` never wraps, and
      the words recombine into the exact product. The left shift that forms
      `lo` does drop the top 32 bits of `intermediate`: those are the ones
      `intermediate >> 32` adds into `hi`. */
  lemma PortableExact(x: nat, y: nat, a: nat, b: nat, c: nat, d: nat, im: nat, hi: nat, lo: nat)
    requires x < TWO_64 && y < TWO_64
    requires a == x / TWO_32 && b == x % TWO_32 && c == y / TWO_32 && d == y % TWO_32
    requires im == b * d / TWO_32 + a * d % TWO_32 + b * c % TWO_32
    requires hi == (a * c + im / TWO_32 + a * d / TWO_32 + b * c / TWO_32) % TWO_64
    requires lo == ((im * TWO_32) % TWO_64 + b * d % TWO_32) % TWO_64
    ensures a * c < TWO_64 && a * d < TWO_64 && b * c < TWO_64 && b * d < TWO_64
    ensures im < TWO_64
    ensures a * c + im / TWO_32 + a * d / TWO_32 + b * c / TWO_32 < TWO_64
    ensures hi * TWO_64 + lo == x * y
  {
    LimbProducts(a, b, c, d);
    MiddleWordFits(a * d, b * c, b * d);
    PortableRecombine(x, y, a, b, c, d, im);
  }

  lemma PortableRecombine(x: nat, y: nat, a: nat, b: nat, c: nat, d: nat, im: nat)
    requires x < TWO_64 && y < TWO_64
    requires a == x / TWO_32 && b == x % TWO_32 && c == y / TWO_32 && d == y % TWO_32
    requires im == b * d / TWO_32 + a * d % TWO_32 + b * c % TWO_32
    ensures a * c + im / TWO_32 + a * d / TWO_32 + b * c / TWO_32 < TWO_64
    ensures (a * c + im / TWO_32 + a * d / TWO_32 + b * c / TWO_32) % TWO_64 * TWO_64
          + ((im * TWO_32) % TWO_64 + b * d % TWO_32) % TWO_64 == x * y
  {
    var h := a * c + im / TWO_32 + a * d / TWO_32 + b * c / TWO_32;
    assert x * y == h * TWO_64 + (im % TWO_32) * TWO_32 + b * d % TWO_32 by {
      LimbExpansion(x, y, a, b, c, d);
      CarryCollect(a * c, a * d, b * c, b * d, im);
    }
    ProductBound(x, y);
    WordsOfProduct(x * y, h, im, b * d % TWO_32);
  }

  lemma WordsOfProduct(p: nat, h: nat, im: nat, l: nat)
    requires p < TWO_128 && l < TWO_32
    requires p == h * TWO_64 + (im % TWO_32) * TWO_32 + l
    ensures h < TWO_64
    ensures h % TWO_64 * TWO_64 + ((im * TWO_32) % TWO_64 + l) % TWO_64 == p
  {
    var m, q := im % TWO_32, im / TWO_32;
    assert m * TWO_32 < TWO_64 by { MulLe(m, TWO_32, TWO_32 - 1, TWO_32); }
    assert im * TWO_32 == q * TWO_64 + m * TWO_32 by {
      assert im == q * TWO_32 + m;
    }
    ModOfMultiple(im * TWO_32, q, m * TWO_32);
    assert h < TWO_64;
  }

  lemma ModOfMultiple(v: nat, q: nat, r: nat)
    requires r < TWO_64 && v == q * TWO_64 + r
    ensures v % TWO_64 == r
  {
  }

  lemma LimbExpansion(x: int, y: int, a: int, b: int, c: int, d: int)
    requires a == x / TWO_32 && b == x % TWO_32 && c == y / TWO_32 && d == y % TWO_32
    ensures x * y == (a * c) * TWO_64 + (a * d + b * c) * TWO_32 + b * d
  {
    var T := TWO_32;
    assert x == a * T + b && y == c * T + d;
    calc {
      x * y;
      (a * T + b) * (c * T + d);
      a * T * (c * T + d) + b * (c * T + d);
      a * T * c * T + a * T * d + b * c * T + b * d;
      { assert a * T * c * T == (a * c) * (T * T); }
      (a * c) * TWO_64 + (a * d + b * c) * T + b * d;
    }
  }

  lemma CarryCollect(ac: int, ad: int, bc: int, bd: int, im: int)
    requires im == bd / TWO_32 + ad % TWO_32 + bc % TWO_32
    ensures ac * TWO_64 + (ad + bc) * TWO_32 + bd
         == (ac + im / TWO_32 + ad / TWO_32 + bc / TWO_32) * TWO_64 + (im % TWO_32) * TWO_32 + bd % TWO_32
  {
    var T := TWO_32;
    assert ad == (ad / T) * T + ad % T;
    assert bc == (bc / T) * T + bc % T;
    assert bd == (bd / T) * T + bd % T;
    assert im == (im / T) * T + im % T;
  }

  /** Both branches of umul128 compute the same pair of words. */
  lemma Umul128BranchesAgree(x: u64, y: u64)
    ensures Umul128Portable(x, y) == Umul128(x, y)
  {
    UInt128Unique(Umul128Portable(x, y), Umul128(x, y));
  }

  /** floor_log2_pow10: floor(e * 1741647 / 2^19), rounding toward negative
      infinity also for negative e (the code negates, rounds up, negates). */
  function FloorLog2Pow10(e: int): (r: int)
    ensures r * TWO_19 <= 1741647 * e < (r + 1) * TWO_19
  {
    var n := 1741647 * e;
    if n >= 0 then n / TWO_19 else -((-n + (TWO_19 - 1)) / TWO_19)
  }

  /** floor_log10_pow2: floor(e * 661971961083 / 2^41); the arithmetic right
      shift of the 64-bit product is a floor division. */
  function FloorLog10Pow2(e: int): (r: int)
    ensures r * TWO_41 <= e * 661971961083 < (r + 1) * TWO_41
  {
    (e * 661971961083) / TWO_41
  }

  /** `w / 2^63` with its lowest bit forced to 1 when the division is inexact
      ("round to odd"): an even result is always exact. */
  function RoundToOdd(w: nat): nat
  {
    var q := w / TWO_63;
    if w % TWO_63 != 0 && q % 2 == 0 then q + 1 else q
  }

  lemma RoundToOddProperties(w: nat)
    ensures w / TWO_63 <= RoundToOdd(w) <= w / TWO_63 + 1
    ensures RoundToOdd(w) % 2 == 0 ==> RoundToOdd(w) * TWO_63 == w
    ensures w % TWO_63 != 0 ==> RoundToOdd(w) % 2 == 1
  {
  }

  /** The upper 128 bits, in units of 2^64, of the 191-bit product of the
      127-bit table value `pHi * 2^63 + pLo` with `x`, where the two partial
      products are each truncated before they are added. */
  function TruncatedUpper(pHi: nat, pLo: nat, x: nat): nat
  {
    (pHi * x) / 2 + (pLo * x) / TWO_64
  }

  /** umul192_upper64_modified: the product of the table entry with `x`,
      scaled by 2^-127 and rounded to odd. The approximation it rounds is
      below the exact product by less than two units of 2^64. */
  function Umul192Upper64Modified(pow10Hi: u64, pow10Lo: u64, scaledSig: u64): u64
    requires pow10Lo < TWO_63
  {
    var xHi := Umul128(pow10Lo, scaledSig).hi;
    var y := Umul128(pow10Hi, scaledSig);
    Umul192Fits(pow10Hi, pow10Lo, scaledSig, xHi, y);
    StickyRound(y.hi, y.lo / 2 + xHi)
  }

  /** The result is the truncated product rounded to odd, and the truncated
      product lies less than two units of 2^64 below the exact one. */
  lemma Umul192Approximates(pow10Hi: u64, pow10Lo: u64, scaledSig: u64)
    requires pow10Lo < TWO_63
    ensures TruncatedUpper(pow10Hi, pow10Lo, scaledSig) * TWO_64
            <= (pow10Hi * TWO_63 + pow10Lo) * scaledSig
            < (TruncatedUpper(pow10Hi, pow10Lo, scaledSig) + 2) * TWO_64
    ensures Umul192Upper64Modified(pow10Hi, pow10Lo, scaledSig)
            == RoundToOdd(TruncatedUpper(pow10Hi, pow10Lo, scaledSig))
  {
    var xHi := Umul128(pow10Lo, scaledSig).hi;
    var y := Umul128(pow10Hi, scaledSig);
    Umul192Words(pow10Hi, pow10Lo, scaledSig, xHi, y);
    StickyRoundValue(y.hi, y.lo / 2 + xHi);
  }

  /** The last two lines of umul192_upper64_modified: with z the sum of the
      middle words, the result is hi + z / 2^63, its lowest bit set when the
      63 low bits of z are not all zero. */
  function StickyRound(hi: nat, z: nat): (r: nat)
    requires hi <= TWO_64 - 2 && z < TWO_64
    ensures r < TWO_64
  {
    var result := hi + z / TWO_63;
    var mask := TWO_63 - 1;
    var sticky := (z % TWO_63 + mask) / TWO_63;
    if sticky == 1 && result % 2 == 0 then result + 1 else result
  }

  lemma StickyRoundValue(hi: nat, z: nat)
    requires hi <= TWO_64 - 2 && z < TWO_64
    ensures StickyRound(hi, z) == RoundToOdd(hi * TWO_63 + z)
  {
    StickyOr(hi * TWO_63 + z, hi, z);
  }

  /** The two words umul192_upper64_modified rounds never overflow. */
  lemma Umul192Fits(pHi: u64, pLo: u64, x: u64, xHi: nat, y: UInt128)
    requires pLo < TWO_63
    requires xHi == Umul128(pLo, x).hi && y == Umul128(pHi, x)
    ensures y.hi <= TWO_64 - 2 && y.lo / 2 + xHi < TWO_64
  {
    Umul192Words(pHi, pLo, x, xHi, y);
  }

  lemma StickyOr(w: nat, hi: nat, z: nat)
    requires w == hi * TWO_63 + z && z < TWO_64
    ensures var result := hi + z / TWO_63;
      var sticky := (z % TWO_63 + (TWO_63 - 1)) / TWO_63;
      RoundToOdd(w) == if sticky == 1 && result % 2 == 0 then result + 1 else result
  {
    assert w / TWO_63 == hi + z / TWO_63;
    assert w % TWO_63 == z % TWO_63;
  }

  lemma Umul192Words(pHi: u64, pLo: u64, x: u64, xHi: nat, y: UInt128)
    requires pLo < TWO_63
    requires xHi == Umul128(pLo, x).hi && y == Umul128(pHi, x)
    ensures xHi < TWO_63 && y.hi <= TWO_64 - 2
    ensures y.lo / 2 + xHi < TWO_64
    ensures TruncatedUpper(pHi, pLo, x) == y.hi * TWO_63 + (y.lo / 2 + xHi)
    ensures var w := TruncatedUpper(pHi, pLo, x);
      w * TWO_64 <= (pHi * TWO_63 + pLo) * x < (w + 2) * TWO_64
  {
    assert xHi == pLo * x / TWO_64;
    assert pLo * x <= pLo * (TWO_64 - 1);
    assert xHi < TWO_63 by {
      assert pLo * x < TWO_63 * TWO_64 by { MulLess2(pLo, x, TWO_63, TWO_64); }
    }
    assert pHi * x == y.hi * TWO_64 + y.lo;
    ProductBound(pHi, x);
    assert y.hi <= TWO_64 - 2;
    var z := y.lo / 2 + xHi;
    var w := TruncatedUpper(pHi, pLo, x);
    assert (pHi * x) / 2 == y.hi * TWO_63 + y.lo / 2;
    assert w == y.hi * TWO_63 + z;
    assert z < TWO_64;
    assert (pHi * TWO_63 + pLo) * x == pHi * x * TWO_63 + pLo * x;
  }

  lemma MulLess2(p: nat, q: nat, m: nat, n: nat)
    requires p < m && q < n
    ensures p * q < m * n
  {
    assert p * q <= p * n;
    if p < m { assert p * n < m * n; }
  }
}
