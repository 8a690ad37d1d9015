/** The digit writer: write8digits emits eight zero-padded decimal digits with
    one multiplication and eight fixed-point steps; write_dec writes a decimal
    significand and exponent as `d ["." d+] "e" ("+"|"-") d d [d]`. */
module DigitWriter {
  import opened BitMath
  import opened DecimalText

  const TWO_20: nat := 0x10_0000
  const TWO_28: nat := 0x1000_0000
  const TWO_84: nat := 0x10_0000_0000_0000_0000_0000
  const POW10_8: nat := 100000000
  const POW10_16: nat := 10000000000000000
  const POW10_17: nat := 100000000000000000

  /** ceil(2^84 / 10^8): MAGIC * 10^8 == 2^84 + 4701184. */
  const MAGIC: nat := 193428131138340668

  /** The powers of ten the writer uses, as literals. */
  lemma Pow10Literals()
    ensures Pow10(1) == 10 && Pow10(2) == 100 && Pow10(3) == 1000
    ensures Pow10(4) == 10000 && Pow10(5) == 100000 && Pow10(6) == 1000000
    ensures Pow10(7) == 10000000 && Pow10(8) == POW10_8
    ensures Pow10(9) == 1000000000 && Pow10(10) == 10000000000
    ensures Pow10(11) == 100000000000 && Pow10(12) == 1000000000000
    ensures Pow10(13) == 10000000000000 && Pow10(14) == 100000000000000
    ensures Pow10(15) == 1000000000000000 && Pow10(16) == POW10_16
    ensures Pow10(17) == POW10_17
  {
    assert Pow10(1) == 10;
    assert Pow10(2) == 100;
    assert Pow10(3) == 1000;
    assert Pow10(4) == 10000;
    assert Pow10(5) == 100000;
    assert Pow10(6) == 1000000;
    assert Pow10(7) == 10000000;
    assert Pow10(8) == 100000000;
    assert Pow10(9) == 1000000000;
    assert Pow10(10) == 10000000000;
    assert Pow10(11) == 100000000000;
    assert Pow10(12) == 1000000000000;
    assert Pow10(13) == 10000000000000;
    assert Pow10(14) == 100000000000000;
    assert Pow10(15) == 1000000000000000;
    assert Pow10(16) == 10000000000000000;
  }

  /** The starting fixed-point value of write8digits: y / 2^28 lies within
      2^-28 above n / 10^8, read as a fraction of 10^8. */
  function Write8Seed(n: nat): (y: nat)
    requires n < POW10_8
    ensures y < TWO_28
    ensures n * TWO_28 <= y * POW10_8 < (n + 1) * TWO_28
  {
    SeedBounds(n);
    Umul128(((n + 1) * TWO_28) as u64, MAGIC).hi / TWO_20 - 1
  }

  lemma SeedBounds(n: nat)
    requires n < POW10_8
    ensures (n + 1) * TWO_28 < TWO_64
    ensures var f := (n + 1) * TWO_28 * MAGIC / TWO_64 / TWO_20;
      1 <= f && f - 1 < TWO_28 && n * TWO_28 <= (f - 1) * POW10_8 < (n + 1) * TWO_28
  {
    var a := (n + 1) * TWO_28;
    var p := a * MAGIC;
    DivModNested(p, TWO_64, TWO_20);
    assert TWO_64 * TWO_20 == TWO_84;
    var f := p / TWO_84;
    assert f * TWO_84 <= p < f * TWO_84 + TWO_84;
    assert p * POW10_8 == a * TWO_84 + a * 4701184;
    assert a * 4701184 < TWO_84;
    MulOrder(f * POW10_8, a + 1, TWO_84);
    MulOrder(a, f * POW10_8 + POW10_8, TWO_84);
    Distribute(f, 1, TWO_84 * POW10_8);
  }

  /** One step of write8digits. With y / 2^28 approximating m / 10q, the
      digit 10y >> 28 is the leading digit m / q of m, and the remainder
      10y & (2^28 - 1) approximates m % q in the same way. */
  lemma DigitStep(y: nat, m: nat, q: nat)
    requires q >= 1 && m < 10 * q
    requires m * TWO_28 <= y * (10 * q) < (m + 1) * TWO_28
    ensures (10 * y) / TWO_28 == m / q
    ensures (m % q) * TWO_28 <= ((10 * y) % TWO_28) * q < (m % q + 1) * TWO_28
  {
    var d, r := m / q, m % q;
    var t := 10 * y;
    assert y * (10 * q) == t * q;
    DigitBounds(t, m, d, q, r);
    DivModUnique(t, TWO_28, d, t - d * TWO_28);
    RemainderScaled(t, m, d, q, r);
  }

  lemma DigitBounds(t: nat, m: nat, d: nat, q: nat, r: nat)
    requires q >= 1 && m == d * q + r && r < q
    requires m * TWO_28 <= t * q < (m + 1) * TWO_28
    ensures d * TWO_28 <= t < (d + 1) * TWO_28
  {
    DigitAbove(t, m, d, q);
    DigitBelow(t, m, d, q, r);
  }

  lemma DigitAbove(t: nat, m: nat, d: nat, q: nat)
    requires q >= 1 && d * q <= m && m * TWO_28 <= t * q
    ensures d * TWO_28 <= t
  {
    Associate(d, TWO_28, q);
    MulOrder(t, d * TWO_28, q);
    MulOrder(m, d * q, TWO_28);
  }

  lemma DigitBelow(t: nat, m: nat, d: nat, q: nat, r: nat)
    requires q >= 1 && m == d * q + r && r < q && t * q < (m + 1) * TWO_28
    ensures t < (d + 1) * TWO_28
  {
    assert m + 1 <= (d + 1) * q by { Distribute(d, 1, q); }
    MulOrder((d + 1) * q, m + 1, TWO_28);
    Associate(d + 1, TWO_28, q);
    MulOrder((d + 1) * TWO_28, t, q);
  }

  lemma RemainderScaled(t: nat, m: nat, d: nat, q: nat, r: nat)
    requires q >= 1 && m == d * q + r && r < q
    requires m * TWO_28 <= t * q < (m + 1) * TWO_28
    ensures r * TWO_28 <= (t - d * TWO_28) * q < (r + 1) * TWO_28
  {
    assert (t - d * TWO_28) * q == t * q - d * q * TWO_28 by {
      var k: int := -(d * TWO_28);
      Distribute(t, k, q);
      Associate(d, TWO_28, q);
    }
    assert r * TWO_28 == m * TWO_28 - d * q * TWO_28 by {
      Distribute(d * q, r, TWO_28);
    }
    Distribute(r, 1, TWO_28);
    Distribute(m, 1, TWO_28);
  }

  /** The invariant of the digit loop with j digits left: y / 2^28 approximates
      the fraction (n % 10^j) / 10^j from above by less than 2^-28. */
  predicate Approximates(n: nat, j: nat, y: nat)
  {
    var m := n % Pow10(j);
    m * TWO_28 <= y * Pow10(j) < (m + 1) * TWO_28
  }

  /** One iteration of the digit loop: the digit 10y >> 28 is digit i of the
      zero-padded n, and the invariant moves on to n % 10^(7-i). */
  lemma Write8Advance(n: nat, i: nat, y: nat)
    requires i < 8 && y < TWO_28
    requires Approximates(n, 8 - i, y)
    ensures (10 * y) / TWO_28 < 10
    ensures ZeroPad(n, 8)[i] == DigitChar((10 * y) / TWO_28)
    ensures Approximates(n, 8 - (i + 1), (10 * y) % TWO_28)
  {
    var q := Pow10(7 - i);
    var m := n % Pow10(8 - i);
    assert Pow10(8 - i) == 10 * q;
    DigitStep(y, m, q);
    DigitOfRemainder(n, i);
    ZeroPadAt(n, 8, i);
  }

  /** The bookkeeping of the digit loop: the digit at position i of the
      zero-padded n is the leading digit of n % 10^(8-i). */
  lemma DigitOfRemainder(n: nat, i: nat)
    requires i < 8
    ensures var q := Pow10(7 - i);
      n % Pow10(8 - i) / q == n / q % 10 && n % Pow10(8 - i) % q == n % q
  {
    var q := Pow10(7 - i);
    assert Pow10(8 - i) == q * 10;
    DivModNested(n, q, 10);
    DivModUnique(n % (q * 10), q, n / q % 10, n % q);
  }

  /** The fixed-point value y held by write8digits after i iterations. */
  function Fraction(n: nat, i: nat): (y: nat)
    requires n < POW10_8
    ensures y < TWO_28
  {
    if i == 0 then Write8Seed(n) else (10 * Fraction(n, i - 1)) % TWO_28
  }

  /** The loop invariant holds after every iteration. */
  lemma {:induction false} FractionApproximates(n: nat, i: nat)
    requires n < POW10_8 && i <= 8
    ensures Approximates(n, 8 - i, Fraction(n, i))
  {
    if i == 0 {
      Pow10Literals();
    } else {
      FractionApproximates(n, i - 1);
      Write8Advance(n, i - 1, Fraction(n, i - 1));
    }
  }

  /** Iteration i emits digit i of the zero-padded n. */
  lemma FractionDigit(n: nat, i: nat)
    requires n < POW10_8 && i < 8
    ensures (10 * Fraction(n, i)) / TWO_28 < 10
    ensures ZeroPad(n, 8)[i] == DigitChar((10 * Fraction(n, i)) / TWO_28)
  {
    FractionApproximates(n, i);
    Write8Advance(n, i, Fraction(n, i));
  }

  /** write8digits: the eight characters at pos are n zero-padded to eight
      digits; nothing outside them changes. */
  method Write8Digits(buf: array<char>, pos: nat, n: nat) returns (next: nat)
    requires n < POW10_8 && pos + 8 <= buf.Length
    modifies buf
    ensures next == pos + 8
    ensures buf[pos..next] == ZeroPad(n, 8)
    ensures buf[..pos] == old(buf[..pos]) && buf[next..] == old(buf[next..])
  {
    var y := Write8Seed(n);
    next := pos;
    var i := 0;
    while i < 8
      invariant 0 <= i <= 8 && next == pos + i
      invariant y == Fraction(n, i)
      invariant buf[pos..next] == ZeroPad(n, 8)[..i]
      invariant buf[..pos] == old(buf[..pos]) && buf[pos + 8..] == old(buf[pos + 8..])
    {
      var t := 10 * y;
      FractionDigit(n, i);
      buf[next] := DigitChar(t / TWO_28);
      next := next + 1;
      y := t % TWO_28;
      i := i + 1;
    }
  }

  /** The number of significant bits of x: 64 - __builtin_clzll(x) for x >= 1. */
  function BitLength(x: nat): (b: nat)
    ensures x >= 1 ==> b >= 1 && Pow2(b - 1) <= x < Pow2(b)
    ensures x == 0 ==> b == 0
  {
    if x == 0 then 0 else 1 + BitLength(x / 2)
  }

  /** Powers of two as literals, up to 2^57 > 10^17. */
  lemma Pow2Literals()
    ensures Pow2(0) == 1 && Pow2(1) == 2 && Pow2(2) == 4
    ensures Pow2(3) == 8 && Pow2(4) == 16 && Pow2(5) == 32
    ensures Pow2(6) == 64 && Pow2(7) == 128 && Pow2(8) == 256
    ensures Pow2(9) == 512 && Pow2(10) == 1024 && Pow2(11) == 2048
    ensures Pow2(12) == 4096 && Pow2(13) == 8192 && Pow2(14) == 16384
    ensures Pow2(15) == 32768 && Pow2(16) == 65536 && Pow2(17) == 131072
    ensures Pow2(18) == 262144 && Pow2(19) == 524288 && Pow2(20) == 1048576
    ensures Pow2(21) == 2097152 && Pow2(22) == 4194304 && Pow2(23) == 8388608
    ensures Pow2(24) == 16777216 && Pow2(25) == 33554432 && Pow2(26) == 67108864
    ensures Pow2(27) == 134217728 && Pow2(28) == 268435456 && Pow2(29) == 536870912
    ensures Pow2(30) == 1073741824 && Pow2(31) == 2147483648 && Pow2(32) == 4294967296
    ensures Pow2(33) == 8589934592 && Pow2(34) == 17179869184 && Pow2(35) == 34359738368
    ensures Pow2(36) == 68719476736 && Pow2(37) == 137438953472 && Pow2(38) == 274877906944
    ensures Pow2(39) == 549755813888 && Pow2(40) == 1099511627776 && Pow2(41) == 2199023255552
    ensures Pow2(42) == 4398046511104 && Pow2(43) == 8796093022208 && Pow2(44) == 17592186044416
    ensures Pow2(45) == 35184372088832 && Pow2(46) == 70368744177664 && Pow2(47) == 140737488355328
    ensures Pow2(48) == 281474976710656 && Pow2(49) == 562949953421312 && Pow2(50) == 1125899906842624
    ensures Pow2(51) == 2251799813685248 && Pow2(52) == 4503599627370496 && Pow2(53) == 9007199254740992
    ensures Pow2(54) == 18014398509481984 && Pow2(55) == 36028797018963968 && Pow2(56) == 72057594037927936
    ensures Pow2(57) == 144115188075855872
  {
    assert Pow2(1) == 2;
    assert Pow2(2) == 4;
    assert Pow2(3) == 8;
    assert Pow2(4) == 16;
    assert Pow2(5) == 32;
    assert Pow2(6) == 64;
    assert Pow2(7) == 128;
    assert Pow2(8) == 256;
    assert Pow2(9) == 512;
    assert Pow2(10) == 1024;
    assert Pow2(11) == 2048;
    assert Pow2(12) == 4096;
    assert Pow2(13) == 8192;
    assert Pow2(14) == 16384;
    assert Pow2(15) == 32768;
    assert Pow2(16) == 65536;
    assert Pow2(17) == 131072;
    assert Pow2(18) == 262144;
    assert Pow2(19) == 524288;
    assert Pow2(20) == 1048576;
    assert Pow2(21) == 2097152;
    assert Pow2(22) == 4194304;
    assert Pow2(23) == 8388608;
    assert Pow2(24) == 16777216;
    assert Pow2(25) == 33554432;
    assert Pow2(26) == 67108864;
    assert Pow2(27) == 134217728;
    assert Pow2(28) == 268435456;
    assert Pow2(29) == 536870912;
    assert Pow2(30) == 1073741824;
    assert Pow2(31) == 2147483648;
    assert Pow2(32) == 4294967296;
    assert Pow2(33) == 8589934592;
    assert Pow2(34) == 17179869184;
    assert Pow2(35) == 34359738368;
    assert Pow2(36) == 68719476736;
    assert Pow2(37) == 137438953472;
    assert Pow2(38) == 274877906944;
    assert Pow2(39) == 549755813888;
    assert Pow2(40) == 1099511627776;
    assert Pow2(41) == 2199023255552;
    assert Pow2(42) == 4398046511104;
    assert Pow2(43) == 8796093022208;
    assert Pow2(44) == 17592186044416;
    assert Pow2(45) == 35184372088832;
    assert Pow2(46) == 70368744177664;
    assert Pow2(47) == 140737488355328;
    assert Pow2(48) == 281474976710656;
    assert Pow2(49) == 562949953421312;
    assert Pow2(50) == 1125899906842624;
    assert Pow2(51) == 2251799813685248;
    assert Pow2(52) == 4503599627370496;
    assert Pow2(53) == 9007199254740992;
    assert Pow2(54) == 18014398509481984;
    assert Pow2(55) == 36028797018963968;
    assert Pow2(56) == 72057594037927936;
    assert Pow2(57) == 144115188075855872;
  }

  /** For every bit length b of a significand below 10^17,
      10^floor_log10_pow2(b) <= 2^b < 10^(floor_log10_pow2(b) + 1). */
  lemma Log10Bracket(b: nat)
    requires 1 <= b <= 57
    ensures FloorLog10Pow2(b) <= 17
    ensures Pow10(FloorLog10Pow2(b)) <= Pow2(b) < Pow10(FloorLog10Pow2(b) + 1)
  {
    Pow2Literals();
    Pow10Literals();
    assert Pow10(18) == 10 * POW10_17;
    if b <= 4 {
      Log10Bracket1To4(b);
    } else if b <= 8 {
      Log10Bracket5To8(b);
    } else if b <= 12 {
      Log10Bracket9To12(b);
    } else if b <= 16 {
      Log10Bracket13To16(b);
    } else if b <= 20 {
      Log10Bracket17To20(b);
    } else if b <= 24 {
      Log10Bracket21To24(b);
    } else if b <= 28 {
      Log10Bracket25To28(b);
    } else if b <= 32 {
      Log10Bracket29To32(b);
    } else if b <= 36 {
      Log10Bracket33To36(b);
    } else if b <= 40 {
      Log10Bracket37To40(b);
    } else if b <= 44 {
      Log10Bracket41To44(b);
    } else if b <= 48 {
      Log10Bracket45To48(b);
    } else if b <= 52 {
      Log10Bracket49To52(b);
    } else {
      Log10Bracket53To57(b);
    }
  }

  lemma Log10Bracket1To4(b: nat)
    requires 1 <= b <= 4
    requires Pow2(1) == 2 && Pow2(2) == 4 && Pow2(3) == 8 && Pow2(4) == 16
    requires Pow10(0) == 1 && Pow10(1) == 10 && Pow10(2) == 100
    ensures Bracketed(b)
  {
    if b == 1 {
      BracketAt(b, 0, 2, 1, 10);
    } else if b == 2 {
      BracketAt(b, 0, 4, 1, 10);
    } else if b == 3 {
      BracketAt(b, 0, 8, 1, 10);
    } else {
      BracketAt(b, 1, 16, 10, 100);
    }
  }

  lemma Log10Bracket5To8(b: nat)
    requires 5 <= b <= 8
    requires Pow2(5) == 32 && Pow2(6) == 64 && Pow2(7) == 128 && Pow2(8) == 256
    requires Pow10(1) == 10 && Pow10(2) == 100 && Pow10(3) == 1000
    ensures Bracketed(b)
  {
    if b == 5 {
      BracketAt(b, 1, 32, 10, 100);
    } else if b == 6 {
      BracketAt(b, 1, 64, 10, 100);
    } else if b == 7 {
      BracketAt(b, 2, 128, 100, 1000);
    } else {
      BracketAt(b, 2, 256, 100, 1000);
    }
  }

  lemma Log10Bracket9To12(b: nat)
    requires 9 <= b <= 12
    requires Pow2(9) == 512 && Pow2(10) == 1024 && Pow2(11) == 2048 && Pow2(12) == 4096
    requires Pow10(2) == 100 && Pow10(3) == 1000 && Pow10(4) == 10000
    ensures Bracketed(b)
  {
    if b == 9 {
      BracketAt(b, 2, 512, 100, 1000);
    } else if b == 10 {
      BracketAt(b, 3, 1024, 1000, 10000);
    } else if b == 11 {
      BracketAt(b, 3, 2048, 1000, 10000);
    } else {
      BracketAt(b, 3, 4096, 1000, 10000);
    }
  }

  lemma Log10Bracket13To16(b: nat)
    requires 13 <= b <= 16
    requires Pow2(13) == 8192 && Pow2(14) == 16384 && Pow2(15) == 32768 && Pow2(16) == 65536
    requires Pow10(3) == 1000 && Pow10(4) == 10000 && Pow10(5) == 100000
    ensures Bracketed(b)
  {
    if b == 13 {
      BracketAt(b, 3, 8192, 1000, 10000);
    } else if b == 14 {
      BracketAt(b, 4, 16384, 10000, 100000);
    } else if b == 15 {
      BracketAt(b, 4, 32768, 10000, 100000);
    } else {
      BracketAt(b, 4, 65536, 10000, 100000);
    }
  }

  lemma Log10Bracket17To20(b: nat)
    requires 17 <= b <= 20
    requires Pow2(17) == 131072 && Pow2(18) == 262144 && Pow2(19) == 524288 && Pow2(20) == 1048576
    requires Pow10(5) == 100000 && Pow10(6) == 1000000 && Pow10(7) == 10000000
    ensures Bracketed(b)
  {
    if b == 17 {
      BracketAt(b, 5, 131072, 100000, 1000000);
    } else if b == 18 {
      BracketAt(b, 5, 262144, 100000, 1000000);
    } else if b == 19 {
      BracketAt(b, 5, 524288, 100000, 1000000);
    } else {
      BracketAt(b, 6, 1048576, 1000000, 10000000);
    }
  }

  lemma Log10Bracket21To24(b: nat)
    requires 21 <= b <= 24
    requires Pow2(21) == 2097152 && Pow2(22) == 4194304 && Pow2(23) == 8388608 && Pow2(24) == 16777216
    requires Pow10(6) == 1000000 && Pow10(7) == 10000000 && Pow10(8) == 100000000
    ensures Bracketed(b)
  {
    if b == 21 {
      BracketAt(b, 6, 2097152, 1000000, 10000000);
    } else if b == 22 {
      BracketAt(b, 6, 4194304, 1000000, 10000000);
    } else if b == 23 {
      BracketAt(b, 6, 8388608, 1000000, 10000000);
    } else {
      BracketAt(b, 7, 16777216, 10000000, 100000000);
    }
  }

  lemma Log10Bracket25To28(b: nat)
    requires 25 <= b <= 28
    requires Pow2(25) == 33554432 && Pow2(26) == 67108864 && Pow2(27) == 134217728 && Pow2(28) == 268435456
    requires Pow10(7) == 10000000 && Pow10(8) == 100000000 && Pow10(9) == 1000000000
    ensures Bracketed(b)
  {
    if b == 25 {
      BracketAt(b, 7, 33554432, 10000000, 100000000);
    } else if b == 26 {
      BracketAt(b, 7, 67108864, 10000000, 100000000);
    } else if b == 27 {
      BracketAt(b, 8, 134217728, 100000000, 1000000000);
    } else {
      BracketAt(b, 8, 268435456, 100000000, 1000000000);
    }
  }

  lemma Log10Bracket29To32(b: nat)
    requires 29 <= b <= 32
    requires Pow2(29) == 536870912 && Pow2(30) == 1073741824 && Pow2(31) == 2147483648 && Pow2(32) == 4294967296
    requires Pow10(8) == 100000000 && Pow10(9) == 1000000000 && Pow10(10) == 10000000000
    ensures Bracketed(b)
  {
    if b == 29 {
      BracketAt(b, 8, 536870912, 100000000, 1000000000);
    } else if b == 30 {
      BracketAt(b, 9, 1073741824, 1000000000, 10000000000);
    } else if b == 31 {
      BracketAt(b, 9, 2147483648, 1000000000, 10000000000);
    } else {
      BracketAt(b, 9, 4294967296, 1000000000, 10000000000);
    }
  }

  lemma Log10Bracket33To36(b: nat)
    requires 33 <= b <= 36
    requires Pow2(33) == 8589934592 && Pow2(34) == 17179869184 && Pow2(35) == 34359738368 && Pow2(36) == 68719476736
    requires Pow10(9) == 1000000000 && Pow10(10) == 10000000000 && Pow10(11) == 100000000000
    ensures Bracketed(b)
  {
    if b == 33 {
      BracketAt(b, 9, 8589934592, 1000000000, 10000000000);
    } else if b == 34 {
      BracketAt(b, 10, 17179869184, 10000000000, 100000000000);
    } else if b == 35 {
      BracketAt(b, 10, 34359738368, 10000000000, 100000000000);
    } else {
      BracketAt(b, 10, 68719476736, 10000000000, 100000000000);
    }
  }

  lemma Log10Bracket37To40(b: nat)
    requires 37 <= b <= 40
    requires Pow2(37) == 137438953472 && Pow2(38) == 274877906944 && Pow2(39) == 549755813888 && Pow2(40) == 1099511627776
    requires Pow10(11) == 100000000000 && Pow10(12) == 1000000000000 && Pow10(13) == 10000000000000
    ensures Bracketed(b)
  {
    if b == 37 {
      BracketAt(b, 11, 137438953472, 100000000000, 1000000000000);
    } else if b == 38 {
      BracketAt(b, 11, 274877906944, 100000000000, 1000000000000);
    } else if b == 39 {
      BracketAt(b, 11, 549755813888, 100000000000, 1000000000000);
    } else {
      BracketAt(b, 12, 1099511627776, 1000000000000, 10000000000000);
    }
  }

  lemma Log10Bracket41To44(b: nat)
    requires 41 <= b <= 44
    requires Pow2(41) == 2199023255552 && Pow2(42) == 4398046511104 && Pow2(43) == 8796093022208 && Pow2(44) == 17592186044416
    requires Pow10(12) == 1000000000000 && Pow10(13) == 10000000000000 && Pow10(14) == 100000000000000
    ensures Bracketed(b)
  {
    if b == 41 {
      BracketAt(b, 12, 2199023255552, 1000000000000, 10000000000000);
    } else if b == 42 {
      BracketAt(b, 12, 4398046511104, 1000000000000, 10000000000000);
    } else if b == 43 {
      BracketAt(b, 12, 8796093022208, 1000000000000, 10000000000000);
    } else {
      BracketAt(b, 13, 17592186044416, 10000000000000, 100000000000000);
    }
  }

  lemma Log10Bracket45To48(b: nat)
    requires 45 <= b <= 48
    requires Pow2(45) == 35184372088832 && Pow2(46) == 70368744177664 && Pow2(47) == 140737488355328 && Pow2(48) == 281474976710656
    requires Pow10(13) == 10000000000000 && Pow10(14) == 100000000000000 && Pow10(15) == 1000000000000000
    ensures Bracketed(b)
  {
    if b == 45 {
      BracketAt(b, 13, 35184372088832, 10000000000000, 100000000000000);
    } else if b == 46 {
      BracketAt(b, 13, 70368744177664, 10000000000000, 100000000000000);
    } else if b == 47 {
      BracketAt(b, 14, 140737488355328, 100000000000000, 1000000000000000);
    } else {
      BracketAt(b, 14, 281474976710656, 100000000000000, 1000000000000000);
    }
  }

  lemma Log10Bracket49To52(b: nat)
    requires 49 <= b <= 52
    requires Pow2(49) == 562949953421312 && Pow2(50) == 1125899906842624 && Pow2(51) == 2251799813685248 && Pow2(52) == 4503599627370496
    requires Pow10(14) == 100000000000000 && Pow10(15) == 1000000000000000 && Pow10(16) == 10000000000000000
    ensures Bracketed(b)
  {
    if b == 49 {
      BracketAt(b, 14, 562949953421312, 100000000000000, 1000000000000000);
    } else if b == 50 {
      BracketAt(b, 15, 1125899906842624, 1000000000000000, 10000000000000000);
    } else if b == 51 {
      BracketAt(b, 15, 2251799813685248, 1000000000000000, 10000000000000000);
    } else {
      BracketAt(b, 15, 4503599627370496, 1000000000000000, 10000000000000000);
    }
  }

  lemma Log10Bracket53To57(b: nat)
    requires 53 <= b <= 57
    requires Pow2(53) == 9007199254740992 && Pow2(54) == 18014398509481984 && Pow2(55) == 36028797018963968 && Pow2(56) == 72057594037927936 && Pow2(57) == 144115188075855872
    requires Pow10(15) == 1000000000000000 && Pow10(16) == 10000000000000000 && Pow10(17) == 100000000000000000 && Pow10(18) == 1000000000000000000
    ensures Bracketed(b)
  {
    if b == 53 {
      BracketAt(b, 15, 9007199254740992, 1000000000000000, 10000000000000000);
    } else if b == 54 {
      BracketAt(b, 16, 18014398509481984, 10000000000000000, 100000000000000000);
    } else if b == 55 {
      BracketAt(b, 16, 36028797018963968, 10000000000000000, 100000000000000000);
    } else if b == 56 {
      BracketAt(b, 16, 72057594037927936, 10000000000000000, 100000000000000000);
    } else {
      BracketAt(b, 17, 144115188075855872, 100000000000000000, 1000000000000000000);
    }
  }

  lemma BracketAt(b: nat, r: nat, p2: nat, lo: nat, hi: nat)
    requires FloorLog10Pow2(b) == r && Pow2(b) == p2
    requires Pow10(r) == lo && Pow10(r + 1) == hi && lo <= p2 < hi
    ensures Bracketed(b)
  {
  }

  /** 2^b lies between 10^floor_log10_pow2(b) and the next power of ten. */
  predicate Bracketed(b: nat)
  {
    Pow10(FloorLog10Pow2(b)) <= Pow2(b) < Pow10(FloorLog10Pow2(b) + 1)
  }

  /** The table pow10[0..17] that schubfach_dtoa fills before first use. */
  const POW10_TABLE: seq<u64> := [
    1, 10, 100, 1000, 10000, 100000, 1000000, 10000000, 100000000,
    1000000000, 10000000000, 100000000000, 1000000000000, 10000000000000,
    100000000000000, 1000000000000000, 10000000000000000, 100000000000000000
  ]

  lemma Pow10TableValues()
    ensures |POW10_TABLE| == 18
    ensures forall i | 0 <= i < 18 :: POW10_TABLE[i] == Pow10(i)
  {
    Pow10Literals();
  }

  /** The length computed by write_dec: floor_log10_pow2 of the bit length,
      plus one if the value reaches the next power of ten, is the number of
      decimal digits. */
  lemma DigitCount(sig: nat)
    requires 1 <= sig < POW10_17
    ensures FloorLog10Pow2(BitLength(sig)) <= 17
    ensures var len := FloorLog10Pow2(BitLength(sig));
      NumDigits(sig) == if sig >= Pow10(len) then len + 1 else len
  {
    SeventeenDigitsFit(sig);
    DigitCountOfBits(sig, BitLength(sig));
  }

  /** A value below 10^17 fits in 57 bits. */
  lemma SeventeenDigitsFit(sig: nat)
    requires 1 <= sig < POW10_17
    ensures 1 <= BitLength(sig) <= 57
  {
    assert Pow2(57) > POW10_17 by {
      Pow2Literals();
    }
    BitLengthAtMost(sig, 57);
  }

  /** The same count stated for any b with 2^(b-1) <= sig < 2^b. */
  lemma DigitCountOfBits(sig: nat, b: nat)
    requires 1 <= sig && 1 <= b <= 57 && Pow2(b - 1) <= sig < Pow2(b)
    ensures FloorLog10Pow2(b) <= 17
    ensures var len := FloorLog10Pow2(b);
      NumDigits(sig) == if sig >= Pow10(len) then len + 1 else len
  {
    Log10Bracket(b);
    DigitsBetween(sig, FloorLog10Pow2(b), Pow2(b - 1), Pow2(b));
  }

  /** With 2^(b-1) <= sig < 2^b and 10^len <= 2^b < 10^(len+1), sig has len
      or len + 1 digits, len + 1 exactly when sig >= 10^len. */
  lemma DigitsBetween(sig: nat, len: nat, half: nat, p2: nat)
    requires 1 <= sig && p2 == 2 * half && half <= sig < p2
    requires Pow10(len) <= p2 < Pow10(len + 1)
    ensures NumDigits(sig) == if sig >= Pow10(len) then len + 1 else len
  {
    if len == 0 {
      NumDigitsUnique(sig, 1);
    } else if sig >= Pow10(len) {
      NumDigitsUnique(sig, len + 1);
    } else {
      BelowNextPower(sig, half, Pow10(len - 1), p2, Pow10(len));
      NumDigitsUnique(sig, len);
    }
  }

  /** 2^(b-1) <= sig and 10^len <= 2^b give 10^(len-1) <= sig. */
  lemma BelowNextPower(sig: nat, half: nat, low: nat, p2: nat, p10: nat)
    requires p2 == 2 * half && p10 == 10 * low
    requires half <= sig && p10 <= p2
    ensures low <= sig
  {
  }

  /** A value below 2^k has at most k bits. */
  lemma {:induction false} BitLengthAtMost(x: nat, k: nat)
    requires x < Pow2(k)
    ensures BitLength(x) <= k
  {
    if x > 0 {
      BitLengthAtMost(x / 2, k - 1);
    }
  }

  /** A value below 10^17 has at most 17 digits. */
  lemma AtMost17Digits(sig: nat)
    requires sig < POW10_17
    ensures NumDigits(sig) <= 17
  {
    Pow10Literals();
    NumDigitsAtMost(sig, 17);
  }

  /** The significand scaled to exactly 17 digits, as write_dec multiplies it. */
  function Scaled(sig: nat): (s: nat)
    requires 1 <= sig < POW10_17
    ensures NumDigits(sig) <= 17
    ensures POW10_16 <= s < POW10_17
    ensures s == sig * Pow10(17 - NumDigits(sig))
  {
    var n := NumDigits(sig);
    Pow10Literals();
    assert n <= 17 by {
      if n > 17 {
        Pow10Monotone(17, n - 1);
      }
    }
    ScaleBounds(sig, n);
    sig * Pow10(17 - n)
  }

  lemma ScaleBounds(sig: nat, n: nat)
    requires 1 <= n <= 17 && Pow10(n - 1) <= sig < Pow10(n)
    ensures Pow10(16) <= sig * Pow10(17 - n) < Pow10(17)
  {
    Pow10Split(n);
    MulBetween(sig, Pow10(n - 1), Pow10(n), Pow10(17 - n));
  }

  lemma Pow10Split(n: nat)
    requires 1 <= n <= 17
    ensures Pow10(n - 1) * Pow10(17 - n) == Pow10(16)
    ensures Pow10(n) * Pow10(17 - n) == Pow10(17)
  {
    Pow10Add(n - 1, 17 - n);
    Pow10Add(n, 17 - n);
  }

  lemma MulBetween(x: nat, lo: nat, hi: nat, p: nat)
    requires lo <= x < hi && p >= 1
    ensures lo * p <= x * p < hi * p
  {
    MulOrder(lo, x, p);
    MulOrder(x, hi, p);
  }

  /** The digits after the point for a 17-digit scaled significand s: its
      16 low digits without trailing zeros. */
  function FracText(s: nat): seq<char>
  {
    TrimZeros(ZeroPad(s, 16))
  }

  /** The leading digit, then "." and the fraction unless that is empty. */
  function MantissaText(s: nat): seq<char>
    requires POW10_16 <= s < POW10_17
  {
    var f := FracText(s);
    [DigitChar(s / POW10_16)] + (if f == [] then [] else ['.'] + f)
  }

  /** The signed exponent with two digits, or three when |e| >= 100. */
  function ExponentText(e: int): seq<char>
    requires -999 <= e <= 999
  {
    var a := if e < 0 then -e else e;
    [if e < 0 then '-' else '+'] + ZeroPad(a, if a >= 100 then 3 else 2)
  }

  /** What write_dec(sig, exp) writes before its terminating NUL. */
  function DecString(sig: nat, exp: int): seq<char>
    requires 1 <= sig < POW10_17
    requires -999 <= exp + NumDigits(sig) - 1 <= 999
  {
    MantissaText(Scaled(sig)) + ['e'] + ExponentText(exp + NumDigits(sig) - 1)
  }

  /** The 16 digits after the leading one split into the two halves that
      write_dec prints with write8digits. */
  lemma FracHalves(s: nat)
    ensures ZeroPad(s, 16) == ZeroPad(s / POW10_8 % POW10_8, 8) + ZeroPad(s % POW10_8, 8)
  {
    Pow10Literals();
    ZeroPadSplit(s, 8, 8);
    ZeroPadLow(s / POW10_8, 8);
    ZeroPadLow(s, 8);
  }

  lemma ExponentDigits(v: nat)
    requires v < 1000
    ensures v >= 100 ==> ZeroPad(v, 3) == [DigitChar(v / 100), DigitChar(v % 100 / 10), DigitChar(v % 100 % 10)]
    ensures v < 100 ==> ZeroPad(v, 2) == [DigitChar(v / 10), DigitChar(v % 10)]
  {
    assert ZeroPad(v, 3) == ZeroPad(v / 10 / 10, 1) + [DigitChar(v / 10 % 10)] + [DigitChar(v % 10)];
    assert ZeroPad(v / 10 / 10, 1) == [DigitChar(v / 10 / 10 % 10)];
    assert v / 10 / 10 == v / 100;
    assert v % 100 / 10 == v / 10 % 10 && v % 100 % 10 == v % 10;
  }

  /** The sixteen digits after the point, written with write8digits as two
      halves, the low half skipped when it is zero: what is written spells the
      fraction once its trailing zeros are removed. */
  method WriteFraction(buf: array<char>, pos: nat, s: u64) returns (c: nat)
    requires s < POW10_17
    requires pos + 16 <= buf.Length
    modifies buf
    ensures c == pos + 8 || c == pos + 16
    ensures AllDigits(buf[pos..c])
    ensures c == pos + 8 <==> s % POW10_8 == 0
    ensures TrimZeros(buf[pos..c]) == FracText(s)
    ensures buf[..pos] == old(buf[..pos]) && buf[pos + 16..] == old(buf[pos + 16..])
  {
    ghost var before := buf[..];
    var hi := s / POW10_8;
    c := Write8Digits(buf, pos, hi % POW10_8);
    var lo := s % POW10_8;
    FractionOfHalves(s);
    ghost var mid := buf[..];
    SuffixFrame(mid, before, pos + 8, pos + 16);
    if lo != 0 {
      ghost var first := buf[pos..c];
      c := Write8Digits(buf, c, lo);
      assert buf[pos..c] == first + ZeroPad(lo, 8);
    }
  }

  /** Two buffers that agree from index k on also agree from any later j. */
  lemma SuffixFrame(a: seq<char>, b: seq<char>, k: nat, j: nat)
    requires k <= j <= |a| == |b| && a[k..] == b[k..]
    ensures a[j..] == b[j..]
  {
    assert a[j..] == a[k..][j - k..];
    assert b[j..] == b[k..][j - k..];
  }

  /** The fraction text from the two 8-digit halves, and from the high half
      alone when the low half is zero. */
  lemma FractionOfHalves(s: nat)
    ensures TrimZeros(ZeroPad(s / POW10_8 % POW10_8, 8) + ZeroPad(s % POW10_8, 8)) == FracText(s)
    ensures s % POW10_8 == 0 ==> TrimZeros(ZeroPad(s / POW10_8 % POW10_8, 8)) == FracText(s)
  {
    FracHalves(s);
    TrimZerosAppend(ZeroPad(s / POW10_8 % POW10_8, 8), 8);
  }

  /** The first half of write_dec for the scaled significand s: the leading
      digit, '.', the fraction digits, then the trailing zeros and a bare '.'
      taken back. */
  method WriteMantissa(buf: array<char>, pos: nat, s: u64) returns (c: nat)
    requires POW10_16 <= s < POW10_17
    requires pos + 18 <= buf.Length
    modifies buf
    ensures pos < c <= pos + 18
    ensures buf[pos..c] == MantissaText(s)
    ensures buf[..pos] == old(buf[..pos]) && buf[pos + 18..] == old(buf[pos + 18..])
  {
    buf[pos] := DigitChar(s / POW10_8 / POW10_8);
    buf[pos + 1] := '.';
    ghost var head := buf[..pos + 2];
    LeadDigit(s);
    c := WriteFraction(buf, pos + 2, s);
    assert buf[..pos + 2] == head;
    assert buf[pos] == head[pos] && buf[pos + 1] == head[pos + 1];
    c := TrimTrailingZeros(buf, pos + 2, c);
    MantissaOfTrimmed(buf[..], pos, c, s);
    if buf[c - 1] == '.' {
      c := c - 1;
    }
    assert buf[..pos] == head[..pos];
  }

  /** The backward scan of write_dec over the fraction digits buf[lo..hi]:
      it stops at the first non-'0', at the latest on the '.' before lo. */
  method TrimTrailingZeros(buf: array<char>, lo: nat, hi: nat) returns (c: nat)
    requires 1 <= lo <= hi <= buf.Length && buf[lo - 1] == '.' && AllDigits(buf[lo..hi])
    ensures lo <= c <= hi && buf[lo..c] == TrimZeros(buf[lo..hi])
    ensures buf[c - 1] != '0'
  {
    c := hi;
    while buf[c - 1] == '0'
      invariant lo <= c <= hi
      invariant AllDigits(buf[lo..c]) && TrimZeros(buf[lo..c]) == TrimZeros(buf[lo..hi])
      decreases c
    {
      TrimLast(buf[..], lo, c);
      c := c - 1;
    }
    TrimmedAlready(buf[lo..c]);
  }

  lemma TrimmedAlready(t: seq<char>)
    requires t == [] || t[|t| - 1] != '0'
    ensures TrimZeros(t) == t
  {
  }

  lemma LeadDigit(s: nat)
    ensures s / POW10_8 / POW10_8 == s / POW10_16
  {
    DivModNested(s, POW10_8, POW10_8);
  }

  /** Dropping a trailing '0' keeps the trimmed text. */
  lemma TrimLast(b: seq<char>, lo: nat, c: nat)
    requires lo < c <= |b| && b[c - 1] == '0' && AllDigits(b[lo..c])
    ensures AllDigits(b[lo..c - 1]) && TrimZeros(b[lo..c - 1]) == TrimZeros(b[lo..c])
  {
    assert b[lo..c][..c - 1 - lo] == b[lo..c - 1];
  }

  /** After the trimming loop stops at c, the text from pos, without a bare
      '.' at its end, is the mantissa. */
  lemma MantissaOfTrimmed(b: seq<char>, pos: nat, c: nat, s: nat)
    requires POW10_16 <= s < POW10_17
    requires pos + 2 <= c <= |b|
    requires b[pos] == DigitChar(s / POW10_16) && b[pos + 1] == '.'
    requires b[pos + 2..c] == FracText(s) && b[c - 1] != '0'
    ensures b[c - 1] == '.' <==> c == pos + 2
    ensures b[pos..if c == pos + 2 then c - 1 else c] == MantissaText(s)
  {
    var frac := b[pos + 2..c];
    FracTextDigits(s);
    if c > pos + 2 {
      assert frac[|frac| - 1] == b[c - 1];
      assert IsDigit(b[c - 1]);
      assert b[pos..c] == [b[pos]] + (['.'] + frac);
    }
  }

  /** The second half of write_dec: 'e', the sign, two or three digits of |e|
      and the terminating NUL at `end`. */
  method WriteExponent(buf: array<char>, pos: nat, e: int) returns (end: nat)
    requires -999 <= e <= 999
    requires pos + 6 <= buf.Length
    modifies buf
    ensures pos + 4 <= end < buf.Length && end <= pos + 5
    ensures buf[pos..end] == ['e'] + ExponentText(e)
    ensures buf[end] == '\0'
    ensures buf[..pos] == old(buf[..pos]) && buf[pos + 6..] == old(buf[pos + 6..])
  {
    var exp := e;
    buf[pos] := 'e';
    if exp < 0 {
      buf[pos + 1] := '-';
      exp := -exp;
    } else {
      buf[pos + 1] := '+';
    }
    ghost var head := buf[..pos + 2];
    end := WriteExponentDigits(buf, pos + 2, exp);
    assert buf[..pos + 2] == head;
    ExponentJoin(buf[..], pos, end, e);
  }

  /** The two or three digits of the exponent magnitude, then the NUL. */
  method WriteExponentDigits(buf: array<char>, pos: nat, a: nat) returns (end: nat)
    requires a < 1000 && pos + 4 <= buf.Length
    modifies buf
    ensures end == pos + (if a >= 100 then 3 else 2) && end < buf.Length
    ensures buf[pos..end] == ZeroPad(a, if a >= 100 then 3 else 2)
    ensures buf[end] == '\0'
    ensures buf[..pos] == old(buf[..pos]) && buf[pos + 4..] == old(buf[pos + 4..])
  {
    var exp := a;
    var c := pos;
    ExponentDigits(exp);
    if exp >= 100 {
      buf[c] := DigitChar(exp / 100);
      c := c + 1;
      exp := exp % 100;
    }
    buf[c] := DigitChar(exp / 10);
    c := c + 1;
    buf[c] := DigitChar(exp % 10);
    c := c + 1;
    buf[c] := '\0';
    end := c;
    if a >= 100 {
      assert buf[pos..end] == [buf[pos], buf[pos + 1], buf[pos + 2]];
    } else {
      assert buf[pos..end] == [buf[pos], buf[pos + 1]];
    }
  }

  lemma ExponentJoin(b: seq<char>, pos: nat, end: nat, e: int)
    requires -999 <= e <= 999 && pos + 2 <= end <= |b|
    requires b[pos] == 'e' && b[pos + 1] == (if e < 0 then '-' else '+')
    requires var a := if e < 0 then -e else e;
      b[pos + 2..end] == ZeroPad(a, if a >= 100 then 3 else 2)
    ensures b[pos..end] == ['e'] + ExponentText(e)
  {
    assert b[pos..end] == [b[pos], b[pos + 1]] + b[pos + 2..end];
  }


  /** The characters write_dec puts down for the exponent, one by one, spell
      'e' followed by ExponentText(e). */
  lemma DecStringParts(decSig: nat, decExp: int, s: nat, e: int)
    requires 1 <= decSig < POW10_17
    requires -999 <= decExp + NumDigits(decSig) - 1 <= 999
    requires s == Scaled(decSig) && e == decExp + NumDigits(decSig) - 1
    ensures DecString(decSig, decExp) == MantissaText(s) + (['e'] + ExponentText(e))
  {
  }

  lemma Splice(s0: seq<char>, s1: seq<char>, s2: seq<char>, pos: nat, c: nat, end: nat,
               m: seq<char>, x: seq<char>)
    requires pos <= c <= end <= |s2| && |s0| == |s1| == |s2|
    requires s1[pos..c] == m && s1[..pos] == s0[..pos]
    requires s2[c..end] == x && s2[..c] == s1[..c]
    ensures s2[pos..end] == m + x && s2[..pos] == s0[..pos]
  {
    assert s2[pos..c] == s1[pos..c];
    assert s2[pos..end] == s2[pos..c] + s2[c..end];
  }

  /** The digit count at the head of write_dec: floor_log10_pow2 of the bit
      length, plus one when the value reaches that power of ten. */
  method DecimalLength(sig: u64) returns (len: nat)
    requires 1 <= sig < POW10_17
    ensures len == NumDigits(sig)
  {
    len := FloorLog10Pow2(BitLength(sig));
    DigitCount(sig);
    Pow10TableValues();
    if sig >= POW10_TABLE[len] {
      len := len + 1;
    }
  }

  /** dec_sig *= pow10[17 - len]: the significand padded to 17 digits. */
  method ScaleTo17Digits(sig: u64, len: nat) returns (scaled: u64)
    requires 1 <= sig < POW10_17 && len == NumDigits(sig)
    ensures scaled == Scaled(sig)
  {
    Pow10TableValues();
    ghost var s := Scaled(sig);
    scaled := sig * POW10_TABLE[17 - len];
  }

  /** write_dec: writes DecString(decSig, decExp) at pos followed by a NUL;
      nothing before pos changes. The caller passes 1 <= decSig < 10^17 (the
      pow10 table has 18 entries) and an exponent of at most three digits. */
  method WriteDec(buf: array<char>, pos: nat, decSig: u64, decExp: int)
    requires 1 <= decSig < POW10_17
    requires -999 <= decExp + NumDigits(decSig) - 1 <= 999
    requires pos + 24 <= buf.Length
    modifies buf
    ensures pos + |DecString(decSig, decExp)| < buf.Length
    ensures buf[pos..pos + |DecString(decSig, decExp)|] == DecString(decSig, decExp)
    ensures buf[pos + |DecString(decSig, decExp)|] == '\0'
    ensures buf[..pos] == old(buf[..pos]) && buf[pos + 24..] == old(buf[pos + 24..])
  {
    var len := DecimalLength(decSig);
    var sig := ScaleTo17Digits(decSig, len);
    var exp := decExp + len - 1;
    ghost var initial := buf[..];
    var c := WriteMantissa(buf, pos, sig);
    ghost var middle := buf[..];
    var end := WriteExponent(buf, c, exp);
    ghost var final := buf[..];
    DecStringParts(decSig, decExp, sig, exp);
    Splice(initial, middle, final, pos, c, end, MantissaText(sig), ['e'] + ExponentText(exp));
  }

  /** The exponent text reads back as the exponent. */
  lemma ExponentReadsBack(e: int)
    requires -999 <= e <= 999
    ensures ParseExponent(ExponentText(e)) == Some(e)
  {
    var a := if e < 0 then -e else e;
    var w := if a >= 100 then 3 else 2;
    var x := ExponentText(e);
    var digits := x[1..];
    assert digits == ZeroPad(a, w);
    assert |x| == w + 1 && AllDigits(digits);
    assert DigitsValue(digits) == a by {
      ZeroPadValue(a, w);
      assert a < Pow10(w) by {
        assert Pow10(2) == 100 && Pow10(3) == 1000;
      }
      ModBelow(a, Pow10(w));
    }
    assert x[0] == (if e < 0 then '-' else '+');
  }

  lemma ModBelow(a: nat, p: nat)
    requires a < p
    ensures a % p == a
  {
  }

  /** The mantissa text of a 17-digit s reads back as digits d with f of them
      after the point: d * 10^(16 - f) == s, d has exactly f + 1 digits and
      does not end in 0. */
  lemma MantissaReadsBack(s: nat)
    requires POW10_16 <= s < POW10_17
    ensures var r := ParseMantissa(MantissaText(s));
      r.Some? && r.value.1 <= 16 && r.value.0 * Pow10(16 - r.value.1) == s &&
      Pow10(r.value.1) <= r.value.0 < Pow10(r.value.1 + 1) && r.value.0 % 10 != 0
  {
    var lead: nat := s / POW10_16;
    var f := FracText(s);
    var d := lead * Pow10(|f|) + DigitsValue(f);
    MantissaParses(s);
    MantissaValue(s, lead, ZeroPad(s, 16), f, d);
    MantissaLastDigit(lead, f, d);
    MantissaDigitCount(lead, |f|, DigitsValue(f), d);
  }

  /** The mantissa text is the lead digit, then the fraction digits after a
      point when there are any. */
  lemma MantissaParses(s: nat)
    requires POW10_16 <= s < POW10_17
    ensures 1 <= s / POW10_16 < 10 && AllDigits(FracText(s))
    ensures var f := FracText(s);
      ParseMantissa(MantissaText(s)) == Some((s / POW10_16 * Pow10(|f|) + DigitsValue(f), |f|))
  {
    FracTextDigits(s);
    if FracText(s) == [] {
      MantissaLeadOnly(s);
    } else {
      MantissaAndFraction(s);
    }
  }

  lemma MantissaLeadOnly(s: nat)
    requires POW10_16 <= s < POW10_17 && FracText(s) == []
    ensures var f := FracText(s);
      ParseMantissa(MantissaText(s)) == Some((s / POW10_16 * Pow10(|f|) + DigitsValue(f), |f|))
  {
    var lead: nat := s / POW10_16;
    var m := MantissaText(s);
    assert |m| == 1 && m[0] == DigitChar(lead);
    ParseLeadOnly(m, lead);
    NoFraction(lead, FracText(s));
  }

  lemma MantissaAndFraction(s: nat)
    requires POW10_16 <= s < POW10_17 && FracText(s) != [] && AllDigits(FracText(s))
    ensures var f := FracText(s);
      ParseMantissa(MantissaText(s)) == Some((s / POW10_16 * Pow10(|f|) + DigitsValue(f), |f|))
  {
    var lead: nat := s / POW10_16;
    var f := FracText(s);
    MantissaWithFraction(DigitChar(lead), f);
    ParseWithFraction(MantissaText(s), lead, f);
  }

  lemma NoFraction(lead: nat, f: seq<char>)
    requires f == []
    ensures lead * Pow10(|f|) + DigitsValue(f) == lead
  {
  }

  lemma FracTextDigits(s: nat)
    ensures AllDigits(FracText(s)) && |FracText(s)| <= 16
  {
    var z := ZeroPad(s, 16);
    assert FracText(s) == z[..|FracText(s)|];
  }

  lemma MantissaWithFraction(c: char, f: seq<char>)
    requires f != []
    ensures var m := [c] + (['.'] + f);
      |m| >= 3 && m[0] == c && m[1] == '.' && m[2..] == f
  {
  }

  /** d * 10^(16 - |f|) == s, from s = lead * 10^16 + (s mod 10^16) and the
      value of the trimmed fraction. */
  lemma MantissaValue(s: nat, lead: nat, z: seq<char>, f: seq<char>, d: nat)
    requires POW10_16 <= s < POW10_17 && lead == s / POW10_16
    requires z == ZeroPad(s, 16) && f == TrimZeros(z) && AllDigits(f)
    requires d == lead * Pow10(|f|) + DigitsValue(f)
    ensures |f| <= 16 && d * Pow10(16 - |f|) == s
  {
    var F := |f|;
    FractionValue(s, z, f);
    Pow10Split16(F);
    Combine(s, lead, Pow10(F), Pow10(16 - F), DigitsValue(f), d, POW10_16);
  }

  lemma FractionValue(s: nat, z: seq<char>, f: seq<char>)
    requires z == ZeroPad(s, 16) && f == TrimZeros(z)
    ensures |f| <= 16 && s % POW10_16 == DigitsValue(f) * Pow10(16 - |f|)
  {
    Pow10Of16();
    ZeroPadValue(s, 16);
    TrimZerosValue(z);
  }

  lemma Pow10Of16()
    ensures Pow10(16) == POW10_16
  {
    Pow10Literals();
  }

  lemma Pow10Split16(k: nat)
    requires k <= 16
    ensures Pow10(k) * Pow10(16 - k) == POW10_16
  {
    Pow10Of16();
    Pow10Add(k, 16 - k);
  }

  lemma Combine(s: nat, lead: nat, p: nat, q: nat, v: nat, d: nat, m: nat)
    requires m >= 1 && lead == s / m && s % m == v * q && p * q == m && d == lead * p + v
    ensures d * q == s
  {
    Recompose(lead, p, q, v, m);
    DivModSplit(s, m);
  }

  lemma DivModSplit(s: nat, m: nat)
    requires m >= 1
    ensures s == (s / m) * m + s % m
  {
  }

  lemma Recompose(lead: nat, p: nat, q: nat, v: nat, pq: nat)
    requires p * q == pq
    ensures (lead * p + v) * q == lead * pq + v * q
  {
    Distribute(lead * p, v, q);
    Regroup(lead, p, q);
  }

  lemma Regroup(a: int, b: int, c: int)
    ensures a * (b * c) == (a * b) * c
  {
  }

  /** The read-back digits end in a non-zero digit: the lead digit when there
      is no fraction, the last fraction digit otherwise. */
  lemma MantissaLastDigit(lead: nat, f: seq<char>, d: nat)
    requires 1 <= lead < 10 && AllDigits(f) && (f == [] || f[|f| - 1] != '0')
    requires d == lead * Pow10(|f|) + DigitsValue(f)
    ensures d % 10 != 0
  {
    if f != [] {
      var F := |f|;
      var init := f[..F - 1];
      var last := DigitValue(f[F - 1]);
      assert DigitsValue(f) == DigitsValue(init) * 10 + last;
      assert last != 0;
      var pf := Pow10(F - 1);
      assert lead * Pow10(F) == (lead * pf) * 10 by {
        assert Pow10(F) == pf * 10;
        Regroup(lead, pf, 10);
      }
      DivModUnique(d, 10, lead * Pow10(F - 1) + DigitsValue(init), last);
    }
  }

  /** lead * 10^F + v with 1 <= lead < 10 and v < 10^F has F + 1 digits. */
  lemma MantissaDigitCount(lead: nat, F: nat, v: nat, d: nat)
    requires 1 <= lead < 10 && v < Pow10(F) && d == lead * Pow10(F) + v
    ensures Pow10(F) <= d < Pow10(F + 1)
  {
    MulOrder(lead, 10, Pow10(F));
    MulAtLeast(lead, Pow10(F));
  }

  /** The text write_dec produces has one 'e', after the mantissa. */
  lemma SplitAtE(m: seq<char>, x: seq<char>)
    requires forall i | 0 <= i < |m| :: m[i] != 'e'
    ensures IndexOfE(m + ['e'] + x) == |m|
    ensures (m + ['e'] + x)[..|m|] == m && (m + ['e'] + x)[|m| + 1..] == x
  {
    var t := m + ['e'] + x;
    var k := IndexOfE(t);
    assert t[|m|] == 'e';
  }

  /** A mantissa without 'e', then 'e' and an exponent, parses as the two
      parts together. */
  lemma ParseJoined(m: seq<char>, x: seq<char>, d: nat, f: nat, e: int)
    requires forall i | 0 <= i < |m| :: m[i] != 'e'
    requires ParseMantissa(m) == Some((d, f)) && ParseExponent(x) == Some(e)
    ensures ParseScientific(m + ['e'] + x) == Some(Scientific(d, f, e))
  {
    SplitAtE(m, x);
  }

  lemma MantissaHasNoE(s: nat)
    requires POW10_16 <= s < POW10_17
    ensures forall i | 0 <= i < |MantissaText(s)| :: MantissaText(s)[i] != 'e'
  {
    var f := FracText(s);
    assert AllDigits(f) by {
      assert f == ZeroPad(s, 16)[..|f|];
    }
  }

  /** a * p == b * p with p >= 1 gives a == b. */
  lemma CancelFactor(a: nat, b: nat, p: nat)
    requires p >= 1 && a * p == b * p
    ensures a == b
  {
    MulOrder(a, b, p);
    MulOrder(b, a, p);
  }

  /** d * 10^(16 - f) == sig * 10^(17 - n) with d not ending in 0 forces
      f < n and d * 10^(n - 1 - f) == sig. */
  lemma ShiftedDigits(sig: nat, n: nat, d: nat, f: nat)
    requires 1 <= n <= 17 && f <= 16 && d % 10 != 0
    requires d * Pow10(16 - f) == sig * Pow10(17 - n)
    ensures f < n && d * Pow10(n - 1 - f) == sig
  {
    NoExtraDigits(sig, n, d, f);
    Pow10Add(n - 1 - f, 17 - n);
    CancelShift(d, sig, Pow10(n - 1 - f), Pow10(17 - n), Pow10(16 - f));
  }

  lemma CancelShift(d: nat, sig: nat, g: nat, h: nat, q: nat)
    requires h >= 1 && q == g * h && d * q == sig * h
    ensures d * g == sig
  {
    Regroup(d, g, h);
    CancelFactor(d * g, sig, h);
  }

  /** The fraction read back is shorter than the significand: otherwise d
      would be sig times a positive power of ten and end in 0. */
  lemma NoExtraDigits(sig: nat, n: nat, d: nat, f: nat)
    requires 1 <= n <= 17 && f <= 16 && d % 10 != 0
    requires d * Pow10(16 - f) == sig * Pow10(17 - n)
    ensures f < n
  {
    if f >= n {
      var kk, q := Pow10(f - n), Pow10(16 - f);
      TenTimes(f - n + 1, 16 - f);
      var t := sig * kk;
      SplitTen(sig, kk, q);
      CancelFactor(d, t * 10, q);
      EndsInZero(d, t);
    }
  }

  lemma TenTimes(k: nat, j: nat)
    requires k >= 1
    ensures Pow10(k + j) == (10 * Pow10(k - 1)) * Pow10(j)
  {
    Pow10Add(k, j);
  }

  lemma SplitTen(sig: nat, kk: nat, q: nat)
    ensures sig * ((10 * kk) * q) == ((sig * kk) * 10) * q
  {
    Regroup(sig, 10 * kk, q);
    Regroup(sig, kk, 10);
  }

  lemma EndsInZero(d: nat, t: nat)
    requires d == t * 10
    ensures d % 10 == 0
  {
  }

  /** text parses as scientific notation with digits d, f of them after the
      point, and exponent e == exp + NumDigits(sig) - 1, where d is sig
      without its trailing zeros (d * 10^(NumDigits(sig) - 1 - f) == sig and
      d does not end in 0), so d * 10^(e - f) == sig * 10^exp. */
  predicate ReadsBackAs(text: seq<char>, sig: nat, exp: int)
  {
    var r := ParseScientific(text);
    var n := NumDigits(sig);
    r.Some? && r.value.exponent == exp + n - 1 && r.value.fracLen < n &&
    r.value.digits * Pow10(n - 1 - r.value.fracLen) == sig &&
    r.value.digits % 10 != 0 && NumDigits(r.value.digits) == r.value.fracLen + 1
  }

  /** With exponent 0 the text reads back as the integer sig itself:
      digits * 10^(exponent - fracLen) == sig. */
  lemma ReadsBackInteger(text: seq<char>, sig: nat)
    requires ReadsBackAs(text, sig, 0)
    ensures var r := ParseScientific(text).value;
      r.fracLen <= r.exponent && r.digits * Pow10(r.exponent - r.fracLen) == sig
  {
    var r := ParseScientific(text).value;
    var k := r.exponent - r.fracLen;
    assert k == NumDigits(sig) - 1 - r.fracLen;
  }

  /** What write_dec(sig, exp) writes reads back as sig * 10^exp. */
  lemma DecStringReadsBack(sig: nat, exp: int)
    requires 1 <= sig < POW10_17
    requires -999 <= exp + NumDigits(sig) - 1 <= 999
    ensures ReadsBackAs(DecString(sig, exp), sig, exp)
  {
    var n := NumDigits(sig);
    var s := Scaled(sig);
    var e := exp + n - 1;
    var m, x := MantissaText(s), ExponentText(e);
    MantissaHasNoE(s);
    ExponentReadsBack(e);
    MantissaReadsBack(s);
    var d, f := ParseMantissa(m).value.0, ParseMantissa(m).value.1;
    ParseJoined(m, x, d, f, e);
    ShiftedDigits(sig, n, d, f);
    NumDigitsUnique(d, f + 1);
    assert ParseScientific(DecString(sig, exp)) == Some(Scientific(d, f, e));
  }
}
