/** schubfach_dtoa: the conversion of the 64-bit pattern of a binary64 value
    to the shortest scientific decimal text. The pattern is decoded into
    sign, significand and exponent, special values are spelled out, small
    integers take a fast path, and otherwise a decimal significand is chosen
    inside the rounding interval with the table of powers of ten. */
module Schubfach {
  import opened BitMath
  import opened DecimalText
  import opened PowerTable
  import opened DigitWriter

  const EXP_MASK: nat := 0x7ff
  const NUM_SIG_BITS: nat := 52
  const EXP_BIAS: nat := 1023
  const TWO_16: nat := 0x1_0000
  const TWO_31: nat := 0x8000_0000
  const TWO_54: nat := 0x40_0000_0000_0000
  /** The smallest pattern whose biased exponent is all ones. */
  const INFINITY_BITS: nat := 0x7ff0_0000_0000_0000

  /** The biased exponent field, bits 52..62 (section 3.4 of IEEE 754-2008). */
  function BiasedExponent(u: u64): (e: nat)
    ensures e <= EXP_MASK
  {
    (u / TWO_52) % 2048
  }

  /** The trailing significand field, bits 0..51. */
  function MantissaField(u: u64): (m: nat)
    ensures m < TWO_52
  {
    u % TWO_52
  }

  /** |value| * 2^1074 of a finite pattern, as IEEE 754 defines it: the
      field read as 0.m * 2^-1022 for a subnormal and 1.m * 2^(e - 1023)
      otherwise. Every finite binary64 is a whole multiple of 2^-1074. */
  function IeeeMagnitude(u: u64): nat
    requires BiasedExponent(u) < EXP_MASK
  {
    var e, m := BiasedExponent(u), MantissaField(u);
    if e == 0 then m else (TWO_52 + m) * Pow2(e - 1)
  }

  /** What the decomposition finds. */
  datatype Class =
    | Infinity
    | NaN
    | Zero
    | Finite(sig: nat, exp: int, regular: bool)

  /** bin_sig ^ implicit_bit for a significand below 2^53. */
  function ToggleImplicit(x: nat): (r: nat)
    requires x < TWO_53
    ensures r < TWO_53
  {
    if x >= TWO_52 then x - TWO_52 else x + TWO_52
  }

  /** The decomposition at the head of schubfach_dtoa: a subnormal has its
      implicit bit toggled on and off again and its exponent raised to 1
      before the bias is removed. */
  function Classify(u: u64): Class
  {
    var binExp := BiasedExponent(u);
    var binSig := MantissaField(u);
    var regular := binSig != 0;
    if (binExp + 1) % 2048 <= 1 then
      if binExp != 0 then (if binSig == 0 then Infinity else NaN)
      else if binSig == 0 then Zero
      else Finite(ToggleImplicit(ToggleImplicit(binSig)), 1 - (NUM_SIG_BITS + EXP_BIAS), true)
    else Finite(ToggleImplicit(binSig), binExp - (NUM_SIG_BITS + EXP_BIAS), regular)
  }

  /** The special classes are exactly the ones IEEE 754 gives those fields. */
  lemma ClassifySpecial(u: u64)
    ensures Classify(u) == Infinity <==> BiasedExponent(u) == EXP_MASK && MantissaField(u) == 0
    ensures Classify(u) == NaN <==> BiasedExponent(u) == EXP_MASK && MantissaField(u) != 0
    ensures Classify(u) == Zero <==> BiasedExponent(u) == 0 && MantissaField(u) == 0
    ensures Classify(u).Finite? <==> BiasedExponent(u) < EXP_MASK && u % TWO_63 != 0
  {
    DivModNested(u, TWO_52, 2048);
  }

  /** A finite pattern decodes to sig * 2^exp == |value|, with the normal
      significand in [2^52, 2^53), the subnormal one kept as the field at
      exponent -1074, and `regular` false only for a normal value whose
      field is zero. */
  lemma ClassifyFinite(u: u64)
    requires Classify(u).Finite?
    ensures var c := Classify(u);
      BiasedExponent(u) < EXP_MASK && 1 <= c.sig < TWO_53 && -1074 <= c.exp <= 971 &&
      c.sig * Pow2(c.exp + 1074) == IeeeMagnitude(u) &&
      (!c.regular <==> BiasedExponent(u) >= 1 && MantissaField(u) == 0) &&
      (BiasedExponent(u) == 0 ==> c.sig == MantissaField(u) && c.exp == -1074) &&
      (BiasedExponent(u) >= 1 ==> c.sig == TWO_52 + MantissaField(u) && c.exp == BiasedExponent(u) - 1075)
  {
  }

  /** The fields of B * 2^52 + M. */
  lemma FieldsOf(x: u64, b: nat, m: nat)
    requires m < TWO_52 && b < 2048 && x == b * TWO_52 + m
    ensures BiasedExponent(x) == b && MantissaField(x) == m
  {
    DivModUnique(x, TWO_52, b, m);
    DivModUnique(b, 2048, 0, b);
  }

  /** A pattern and its negation decode alike: the sign bit is outside both
      fields. */
  lemma ClassifyIgnoresSign(u: u64)
    requires u < TWO_63
    ensures Classify(u + TWO_63) == Classify(u)
  {
    var b, m := BiasedExponent(u), MantissaField(u);
    var k := u / TWO_52;
    assert u == k * TWO_52 + m;
    assert k < 2048;
    assert BiasedExponent(u + TWO_63) == b && MantissaField(u + TWO_63) == m by {
      DivModUnique(k, 2048, 0, k);
      assert u + TWO_63 == (k + 2048) * TWO_52 + m;
      DivModUnique(u + TWO_63, TWO_52, k + 2048, m);
      DivModUnique(k + 2048, 2048, 1, k);
    }
  }

  /** The boundaries of the rounding interval in quarter units of 2^exp:
      4 * sig - 2 (or - 1 when not regular) and 4 * sig + 2, computed in
      64 bits without wrapping. */
  function Boundaries(sig: nat, regular: bool): (b: (u64, u64))
    requires 1 <= sig < TWO_53
    ensures b.0 == 4 * sig - (if regular then 2 else 1) && b.1 == 4 * sig + 2
  {
    var shifted := (sig * 4) % TWO_64;
    ((shifted - (if regular then 2 else 1)) % TWO_64, (shifted + 2) % TWO_64)
  }

  /** The upper boundary is the midpoint between a finite positive value and
      the value one unit of its binade above it. Below DBL_MAX that is the
      next value up; for DBL_MAX it is 2^1024, which the code uses the same
      way. */
  lemma UpperIsMidpoint(m: u64)
    requires 1 <= m < INFINITY_BITS
    ensures BiasedExponent(m) < EXP_MASK
    ensures Classify(m).Finite? && -1074 <= Classify(m).exp
    ensures var c := Classify(m);
      var p := Pow2(c.exp + 1074);
      Boundaries(c.sig, c.regular).1 * p == 2 * (IeeeMagnitude(m) + (c.sig + 1) * p)
    ensures m + 1 < INFINITY_BITS ==>
      BiasedExponent(m + 1) < EXP_MASK &&
      IeeeMagnitude(m + 1) == (Classify(m).sig + 1) * Pow2(Classify(m).exp + 1074)
  {
    ClassifySpecial(m);
    ClassifyFinite(m);
    var c := Classify(m);
    MidpointSum(c.sig, Pow2(c.exp + 1074));
    if m + 1 < INFINITY_BITS {
      var _ := NextMagnitude(m);
    }
  }

  /** The next value up is one unit of m's binade above it, also when m is
      the last value of its binade. */
  lemma NextMagnitude(m: u64) returns (p: nat)
    requires 1 <= m && m + 1 < INFINITY_BITS
    ensures BiasedExponent(m) < EXP_MASK && BiasedExponent(m + 1) < EXP_MASK
    ensures Classify(m).Finite? && -1074 <= Classify(m).exp
    ensures p == Pow2(Classify(m).exp + 1074) && Boundaries(Classify(m).sig, Classify(m).regular).1 == 4 * Classify(m).sig + 2
    ensures IeeeMagnitude(m) == Classify(m).sig * p && IeeeMagnitude(m + 1) == (Classify(m).sig + 1) * p
  {
    var b, f := m / TWO_52, m % TWO_52;
    FieldsOf(m, b, f);
    ClassifySpecial(m);
    ClassifyFinite(m);
    var c := Classify(m);
    p := Pow2(c.exp + 1074);
    if f + 1 < TWO_52 {
      FieldsOf(m + 1, b, f + 1);
      if b >= 1 {
        Distribute(c.sig, 1, p);
      }
    } else {
      FieldsOf(m + 1, b + 1, 0);
      if b >= 1 {
        assert Pow2(b) == 2 * p;
        Regroup(TWO_52, 2, p);
      }
    }
  }

  /** The lower boundary is the midpoint between a finite positive value and
      the next one down, for every value except the smallest normal one,
      2^-1022 (pattern 2^52). That value is not regular, so its boundary is
      one quarter unit above the midpoint, although its neighbour below, the
      largest subnormal, is a whole unit away as it is above. */
  lemma LowerIsMidpoint(m: u64)
    requires 1 <= m < INFINITY_BITS
    ensures BiasedExponent(m) < EXP_MASK && BiasedExponent(m - 1) < EXP_MASK
    ensures Classify(m).Finite? && -1074 <= Classify(m).exp
    ensures var c := Classify(m);
      var lower := Boundaries(c.sig, c.regular).0 * Pow2(c.exp + 1074);
      var mid := 2 * (IeeeMagnitude(m - 1) + IeeeMagnitude(m));
      (m != TWO_52 ==> lower == mid) && (m == TWO_52 ==> lower == mid + 1)
  {
    if m % TWO_52 >= 1 {
      LowerWithinBinade(m);
    } else if m / TWO_52 >= 2 {
      LowerAcrossBinade(m);
    } else {
      LowerAtSmallestNormal(m);
    }
  }

  /** A value with a nonzero field: its neighbour below is one unit down. */
  lemma LowerWithinBinade(m: u64)
    requires 1 <= m < INFINITY_BITS && m % TWO_52 >= 1
    ensures BiasedExponent(m) < EXP_MASK && BiasedExponent(m - 1) < EXP_MASK
    ensures Classify(m).Finite? && -1074 <= Classify(m).exp
    ensures var c := Classify(m);
      var lower := Boundaries(c.sig, c.regular).0 * Pow2(c.exp + 1074);
      var mid := 2 * (IeeeMagnitude(m - 1) + IeeeMagnitude(m));
      (m != TWO_52 ==> lower == mid) && (m == TWO_52 ==> lower == mid + 1)
  {
    var b, f := m / TWO_52, m % TWO_52;
    FieldsOf(m, b, f);
    ClassifySpecial(m);
    ClassifyFinite(m);
    var c := Classify(m);
    var p := Pow2(c.exp + 1074);
    FieldsOf(m - 1, b, f - 1);
    if b >= 1 {
      Distribute(c.sig - 1, 1, p);
    }
    assert IeeeMagnitude(m - 1) == (c.sig - 1) * p;
    MidpointSum(c.sig - 1, p);
  }

  /** The first value of a binade above the smallest normal one: not
      regular, and its neighbour below is half a unit down. */
  lemma LowerAcrossBinade(m: u64)
    requires m < INFINITY_BITS && m % TWO_52 == 0 && m / TWO_52 >= 2
    ensures BiasedExponent(m) < EXP_MASK && BiasedExponent(m - 1) < EXP_MASK
    ensures Classify(m).Finite? && -1074 <= Classify(m).exp
    ensures var c := Classify(m);
      var lower := Boundaries(c.sig, c.regular).0 * Pow2(c.exp + 1074);
      var mid := 2 * (IeeeMagnitude(m - 1) + IeeeMagnitude(m));
      (m != TWO_52 ==> lower == mid) && (m == TWO_52 ==> lower == mid + 1)
  {
    var b := m / TWO_52;
    FieldsOf(m, b, 0);
    ClassifySpecial(m);
    ClassifyFinite(m);
    var c := Classify(m);
    var p := Pow2(c.exp + 1074);
    FieldsOf(m - 1, b - 1, TWO_52 - 1);
    var q := Pow2(b - 2);
    assert p == 2 * q;
    assert IeeeMagnitude(m - 1) == (TWO_53 - 1) * q;
    Regroup(TWO_52, 2, q);
    Regroup(TWO_54 - 1, 2, q);
  }

  /** The smallest normal value: its boundary is a quarter unit above the
      midpoint with the largest subnormal. */
  lemma LowerAtSmallestNormal(m: u64)
    requires 1 <= m && m % TWO_52 == 0 && m / TWO_52 < 2
    ensures BiasedExponent(m) < EXP_MASK && BiasedExponent(m - 1) < EXP_MASK
    ensures Classify(m).Finite? && -1074 <= Classify(m).exp
    ensures var c := Classify(m);
      var lower := Boundaries(c.sig, c.regular).0 * Pow2(c.exp + 1074);
      var mid := 2 * (IeeeMagnitude(m - 1) + IeeeMagnitude(m));
      (m != TWO_52 ==> lower == mid) && (m == TWO_52 ==> lower == mid + 1)
  {
    FieldsOf(m, 1, 0);
    ClassifySpecial(m);
    ClassifyFinite(m);
    FieldsOf(m - 1, 0, TWO_52 - 1);
  }

  lemma MidpointSum(s: int, p: int)
    ensures (4 * s + 2) * p == 2 * (s * p + (s + 1) * p)
  {
  }

  /** The small-integer fast path: with -52 <= exp < 0, sig >> -exp shifted
      back must give sig again. It is taken exactly when sig * 2^exp is a
      whole number, and then gives that number. */
  function SmallInteger(sig: nat, exp: int): (r: Option<nat>)
    requires sig < TWO_53
    ensures r.Some? <==> -52 <= exp < 0 && sig % Pow2(-exp) == 0
    ensures r.Some? ==> -52 <= exp < 0 && r.value * Pow2(-exp) == sig
  {
    if exp < 0 && exp >= -(NUM_SIG_BITS as int) then
      var p := Pow2(-exp);
      ShiftBack(sig, p);
      var f := sig / p;
      if (f * p) % TWO_64 == sig then Some(f) else None
    else None
  }

  lemma ShiftBack(sig: nat, p: nat)
    requires 1 <= p && sig < TWO_64
    ensures 0 <= sig / p && (sig / p * p) % TWO_64 == sig / p * p
    ensures sig / p * p == sig <==> sig % p == 0
  {
    var f := sig / p;
    DivModSplit(sig, p);
    ModBelow(f * p, TWO_64);
  }

  /** dec_exp: floor(log10(2^exp)) for a regular value and, with the
      correction term, floor(log10(3/4 * 2^exp)) otherwise, as the 41-bit
      fixed-point product shifted right (a floor division). */
  function DecimalExponent(exp: int, regular: bool): int
  {
    (exp * 661971961083 + (if regular then 0 else -274743187321)) / TWO_41
  }

  /** For every finite exponent the estimate lies in [-324, 292], so
      -dec_exp - DEC_EXP_MIN indexes the 617-entry table; the irregular
      estimate is the regular one or one less. */
  lemma DecimalExponentRange(exp: int, regular: bool)
    requires -1074 <= exp <= 971
    ensures -324 <= DecimalExponent(exp, regular) <= 292
    ensures 0 <= -DecimalExponent(exp, regular) - DEC_EXP_MIN < POW10_COUNT
    ensures regular ==> DecimalExponent(exp, regular) == FloorLog10Pow2(exp)
    ensures FloorLog10Pow2(exp) - 1 <= DecimalExponent(exp, regular) <= FloorLog10Pow2(exp)
  {
  }

  /** pow10_bin_exp: floor(k * 217707 / 2^16), about floor(log2(10^k)). */
  function Pow10BinExp(k: int): int
  {
    (k * 217707) / TWO_16
  }

  /** shift = exp + pow10_bin_exp + 2 stays within [1, 5]. */
  lemma ShiftRange(exp: int, regular: bool)
    requires -1074 <= exp <= 971
    ensures 1 <= exp + Pow10BinExp(-DecimalExponent(exp, regular)) + 2 <= 5
  {
    var x := exp * 661971961083 + (if regular then 0 else -274743187321);
    var d := DecimalExponent(exp, regular);
    FloorDiv(x, TWO_41);
    var y := -d * 217707;
    FloorDiv(y, TWO_16);
    var k := Pow10BinExp(-d);
    assert d * TWO_41 <= x < (d + 1) * TWO_41;
    assert k * TWO_16 <= y < (k + 1) * TWO_16;
  }

  lemma FloorDiv(x: int, d: nat)
    requires d >= 1
    ensures (x / d) * d <= x < (x / d + 1) * d
  {
  }

  /** The decimal exponent and the three products of the search: the
      shifted significand and both boundaries times the table entry for
      10^-decExp, each kept to its upper 64 bits with round-to-odd. */
  datatype Estimates = Estimates(decExp: int, scaled: u64, lower: u64, upper: u64)

  function Estimate(sig: nat, exp: int, regular: bool): (r: Estimates)
    requires 1 <= sig < TWO_53 && -1074 <= exp <= 971
    ensures -324 <= r.decExp <= 292
  {
    DecimalExponentRange(exp, regular);
    var k := -DecimalExponent(exp, regular) - DEC_EXP_MIN;
    EmitValue(State(k));
    EstimateFrom(sig, exp, regular, Entry(k))
  }

  /** Lines 198-227 once the table entry p for 10^-decExp is looked up:
      the shifted significand and boundaries, the shift and the products. */
  function EstimateFrom(sig: nat, exp: int, regular: bool, p: UInt128): Estimates
    requires 1 <= sig < TWO_53 && -1074 <= exp <= 971 && p.lo < TWO_63
  {
    var sigShifted := (sig * 4) % TWO_64;
    var b := Boundaries(sig, regular);
    var decExp := DecimalExponent(exp, regular);
    ShiftRange(exp, regular);
    var shift := exp + Pow10BinExp(-decExp) + 2;
    Estimates(decExp,
      Umul192Upper64Modified(p.hi, p.lo, (sigShifted * Pow2(shift)) % TWO_64),
      Umul192Upper64Modified(p.hi, p.lo, (b.0 * Pow2(shift)) % TWO_64),
      Umul192Upper64Modified(p.hi, p.lo, (b.1 * Pow2(shift)) % TWO_64))
  }

  /** under_in: the lower-boundary test of schubfach_dtoa, in 64 bits. */
  predicate AboveLower(lower: u64, lsb: nat, c: nat)
  {
    (lower + lsb) % TWO_64 <= (c * 4) % TWO_64
  }

  /** over_in: the upper-boundary test, in 64 bits. */
  predicate BelowUpper(upper: u64, lsb: nat, c: nat)
  {
    ((c * 4) % TWO_64 + lsb) % TWO_64 <= upper
  }

  /** The C conversion of a 64-bit value to a 32-bit signed int: its low 32
      bits read in two's complement. */
  function Int32Of(x: nat): (r: int)
    ensures -(TWO_31 as int) <= r < TWO_31
  {
    var w := x % TWO_32;
    if w >= TWO_31 then w - TWO_32 else w
  }

  /** The candidate selection: the multiple of ten below or above scaled / 4
      when exactly one passes its test, else under = scaled / 4 or under + 1
      when exactly one passes, else the closer of the two by the sign of cmp,
      the even one on a tie. */
  function Select(scaled: u64, lower: u64, upper: u64, lsb: nat): nat
  {
    var under := scaled / 4;
    var under2 := 10 * (under / 10);
    var over2 := under2 + 10;
    if under >= 10 && AboveLower(lower, lsb, under2) != BelowUpper(upper, lsb, over2) then
      if AboveLower(lower, lsb, under2) then under2 else over2
    else
      var over := under + 1;
      var underIn := AboveLower(lower, lsb, under);
      if underIn != BelowUpper(upper, lsb, over) then
        if underIn then under else over
      else
        var cmp := Int32Of((scaled - ((under + over) * 2) % TWO_64) % TWO_64);
        if cmp < 0 || (cmp == 0 && under % 2 == 0) then under else over
  }

  /** cmp is scaled mod 4 minus 2: negative when scaled / 4 is nearer to
      under, zero on the exact midpoint. */
  lemma CmpIsRemainder(scaled: u64)
    ensures var under := scaled / 4;
      Int32Of((scaled - ((under + (under + 1)) * 2) % TWO_64) % TWO_64) == scaled % 4 - 2
  {
    var under := scaled / 4;
    var q := scaled % 4;
    assert (under + (under + 1)) * 2 == 4 * under + 2;
    ModBelow(4 * under + 2, TWO_64);
    var x := scaled - (4 * under + 2);
    assert x == q - 2;
    if q >= 2 {
      ModBelow(x, TWO_64);
      ModBelow(x, TWO_32);
    } else {
      DivModUnique(x + TWO_64, TWO_64, 0, x + TWO_64);
      assert x % TWO_64 == x + TWO_64;
      DivModUnique(x + TWO_64, TWO_32, TWO_32 - 1, x + TWO_32);
    }
  }

  function Abs(x: int): nat { if x < 0 then -x else x }

  /** The selection returns one of the four candidates: the multiples of
      ten below and above scaled / 4, scaled / 4 itself, or one more. */
  lemma SelectCandidates(scaled: u64, lower: u64, upper: u64, lsb: nat)
    ensures var r, under := Select(scaled, lower, upper, lsb), scaled / 4;
      r == 10 * (under / 10) || r == 10 * (under / 10) + 10 || r == under || r == under + 1
  {
  }

  /** When exactly one multiple of ten passes its test, that one is chosen. */
  lemma SelectTens(scaled: u64, lower: u64, upper: u64, lsb: nat)
    requires var under := scaled / 4;
      under >= 10 && AboveLower(lower, lsb, 10 * (under / 10)) != BelowUpper(upper, lsb, 10 * (under / 10) + 10)
    ensures var r, under := Select(scaled, lower, upper, lsb), scaled / 4;
      r % 10 == 0 &&
      ((r == 10 * (under / 10) && AboveLower(lower, lsb, r)) || (r == 10 * (under / 10) + 10 && BelowUpper(upper, lsb, r)))
  {
  }

  /** Otherwise, when exactly one of scaled / 4 and scaled / 4 + 1 passes
      its test, that one is chosen. */
  lemma SelectSingle(scaled: u64, lower: u64, upper: u64, lsb: nat)
    requires var under := scaled / 4;
      !(under >= 10 && AboveLower(lower, lsb, 10 * (under / 10)) != BelowUpper(upper, lsb, 10 * (under / 10) + 10))
    requires AboveLower(lower, lsb, scaled / 4) != BelowUpper(upper, lsb, scaled / 4 + 1)
    ensures var r, under := Select(scaled, lower, upper, lsb), scaled / 4;
      (r == under && AboveLower(lower, lsb, r)) || (r == under + 1 && BelowUpper(upper, lsb, r))
  {
  }

  /** Otherwise the candidate nearest to scaled / 4 is chosen (in units of
      a quarter), the even one when both are as near. */
  lemma SelectNearest(scaled: u64, lower: u64, upper: u64, lsb: nat)
    requires var under := scaled / 4;
      !(under >= 10 && AboveLower(lower, lsb, 10 * (under / 10)) != BelowUpper(upper, lsb, 10 * (under / 10) + 10))
    requires AboveLower(lower, lsb, scaled / 4) == BelowUpper(upper, lsb, scaled / 4 + 1)
    ensures var r, under := Select(scaled, lower, upper, lsb), scaled / 4;
      Abs(4 * r - scaled) <= Abs(4 * under - scaled) &&
      Abs(4 * r - scaled) <= Abs(4 * (under + 1) - scaled) &&
      (Abs(4 * r - scaled) == 2 ==> r % 2 == 0)
  {
    CmpIsRemainder(scaled);
    var under, q := scaled / 4, scaled % 4;
    var r := Select(scaled, lower, upper, lsb);
    assert r == (if q - 2 < 0 || (q - 2 == 0 && under % 2 == 0) then under else under + 1);
    NearerOfTwo(scaled, under, q, r);
  }

  /** Rounding scaled / 4 by the sign of scaled mod 4 - 2, ties to even,
      picks the nearer of under and under + 1. */
  lemma NearerOfTwo(scaled: nat, under: nat, q: nat, r: nat)
    requires q < 4 && scaled == 4 * under + q
    requires r == (if q - 2 < 0 || (q - 2 == 0 && under % 2 == 0) then under else under + 1)
    ensures Abs(4 * r - scaled) <= Abs(4 * under - scaled)
    ensures Abs(4 * r - scaled) <= Abs(4 * (under + 1) - scaled)
    ensures Abs(4 * r - scaled) == 2 ==> r % 2 == 0
  {
  }

  /** The significand the search passes to write_dec. */
  function SearchResult(sig: nat, exp: int, regular: bool): nat
    requires 1 <= sig < TWO_53 && -1074 <= exp <= 971
  {
    var e := Estimate(sig, exp, regular);
    Select(e.scaled, e.lower, e.upper, sig % 2)
  }

  /** write_dec is only defined for 1 <= dec_sig < 10^17 (its pow10 table
      has 18 entries and __builtin_clzll(0) is undefined). The fast path
      always meets this; for the search it rests on the accuracy of the
      table of powers of ten, which is not derived here, so it is stated per
      input. */
  predicate WithinWriterDomain(u: u64)
  {
    ClassInDomain(Classify(u))
  }

  /** A decoded value the writer can print: a finite class from the
      decomposition (1 <= sig < 2^53, -1074 <= exp <= 971) whose fast-path
      integer or searched significand is below 10^17. */
  predicate ClassInDomain(c: Class)
  {
    match c
    case Finite(sig, exp, regular) =>
      1 <= sig < TWO_53 && -1074 <= exp <= 971 &&
      (SmallInteger(sig, exp).Some? || 1 <= SearchResult(sig, exp, regular) < POW10_17)
    case _ => true
  }

  function SignPrefix(u: u64): (s: seq<char>)
  {
    if u >= TWO_63 then "-" else ""
  }

  /** What schubfach_dtoa writes after the sign, before the NUL. */
  function Body(u: u64): (s: seq<char>)
    requires WithinWriterDomain(u)
  {
    ClassText(Classify(u))
  }

  /** The text of a decoded value: the literals for the special values,
      write_dec of the fast-path integer with exponent 0, or write_dec of
      the selected significand with the estimated exponent. */
  function ClassText(c: Class): (s: seq<char>)
    requires ClassInDomain(c)
  {
    match c
    case Infinity => "inf"
    case NaN => "nan"
    case Zero => "0"
    case Finite(sig, exp, regular) =>
      match SmallInteger(sig, exp)
      case Some(f) =>
        FastPathDomain(sig, exp);
        DecString(f, 0)
      case None => SearchText(sig, exp, regular)
  }

  /** write_dec of the searched significand with the estimated exponent. */
  function SearchText(sig: nat, exp: int, regular: bool): seq<char>
    requires 1 <= sig < TWO_53 && -1074 <= exp <= 971
    requires 1 <= SearchResult(sig, exp, regular) < POW10_17
  {
    var e := Estimate(sig, exp, regular);
    var d := Select(e.scaled, e.lower, e.upper, sig % 2);
    AtMost17Digits(d);
    DecString(d, e.decExp)
  }

  /** The searched significand once the table entry is looked up. */
  lemma SearchResultFrom(sig: nat, exp: int, regular: bool, p: UInt128)
    requires 1 <= sig < TWO_53 && -1074 <= exp <= 971
    requires 0 <= -DecimalExponent(exp, regular) - DEC_EXP_MIN < POW10_COUNT
    requires p == Entry(-DecimalExponent(exp, regular) - DEC_EXP_MIN) && p.lo < TWO_63
    ensures var e := EstimateFrom(sig, exp, regular, p);
      SearchResult(sig, exp, regular) == Select(e.scaled, e.lower, e.upper, sig % 2)
  {
  }

  /** The search text is write_dec of the searched significand. */
  lemma SearchTextIs(sig: nat, exp: int, regular: bool)
    requires 1 <= sig < TWO_53 && -1074 <= exp <= 971
    requires 1 <= SearchResult(sig, exp, regular) < POW10_17
    ensures NumDigits(SearchResult(sig, exp, regular)) <= 17
    ensures -324 <= DecimalExponent(exp, regular) <= 292
    ensures SearchText(sig, exp, regular)
            == DecString(SearchResult(sig, exp, regular), DecimalExponent(exp, regular))
  {
    AtMost17Digits(SearchResult(sig, exp, regular));
    DecimalExponentRange(exp, regular);
  }

  /** On the fast path the text is write_dec of the integer with exponent 0. */
  lemma FastPathText(sig: nat, exp: int, regular: bool)
    requires ClassInDomain(Finite(sig, exp, regular)) && -52 <= exp < 0
    requires (sig / Pow2(-exp) * Pow2(-exp)) % TWO_64 == sig
    ensures SmallInteger(sig, exp) == Some(sig / Pow2(-exp))
    ensures 1 <= sig / Pow2(-exp) < POW10_17 && NumDigits(sig / Pow2(-exp)) <= 17
    ensures ClassText(Finite(sig, exp, regular)) == DecString(sig / Pow2(-exp), 0)
  {
    FastPathDomain(sig, exp);
  }

  /** Off the fast path the text is the search text. */
  lemma SearchPathText(sig: nat, exp: int, regular: bool)
    requires ClassInDomain(Finite(sig, exp, regular))
    requires !(-52 <= exp < 0 && (sig / Pow2(-exp) * Pow2(-exp)) % TWO_64 == sig)
    ensures SmallInteger(sig, exp) == None
    ensures 1 <= SearchResult(sig, exp, regular) < POW10_17
    ensures ClassText(Finite(sig, exp, regular)) == SearchText(sig, exp, regular)
  {
  }

  /** The buffer holds s at pos, followed by the terminating NUL. */
  predicate WrittenAt(b: seq<char>, pos: nat, s: seq<char>)
  {
    pos + |s| < |b| && b[pos..pos + |s|] == s && b[pos + |s|] == '\0'
  }

  /** The whole text schubfach_dtoa writes before its terminating NUL. */
  function Dtoa(u: u64): (s: seq<char>)
    requires WithinWriterDomain(u)
  {
    SignPrefix(u) + Body(u)
  }

  /** The integer of the fast path is a valid write_dec argument. */
  lemma FastPathDomain(sig: nat, exp: int)
    requires 1 <= sig < TWO_53 && SmallInteger(sig, exp).Some?
    ensures var f := SmallInteger(sig, exp).value;
      1 <= f < POW10_17 && NumDigits(f) <= 17
  {
    var f := SmallInteger(sig, exp).value;
    MulAtLeast(1, Pow2(-exp));
    if f == 0 {
      assert f * Pow2(-exp) == 0;
    }
    Pow2Monotone(0, -exp);
    MulAtLeast(Pow2(-exp), f);
    assert TWO_53 < POW10_17;
    AtMost17Digits(f);
  }

  /** Every body is 1 to 23 characters and none starts with '-'. */
  lemma BodyShape(u: u64)
    requires WithinWriterDomain(u)
    ensures 1 <= |Body(u)| <= 23 && Body(u)[0] != '-'
  {
    var c := Classify(u);
    if c.Finite? {
      ClassifyFinite(u);
      if SmallInteger(c.sig, c.exp).Some? {
        var f := BodyOfFastPath(u);
        DecStringShape(f, 0);
      } else {
        var e, d := BodyOfSearch(u);
        DecStringShape(d, e.decExp);
      }
    }
  }

  /** On the fast path the body is write_dec of the integer with exponent 0. */
  lemma BodyOfFastPath(u: u64) returns (f: nat)
    requires Classify(u).Finite? && Classify(u).sig < TWO_53
    requires SmallInteger(Classify(u).sig, Classify(u).exp).Some?
    ensures f == SmallInteger(Classify(u).sig, Classify(u).exp).value
    ensures 1 <= f < POW10_17 && NumDigits(f) <= 17
    ensures WithinWriterDomain(u) && Body(u) == DecString(f, 0)
  {
    ClassifyFinite(u);
    var c := Classify(u);
    f := SmallInteger(c.sig, c.exp).value;
    FastPathDomain(c.sig, c.exp);
  }

  /** Off the fast path the body is write_dec of the selected significand
      with the estimated decimal exponent. */
  lemma BodyOfSearch(u: u64) returns (e: Estimates, d: nat)
    requires WithinWriterDomain(u) && Classify(u).Finite? && Classify(u).sig < TWO_53
    requires SmallInteger(Classify(u).sig, Classify(u).exp).None?
    ensures -1074 <= Classify(u).exp <= 971
    ensures e == Estimate(Classify(u).sig, Classify(u).exp, Classify(u).regular)
    ensures d == Select(e.scaled, e.lower, e.upper, Classify(u).sig % 2)
    ensures d == SearchResult(Classify(u).sig, Classify(u).exp, Classify(u).regular)
    ensures 1 <= d < POW10_17 && NumDigits(d) <= 17 && -324 <= e.decExp <= 292
    ensures Body(u) == DecString(d, e.decExp)
  {
    ClassifyFinite(u);
    var c := Classify(u);
    e := Estimate(c.sig, c.exp, c.regular);
    d := Select(e.scaled, e.lower, e.upper, c.sig % 2);
    AtMost17Digits(d);
  }

  lemma DecStringShape(sig: nat, exp: int)
    requires 1 <= sig < POW10_17 && -999 <= exp + NumDigits(sig) - 1 <= 999
    ensures 1 <= |DecString(sig, exp)| <= 23 && IsDigit(DecString(sig, exp)[0])
  {
    var s := Scaled(sig);
    assert |FracText(s)| <= 16;
  }

  /** schubfach_dtoa writes at most 24 characters before the NUL: a sign,
      17 digits, '.', 'e', the exponent sign and three digits. */
  lemma DtoaLength(u: u64)
    requires WithinWriterDomain(u)
    ensures |Dtoa(u)| <= 24
  {
    BodyShape(u);
  }

  /** The text starts with '-' exactly when the sign bit is set, NaN
      included. */
  lemma DtoaSign(u: u64)
    requires WithinWriterDomain(u)
    ensures |Dtoa(u)| >= 1 && (Dtoa(u)[0] == '-' <==> u >= TWO_63)
  {
    BodyShape(u);
  }

  /** The special values: "inf" and "nan" for the all-ones exponent, "0"
      for both zeros, after the sign. */
  lemma DtoaSpecialValues(u: u64)
    ensures BiasedExponent(u) == EXP_MASK ==>
      WithinWriterDomain(u) && Dtoa(u) == SignPrefix(u) + (if MantissaField(u) == 0 then "inf" else "nan")
    ensures u % TWO_63 == 0 ==> WithinWriterDomain(u) && Dtoa(u) == SignPrefix(u) + "0"
  {
    ClassifySpecial(u);
    if u % TWO_63 == 0 {
      assert u == 0 || u == TWO_63;
    }
  }

  /** Negating a value only adds the '-'. */
  lemma DtoaNegation(u: u64)
    requires u < TWO_63
    ensures WithinWriterDomain(u + TWO_63) <==> WithinWriterDomain(u)
    ensures WithinWriterDomain(u) ==> Dtoa(u + TWO_63) == "-" + Dtoa(u)
  {
    ClassifyIgnoresSign(u);
  }

  /** On the fast path the text reads back as an integer f (exponent 0)
      and f * 2^1074 is IeeeMagnitude(u): the output is the exact value. */
  lemma FastPathExact(u: u64) returns (f: nat)
    requires Classify(u).Finite? && Classify(u).sig < TWO_53
    requires SmallInteger(Classify(u).sig, Classify(u).exp).Some?
    ensures BiasedExponent(u) < EXP_MASK && f * Pow2(1074) == IeeeMagnitude(u)
    ensures ReadsBackAs(Body(u), f, 0)
  {
    f := BodyOfFastPath(u);
    FastPathMagnitude(u, f);
    DecStringReadsBack(f, 0);
  }

  lemma FastPathMagnitude(u: u64, f: nat)
    requires Classify(u).Finite? && Classify(u).sig < TWO_53
    requires SmallInteger(Classify(u).sig, Classify(u).exp) == Some(f)
    ensures BiasedExponent(u) < EXP_MASK && f * Pow2(1074) == IeeeMagnitude(u)
  {
    ClassifyFinite(u);
    var c := Classify(u);
    var a, b := Pow2(-c.exp), Pow2(c.exp + 1074);
    assert a * b == Pow2(1074) by {
      Pow2Add(-c.exp, c.exp + 1074);
    }
    IntegerValue(f, a, b, c.sig);
  }

  lemma IntegerValue(f: nat, a: nat, b: nat, sig: nat)
    requires f * a == sig
    ensures f * (a * b) == sig * b
  {
    Regroup(f, a, b);
  }

  /** Off the fast path the text reads back as the selected significand
      times 10^decExp. */
  lemma SearchReadsBack(u: u64)
    requires WithinWriterDomain(u) && Classify(u).Finite? && Classify(u).sig < TWO_53
    requires SmallInteger(Classify(u).sig, Classify(u).exp).None?
    ensures -1074 <= Classify(u).exp <= 971
    ensures var c := Classify(u);
      ReadsBackAs(Body(u), SearchResult(c.sig, c.exp, c.regular), Estimate(c.sig, c.exp, c.regular).decExp)
  {
    var e, d := BodyOfSearch(u);
    DecStringReadsBack(d, e.decExp);
  }

  /** memcpy(buffer, literal, |literal| + 1): the literal and its NUL. */
  method WriteLiteral(buf: array<char>, pos: nat, lit: seq<char>)
    requires pos + |lit| < buf.Length
    modifies buf
    ensures WrittenAt(buf[..], pos, lit)
    ensures buf[..pos] == old(buf[..pos])
    ensures buf[pos + |lit| + 1..] == old(buf[pos + |lit| + 1..])
  {
    var src := lit + ['\0'];
    var i := 0;
    while i < |src|
      invariant 0 <= i <= |src|
      invariant buf[..pos] == old(buf[..pos])
      invariant buf[pos..pos + i] == src[..i]
      invariant buf[pos + i..] == old(buf[pos + i..])
    {
      buf[pos + i] := src[i];
      i := i + 1;
    }
    assert buf[pos..pos + |lit|] == src[..|lit|];
    assert buf[pos + |lit|] == buf[pos..pos + |src|][|lit|] == '\0';
    assert buf[..][pos..pos + |lit|] == buf[pos..pos + |lit|];
  }

  /** The interval search of schubfach_dtoa for a finite value off the fast
      path: the boundaries, the decimal exponent, the three products with
      the table entry and the choice among the candidates, then write_dec. */
  method WriteSearched(buf: array<char>, pos: nat, binSig: nat, binExp: int, regular: bool,
                       table: array<UInt128>)
    requires 1 <= binSig < TWO_53 && -1074 <= binExp <= 971
    requires 1 <= SearchResult(binSig, binExp, regular) < POW10_17
    requires table.Length == POW10_COUNT && forall k | 0 <= k < POW10_COUNT :: table[k] == Entry(k)
    requires pos + 24 <= buf.Length
    modifies buf
    ensures WrittenAt(buf[..], pos, SearchText(binSig, binExp, regular))
    ensures buf[..pos] == old(buf[..pos]) && buf[pos + 24..] == old(buf[pos + 24..])
  {
    var d, decExp := SearchSignificand(binSig, binExp, regular, table);
    SearchTextIs(binSig, binExp, regular);
    WriteDec(buf, pos, d, decExp);
    ghost var t := DecString(d, decExp);
    assert buf[..][pos..pos + |t|] == buf[pos..pos + |t|];
    assert WrittenAt(buf[..], pos, t);
  }

  /** Lines 198-256 up to write_dec: the table lookup, the estimates and the
      choice of the significand. */
  method SearchSignificand(binSig: nat, binExp: int, regular: bool, table: array<UInt128>)
    returns (d: u64, decExp: int)
    requires 1 <= binSig < TWO_53 && -1074 <= binExp <= 971
    requires table.Length == POW10_COUNT && forall k | 0 <= k < POW10_COUNT :: table[k] == Entry(k)
    ensures d == SearchResult(binSig, binExp, regular) && decExp == DecimalExponent(binExp, regular)
  {
    DecimalExponentRange(binExp, regular);
    var k := -DecimalExponent(binExp, regular) - DEC_EXP_MIN;
    var p := table[k];
    EmitValue(State(k));
    var est := EstimateFrom(binSig, binExp, regular, p);
    d := SelectCandidate(est.scaled, est.lower, est.upper, binSig % 2);
    SearchResultFrom(binSig, binExp, regular, p);
    decExp := est.decExp;
  }

  /** Lines 229-256: the multiples of ten around scaled / 4 first, then
      scaled / 4 and scaled / 4 + 1, then the nearer of those two. The
      function Select is its specification. */
  method SelectCandidate(scaled: u64, lower: u64, upper: u64, lsb: nat) returns (d: u64)
    ensures d == Select(scaled, lower, upper, lsb)
  {
    var decSigUnder := scaled / 4;
    if decSigUnder >= 10 {
      var decSigUnder2 := 10 * (decSigUnder / 10);
      var decSigOver2 := decSigUnder2 + 10;
      var underIn := AboveLower(lower, lsb, decSigUnder2);
      var overIn := BelowUpper(upper, lsb, decSigOver2);
      if underIn != overIn {
        d := if underIn then decSigUnder2 else decSigOver2;
        return;
      }
    }
    var decSigOver := decSigUnder + 1;
    var underIn := AboveLower(lower, lsb, decSigUnder);
    var overIn := BelowUpper(upper, lsb, decSigOver);
    if underIn != overIn {
      d := if underIn then decSigUnder else decSigOver;
      return;
    }
    var cmp := Int32Of((scaled - ((decSigUnder + decSigOver) * 2) % TWO_64) % TWO_64);
    var underCloser := cmp < 0 || (cmp == 0 && decSigUnder % 2 == 0);
    d := if underCloser then decSigUnder else decSigOver;
  }

  /** Everything schubfach_dtoa writes after the sign: the decomposition,
      the literals for the special values, then the finite value. */
  method WriteBody(buf: array<char>, pos: nat, u: u64, table: array<UInt128>)
    requires WithinWriterDomain(u) && pos + 24 <= buf.Length
    requires table.Length == POW10_COUNT && forall k | 0 <= k < POW10_COUNT :: table[k] == Entry(k)
    modifies buf
    ensures WrittenAt(buf[..], pos, Body(u))
    ensures buf[..pos] == old(buf[..pos]) && buf[pos + 24..] == old(buf[pos + 24..])
    ensures !Classify(u).Finite? ==> buf[pos + |Body(u)| + 1..] == old(buf[pos + |Body(u)| + 1..])
  {
    var binExp: int := (u / TWO_52) % 2048;
    var binSig := u % TWO_52;
    var regular := binSig != 0;
    if (binExp + 1) % 2048 <= 1 {
      if binExp != 0 {
        WriteLiteral(buf, pos, if binSig == 0 then "inf" else "nan");
        return;
      }
      if binSig == 0 {
        WriteLiteral(buf, pos, "0");
        return;
      }
      binSig := ToggleImplicit(binSig);
      binExp := binExp + 1;
      regular := true;
    }
    binSig := ToggleImplicit(binSig);
    binExp := binExp - (NUM_SIG_BITS + EXP_BIAS);
    assert Classify(u) == Finite(binSig, binExp, regular);
    WriteFinite(buf, pos, binSig, binExp, regular, table);
  }

  /** A finite value: the integer fast path, else the interval search. */
  method WriteFinite(buf: array<char>, pos: nat, binSig: nat, binExp: int, regular: bool,
                     table: array<UInt128>)
    requires ClassInDomain(Finite(binSig, binExp, regular)) && pos + 24 <= buf.Length
    requires table.Length == POW10_COUNT && forall k | 0 <= k < POW10_COUNT :: table[k] == Entry(k)
    modifies buf
    ensures WrittenAt(buf[..], pos, ClassText(Finite(binSig, binExp, regular)))
    ensures buf[..pos] == old(buf[..pos]) && buf[pos + 24..] == old(buf[pos + 24..])
  {
    if binExp < 0 && binExp >= -(NUM_SIG_BITS as int) {
      var p := Pow2(-binExp);
      ShiftBack(binSig, p);
      var f := binSig / p;
      if (f * p) % TWO_64 == binSig {
        WriteSmallInteger(buf, pos, binSig, binExp, regular, f);
        return;
      }
    }
    SearchPathText(binSig, binExp, regular);
    WriteSearched(buf, pos, binSig, binExp, regular, table);
  }

  /** The fast path: write_dec(buffer, f, 0) for the integer f = sig / 2^-exp. */
  method WriteSmallInteger(buf: array<char>, pos: nat, sig: nat, exp: int, regular: bool, f: u64)
    requires ClassInDomain(Finite(sig, exp, regular)) && pos + 24 <= buf.Length
    requires -52 <= exp < 0 && f == sig / Pow2(-exp) && (f * Pow2(-exp)) % TWO_64 == sig
    modifies buf
    ensures WrittenAt(buf[..], pos, ClassText(Finite(sig, exp, regular)))
    ensures buf[..pos] == old(buf[..pos]) && buf[pos + 24..] == old(buf[pos + 24..])
  {
    FastPathText(sig, exp, regular);
    WriteDec(buf, pos, f, 0);
    ghost var t := DecString(f, 0);
    assert buf[..][pos..pos + |t|] == buf[pos..pos + |t|];
    assert WrittenAt(buf[..], pos, t);
  }

  /** schubfach_dtoa: a '-' that the cursor keeps only for a set sign bit,
      then the body and its NUL. */
  method SchubfachDtoa(u: u64, table: array<UInt128>, buf: array<char>)
    requires table.Length == POW10_COUNT && forall k | 0 <= k < POW10_COUNT :: table[k] == Entry(k)
    requires buf.Length >= 25 && WithinWriterDomain(u)
    modifies buf
    ensures WrittenAt(buf[..], 0, Dtoa(u))
    ensures buf[25..] == old(buf[25..])
    ensures !Classify(u).Finite? ==> buf[|Dtoa(u)| + 1..] == old(buf[|Dtoa(u)| + 1..])
  {
    buf[0] := '-';
    ghost var signedBuf := buf[..];
    assert signedBuf[25..] == old(buf[25..]);
    var pos := u / TWO_63;
    ghost var signed := buf[..pos];
    assert signed == SignPrefix(u);
    WriteBody(buf, pos, u, table);
    WrittenAfter(buf[..], SignPrefix(u), Body(u));
    SuffixFrame(buf[..], signedBuf, pos + 24, 25);
  }

  /** A prefix at the start of the buffer and a text written after it. */
  lemma WrittenAfter(b: seq<char>, prefix: seq<char>, s: seq<char>)
    requires |prefix| <= |b| && b[..|prefix|] == prefix && WrittenAt(b, |prefix|, s)
    ensures WrittenAt(b, 0, prefix + s)
  {
    assert b[..|prefix| + |s|] == b[..|prefix|] + b[|prefix|..|prefix| + |s|];
  }
}
