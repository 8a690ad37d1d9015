/** The table of 617 significands of 10^e, e = -292 .. 324, built by the
    recurrence v(e+1) = 5 * v(e) / 2^s + correction (init_pow10_significands).
    The state `v` is a 127-bit value held in two words; each emitted entry is
    v + 1 split into a 64-bit high word and a 63-bit low word. */
module PowerTable {
  import opened BitMath

  const POW10_COUNT: nat := 617
  const DEC_EXP_MIN: int := -292

  /** One bit per step: whether to add one unit to the state after the step. */
  const CORRECTION_BITS: seq<u64> := [
    0xb6e84cca18114965, 0x45912150d29a12c8, 0x4f44ca218d4992d8,
    0x242261af29129a8a, 0xcd514a66d, 0x856512b828000000,
    0x4d661b91a98a354c, 0x8504522726522549, 0xc8892cd122aad974,
    0x212895624
  ]

  /** The state for 10^DEC_EXP_MIN the recurrence starts from. */
  const SEED: UInt128 := UInt128(0x3fddec7f2faf3713, 0xc97a3a2704eec3de)

  /** Bit i of the correction mask: word i >> 6, bit i & 63. */
  function CorrectionBit(i: nat): (bit: nat)
    requires i < POW10_COUNT
    ensures bit == 0 || bit == 1
  {
    (CORRECTION_BITS[i / 64] / Pow2(i % 64)) % 2
  }

  /** The right shift of step e: floor(log2(10^(e+1))) - floor(log2(10^e)) - 1.
      Multiplying by 10 = 5 * 2 adds 3 or 4 to the binary exponent, so after
      the multiplication by 5 the state is shifted right by 2 or by 3. */
  function StepShift(e: int): (s: int)
    ensures s == 2 || s == 3
  {
    FloorLog2Pow10(e + 1) - FloorLog2Pow10(e) - 1
  }

  /** The multiply step: the 128-bit state times 5 (two 64x64 products and a
      carry) and shifted right by s, keeping the low 128 bits. */
  function Times5Shift(v: UInt128, s: int): UInt128
    requires s == 2 || s == 3
  {
    var p0 := Umul128(v.lo, 5);
    var p1 := Umul128(v.hi, 5);
    var m := (p1.lo + p0.hi) % TWO_64;
    var t := p1.hi + (if m < p1.lo then 1 else 0);
    TopWordBound(v, p0, p1, m, t);
    ShiftDown(t, m, p0.lo, s)
  }

  /** The multiply step keeps the low 128 bits of 5v / 2^s. */
  lemma Times5ShiftValue(v: UInt128, s: int)
    requires s == 2 || s == 3
    ensures Times5Shift(v, s).Value() == (5 * v.Value() / Pow2(s)) % TWO_128
  {
    var p0 := Umul128(v.lo, 5);
    var p1 := Umul128(v.hi, 5);
    var m := (p1.lo + p0.hi) % TWO_64;
    var t := p1.hi + (if m < p1.lo then 1 else 0);
    Times5Words(v, p0, p1, m, t);
    ShiftDownValue(t, m, p0.lo, s);
    SameQuotient(5 * v.Value(), t * TWO_128 + m * TWO_64 + p0.lo, Pow2(s), Times5Shift(v, s).Value());
  }

  lemma SameQuotient(x: nat, y: nat, d: nat, r: nat)
    requires x == y && d >= 1 && r == (y / d) % TWO_128
    ensures r == (x / d) % TWO_128
  {
  }

  /** The three words t, m, l shifted right by s, keeping 128 bits: each new
      word is the old word shifted right, or-ed with the bits shifted out of
      the word above. */
  function ShiftDown(t: nat, m: u64, l: u64, s: int): UInt128
    requires t < 8 && (s == 2 || s == 3)
  {
    if s == 2 then
      ShiftWords(t, m, l, 4, TWO_62);
      UInt128(m / 4 + (t * TWO_62) % TWO_64, l / 4 + (m * TWO_62) % TWO_64)
    else
      ShiftWords(t, m, l, 8, TWO_61);
      UInt128(m / 8 + (t * TWO_61) % TWO_64, l / 8 + (m * TWO_61) % TWO_64)
  }

  lemma ShiftDownValue(t: nat, m: u64, l: u64, s: int)
    requires t < 8 && (s == 2 || s == 3)
    ensures ShiftDown(t, m, l, s).Value() == ((t * TWO_128 + m * TWO_64 + l) / Pow2(s)) % TWO_128
  {
    if s == 2 {
      ShiftWords(t, m, l, 4, TWO_62);
    } else {
      ShiftWords(t, m, l, 8, TWO_61);
    }
  }

  /** The two partial products recombine as 5v = t * 2^128 + m * 2^64 + p0.lo,
      the comparison `m < p1.lo` being the carry out of the middle word. */
  lemma Times5Words(v: UInt128, p0: UInt128, p1: UInt128, m: nat, t: nat)
    requires p0.Value() == v.lo * 5 && p1.Value() == v.hi * 5
    requires m == (p1.lo + p0.hi) % TWO_64
    requires t == p1.hi + (if m < p1.lo then 1 else 0)
    ensures t < 8
    ensures 5 * v.Value() == t * TWO_128 + m * TWO_64 + p0.lo
  {
    assert p0.hi < 5 && p1.hi < 5;
    if p1.lo + p0.hi < TWO_64 {
      assert m == p1.lo + p0.hi;
    } else {
      assert m == p1.lo + p0.hi - TWO_64;
    }
  }

  /** The top word of 5v is at most 7: each product's high word is below 5. */
  lemma TopWordBound(v: UInt128, p0: UInt128, p1: UInt128, m: nat, t: nat)
    requires p0.Value() == v.lo * 5 && p1.Value() == v.hi * 5
    requires t == p1.hi + (if m < p1.lo then 1 else 0)
    ensures t < 8
  {
    assert p1.hi < 5;
  }

  /** Shifting t * 2^128 + m * 2^64 + l right by log2(d) and keeping 128 bits,
      where c = 2^64 / d: the words the code assembles with `|` have disjoint
      bits, so the `|` is an addition. */
  lemma ShiftWords(t: nat, m: nat, l: nat, d: nat, c: nat)
    requires (d == 4 && c == TWO_62) || (d == 8 && c == TWO_61)
    requires t < 8 && m < TWO_64 && l < TWO_64
    ensures m / d + (t * c) % TWO_64 < TWO_64
    ensures l / d + (m * c) % TWO_64 < TWO_64
    ensures (m / d + (t * c) % TWO_64) * TWO_64 + l / d + (m * c) % TWO_64
            == ((t * TWO_128 + m * TWO_64 + l) / d) % TWO_128
  {
    if d == 4 {
      ShiftWordsBy4(t, m, l);
    } else {
      ShiftWordsBy8(t, m, l);
    }
  }

  lemma ShiftWordsBy4(t: nat, m: nat, l: nat)
    requires t < 8 && m < TWO_64 && l < TWO_64
    ensures (m * TWO_62) % TWO_64 == (m % 4) * TWO_62 && (t * TWO_62) % TWO_64 == (t % 4) * TWO_62
    ensures (m / 4 + (t * TWO_62) % TWO_64) * TWO_64 + l / 4 + (m * TWO_62) % TWO_64
            == ((t * TWO_128 + m * TWO_64 + l) / 4) % TWO_128
  {
    SplitBy4(m);
    SplitBy4(t);
    var low := QuarterOf(t, m, l);
    ModOf128((t * TWO_128 + m * TWO_64 + l) / 4, t / 4, low);
  }

  /** x * 2^62 as a carry word and a remainder word. */
  lemma SplitBy4(x: nat)
    requires x < TWO_64
    ensures x * TWO_62 == (x / 4) * TWO_64 + (x % 4) * TWO_62
    ensures (x * TWO_62) % TWO_64 == (x % 4) * TWO_62
  {
  }

  lemma QuarterOf(t: nat, m: nat, l: nat) returns (low: nat)
    requires t < 8 && m < TWO_64 && l < TWO_64
    requires t * TWO_62 == (t / 4) * TWO_64 + (t % 4) * TWO_62
    requires m * TWO_62 == (m / 4) * TWO_64 + (m % 4) * TWO_62
    ensures low < TWO_128
    ensures (t * TWO_128 + m * TWO_64 + l) / 4 == (t / 4) * TWO_128 + low
    ensures low == (m / 4 + (t % 4) * TWO_62) * TWO_64 + l / 4 + (m % 4) * TWO_62
  {
    low := (m / 4 + (t % 4) * TWO_62) * TWO_64 + l / 4 + (m % 4) * TWO_62;
  }

  lemma ShiftWordsBy8(t: nat, m: nat, l: nat)
    requires t < 8 && m < TWO_64 && l < TWO_64
    ensures (m * TWO_61) % TWO_64 == (m % 8) * TWO_61 && (t * TWO_61) % TWO_64 == (t % 8) * TWO_61
    ensures (m / 8 + (t * TWO_61) % TWO_64) * TWO_64 + l / 8 + (m * TWO_61) % TWO_64
            == ((t * TWO_128 + m * TWO_64 + l) / 8) % TWO_128
  {
    SplitBy8(m);
    SplitBy8(t);
    var low := EighthOf(t, m, l);
    ModOf128((t * TWO_128 + m * TWO_64 + l) / 8, t / 8, low);
  }

  /** x * 2^61 as a carry word and a remainder word. */
  lemma SplitBy8(x: nat)
    requires x < TWO_64
    ensures x * TWO_61 == (x / 8) * TWO_64 + (x % 8) * TWO_61
    ensures (x * TWO_61) % TWO_64 == (x % 8) * TWO_61
  {
  }

  lemma EighthOf(t: nat, m: nat, l: nat) returns (low: nat)
    requires t < 8 && m < TWO_64 && l < TWO_64
    requires t * TWO_61 == (t / 8) * TWO_64 + (t % 8) * TWO_61
    requires m * TWO_61 == (m / 8) * TWO_64 + (m % 8) * TWO_61
    ensures low < TWO_128
    ensures (t * TWO_128 + m * TWO_64 + l) / 8 == (t / 8) * TWO_128 + low
    ensures low == (m / 8 + (t % 8) * TWO_61) * TWO_64 + l / 8 + (m % 8) * TWO_61
  {
    low := (m / 8 + (t % 8) * TWO_61) * TWO_64 + l / 8 + (m % 8) * TWO_61;
  }

  lemma ModOf128(v: nat, q: nat, r: nat)
    requires r < TWO_128 && v == q * TWO_128 + r
    ensures v % TWO_128 == r
  {
  }

  /** The correction step: add the correction bit to the 128-bit state, the
      carry out of the low word going into the high word. */
  function AddCorrection(v: UInt128, bit: nat): UInt128
    requires bit == 0 || bit == 1
  {
    if bit == 1 then
      var lo := (v.lo + 1) % TWO_64;
      if lo == 0 then UInt128((v.hi + 1) % TWO_64, lo) else UInt128(v.hi, lo)
    else v
  }

  /** The correction adds the bit modulo 2^128. */
  lemma AddCorrectionValue(v: UInt128, bit: nat)
    requires bit == 0 || bit == 1
    ensures AddCorrection(v, bit).Value() == (v.Value() + bit) % TWO_128
  {
    if bit == 1 {
      var lo := (v.lo + 1) % TWO_64;
      var hi := (v.hi + (if lo == 0 then 1 else 0)) % TWO_64;
      IncrementWords(v, hi, lo);
    } else {
      ModOf128(v.Value(), 0, v.Value());
    }
  }

  /** One iteration's update of the state: step e, correction bit i. */
  function NextState(v: UInt128, i: nat, e: int): (r: UInt128)
    requires i < POW10_COUNT
  {
    AddCorrection(Times5Shift(v, StepShift(e)), CorrectionBit(i))
  }

  /** The state at iteration i, as the loop holds it. */
  function State(i: nat): UInt128
    requires i < POW10_COUNT
  {
    if i == 0 then SEED else NextState(State(i - 1), i - 1, DEC_EXP_MIN + i - 1)
  }

  /** The entry written for state v: v + 1, its top bit of the low word
      moved into the high word, which is shifted left by one. */
  function Emit(v: UInt128): UInt128
  {
    var lo := (v.lo + 1) % TWO_64;
    var hi := (v.hi + (if lo == 0 then 1 else 0)) % TWO_64;
    EmitFits(hi, lo);
    UInt128((hi * 2) % TWO_64 + lo / TWO_63, lo % TWO_63)
  }

  /** The doubled high word with the low word's top bit still fits 64 bits. */
  lemma EmitFits(hi: nat, lo: nat)
    requires hi < TWO_64 && lo < TWO_64
    ensures (hi * 2) % TWO_64 + lo / TWO_63 < TWO_64
  {
    DoubleWord(hi);
  }

  /** The entry is v + 1 modulo 2^127 as a 64-bit high word over a 63-bit low word. */
  lemma EmitValue(v: UInt128)
    ensures Emit(v).lo < TWO_63
    ensures Emit(v).hi * TWO_63 + Emit(v).lo == (v.Value() + 1) % TWO_127
  {
    var lo := (v.lo + 1) % TWO_64;
    var hi := (v.hi + (if lo == 0 then 1 else 0)) % TWO_64;
    EmitWords(v, hi, lo);
  }

  lemma EmitWords(v: UInt128, hi: nat, lo: nat)
    requires lo == (v.lo + 1) % TWO_64
    requires hi == (v.hi + (if lo == 0 then 1 else 0)) % TWO_64
    ensures (hi * 2) % TWO_64 + lo / TWO_63 < TWO_64
    ensures ((hi * 2) % TWO_64 + lo / TWO_63) * TWO_63 + lo % TWO_63 == (v.Value() + 1) % TWO_127
  {
    IncrementWords(v, hi, lo);
    DoubleWord(hi);
    Mod127Of128(v.Value() + 1);
    Mod127Words(hi, lo);
  }

  /** The two words after adding one with carry hold (v + 1) mod 2^128. */
  lemma IncrementWords(v: UInt128, hi: nat, lo: nat)
    requires lo == (v.lo + 1) % TWO_64
    requires hi == (v.hi + (if lo == 0 then 1 else 0)) % TWO_64
    ensures hi * TWO_64 + lo == (v.Value() + 1) % TWO_128
  {
    if v.lo + 1 < TWO_64 {
      ModOf128(v.Value() + 1, 0, hi * TWO_64 + lo);
    } else if v.hi + 1 < TWO_64 {
      ModOf128(v.Value() + 1, 0, hi * TWO_64 + lo);
    } else {
      ModOf128(v.Value() + 1, 1, 0);
    }
  }

  /** Shifting a word left by one drops its top bit. */
  lemma DoubleWord(hi: nat)
    requires hi < TWO_64
    ensures (hi * 2) % TWO_64 == (hi % TWO_63) * 2
  {
  }

  lemma Mod127Of128(x: nat)
    ensures (x % TWO_128) % TWO_127 == x % TWO_127
  {
    var q := x / TWO_128;
    assert x == (2 * q) * TWO_127 + x % TWO_128;
  }

  lemma Mod127Words(hi: nat, lo: nat)
    requires hi < TWO_64 && lo < TWO_64
    ensures (hi * TWO_64 + lo) % TWO_127 == (hi % TWO_63) * TWO_64 + lo
  {
    assert hi * TWO_64 + lo == (hi / TWO_63) * TWO_127 + ((hi % TWO_63) * TWO_64 + lo);
  }

  /** Entry k of the finished table, for 10^(DEC_EXP_MIN + k). */
  function Entry(k: nat): UInt128
    requires k < POW10_COUNT
  {
    Emit(State(k))
  }

  /** Unfolds State once, for the loop proof of InitPow10Significands. */
  lemma StateStep(i: nat)
    requires i + 1 < POW10_COUNT
    ensures State(i + 1) == NextState(State(i), i, DEC_EXP_MIN + i)
  {
  }

  /** Writes entry i of the table: v + 1 with carry into the high word, the
      high word shifted left by one and topped up with bit 63 of the low word,
      which is then cleared. */
  method WriteEntry(out: array<UInt128>, i: nat, v: UInt128)
    requires i < out.Length
    modifies out
    ensures out[i] == Emit(v)
    ensures forall k | 0 <= k < out.Length && k != i :: out[k] == old(out[k])
  {
    var lo := (v.lo + 1) % TWO_64;
    var hi := (v.hi + (if lo == 0 then 1 else 0)) % TWO_64;
    EmitWords(v, hi, lo);
    out[i] := UInt128((hi * 2) % TWO_64 + lo / TWO_63, lo % TWO_63);
  }

  /** One step of the loop after an entry is written: multiply the state by 5,
      shift right by 2 or 3 and add correction bit i. The function NextState
      is its specification. */
  method Advance(v: UInt128, i: nat, e: int) returns (w: UInt128)
    requires i < POW10_COUNT
    ensures w == NextState(v, i, e)
  {
    var s := FloorLog2Pow10(e + 1) - FloorLog2Pow10(e) - 1;
    assert s == StepShift(e);
    w := MultiplyStep(v, s);
    if (CORRECTION_BITS[i / 64] / Pow2(i % 64)) % 2 == 1 {
      w := Increment(w);
    }
  }

  /** The state times 5 as two 64x64 products with a carry between the
      middle words, shifted right by s across the three result words. The
      function Times5Shift is its specification. */
  method MultiplyStep(v: UInt128, s: int) returns (w: UInt128)
    requires s == 2 || s == 3
    ensures w == Times5Shift(v, s)
  {
    var p0 := Umul128(v.lo, 5);
    var p1 := Umul128(v.hi, 5);
    var m := (p1.lo + p0.hi) % TWO_64;
    var t := p1.hi + (if m < p1.lo then 1 else 0);
    TopWordBound(v, p0, p1, m, t);
    w := ShiftStep(t, m, p0.lo, s);
  }

  /** The shift by s across the three words; the function ShiftDown is its
      specification. */
  method ShiftStep(t: nat, m: u64, l: u64, s: int) returns (w: UInt128)
    requires t < 8 && (s == 2 || s == 3)
    ensures w == ShiftDown(t, m, l, s)
  {
    if s == 2 {
      ShiftWords(t, m, l, 4, TWO_62);
      w := UInt128(m / 4 + (t * TWO_62) % TWO_64, l / 4 + (m * TWO_62) % TWO_64);
    } else {
      ShiftWords(t, m, l, 8, TWO_61);
      w := UInt128(m / 8 + (t * TWO_61) % TWO_64, l / 8 + (m * TWO_61) % TWO_64);
    }
  }

  /** `if (++v.lo == 0) ++v.hi`: add one with carry into the high word. The
      function AddCorrection is its specification. */
  method Increment(v: UInt128) returns (w: UInt128)
    ensures w == AddCorrection(v, 1)
  {
    var lo := (v.lo + 1) % TWO_64;
    if lo == 0 {
      w := UInt128((v.hi + 1) % TWO_64, lo);
    } else {
      w := UInt128(v.hi, lo);
    }
  }

  /** init_pow10_significands: the loop emits one entry per iteration and
      stops after the last entry, so it takes POW10_COUNT - 1 multiply steps. */
  method InitPow10Significands(out: array<UInt128>) returns (ghost steps: nat)
    requires out.Length == POW10_COUNT
    modifies out
    ensures forall k | 0 <= k < POW10_COUNT :: out[k] == Entry(k)
    ensures steps == POW10_COUNT - 1
  {
    var v := SEED;
    var i := 0;
    var e := DEC_EXP_MIN;
    steps := 0;
    while i < POW10_COUNT
      invariant 0 <= i < POW10_COUNT
      invariant e == DEC_EXP_MIN + i && v == State(i) && steps == i
      invariant forall k | 0 <= k < i :: out[k] == Entry(k)
      decreases POW10_COUNT - i
    {
      WriteEntry(out, i, v);
      if i + 1 == POW10_COUNT {
        break;
      }
      StateStep(i);
      v := Advance(v, i, e);
      steps := steps + 1;
      i, e := i + 1, e + 1;
    }
  }
}
