# Schubfach double-to-string, modelled in Dafny

This project models `schubfach_dtoa` from `schubfach.c`. The function turns an
IEEE 754 binary64 value into the shortest scientific-notation string. The
model takes the value's 64-bit pattern as input, since after the `memcpy` the C
code does only integer and bit work. It covers:

- the decomposition of the pattern: the sign, the `inf`/`nan`/`0` literals,
  subnormals and the `regular` flag;
- the exact-integer fast path;
- the 128-bit multiply `umul128`, in both of its `#ifdef` branches, and the
  round-to-odd `umul192_upper64_modified`;
- the fixed-point logarithms `floor_log2_pow10` and `floor_log10_pow2`;
- the 617-step fill of the power-of-ten table, `init_pow10_significands`;
- the interval search, which chooses the decimal significand;
- the digit writers `write8digits` and `write_dec`.

Files and modules:

- `bitmath.dfy` (`BitMath`): 64-bit words as `u64` (a `nat` below 2^64).
  C's `>> k` is `/ 2^k`. A left shift is `* 2^k % 2^64`, a mask is `% 2^k`,
  and `|` of disjoint bits is `+`. This module holds `umul128`, the two
  logarithms, `umul192_upper64_modified` and the round-to-odd specification.
- `decimal_text.dfy` (`DecimalText`): digit strings, zero padding, trailing-zero
  trimming, the digit count, and a reader for `d["." d+]"e"("+"|"-")dd[d]`.
  The reader is used to state what the written text means.
- `power_table.dfy` (`PowerTable`): the table fill. `State(i)` is the loop
  variable `v` at step `i` and `Entry(k)` is entry `k`. The method
  `InitPow10Significands` writes an array and is proved to store `Entry(k)` at
  every index.
- `digit_writer.dfy` (`DigitWriter`): `write8digits` and `write_dec` as
  methods on an `array<char>` with a cursor. `write8digits` is proved to write
  the 8-digit zero-padded decimal `ZeroPad(n, 8)`. `write_dec` is proved to
  write the text function `DecString`, and that text reads back as
  `sig * 10^exp`.
- `schubfach.dfy` (`Schubfach`): the decomposition (`Classify`), the rounding
  interval, the estimates (`Estimate`) and the candidate choice (`Select`).
  It also holds the whole output text `Dtoa(u)` and the method
  `SchubfachDtoa`, which writes that text and its NUL into the caller's buffer.

A finite value decodes to `sig * 2^exp` with `1 <= sig < 2^53` and
`-1074 <= exp <= 971`. The rounding-interval boundaries are midpoints between
neighbouring values, with one exception. The smallest normal value, 2^-1022
(pattern 2^52), has a zero significand field, so it is not `regular`. Its lower
boundary is therefore one quarter unit above the true midpoint to the largest
subnormal. The model keeps this behaviour of the code, and
`LowerIsMidpoint` states it.

## Model

| member | source | states |
|---|---|---|
| BitMath.Umul128 | schubfach.c:20-25 | the two words hold x * y exactly: hi * 2^64 + lo == x * y |
| BitMath.Umul128Portable | schubfach.c:26-38 | the 32-bit-limb branch also yields hi * 2^64 + lo == x * y |
| BitMath.PortableExact | schubfach.c:27-38 | the four limb products and `intermediate` fit in 64 bits and the sum forming hi never wraps; the left shift forming lo drops intermediate's top 32 bits, which are the ones hi collects, so hi * 2^64 + lo == x * y |
| BitMath.Umul128BranchesAgree | schubfach.c:20-41 | the `__int128` branch and the portable branch return the same words for every x, y |
| BitMath.FloorLog2Pow10 | schubfach.c:43-46 | r * 2^19 <= 1741647 * e < (r + 1) * 2^19, i.e. the floor also for negative e |
| BitMath.FloorLog10Pow2 | schubfach.c:48-50 | r * 2^41 <= e * 661971961083 < (r + 1) * 2^41: the arithmetic shift is a floor |
| BitMath.RoundToOddProperties | schubfach.c:93 | round-to-odd of w is w / 2^63 or one more, an even result is exact, and an inexact result is odd |
| BitMath.StickyRoundValue | schubfach.c:90-93 | result plus the sticky bit equals round-to-odd of hi * 2^63 + z |
| BitMath.Umul192Fits | schubfach.c:88-91 | with a 63-bit low table word, y.hi <= 2^64 - 2 and z = y.lo / 2 + x_hi does not wrap |
| BitMath.Umul192Approximates | schubfach.c:85-94 | Umul192Upper64Modified's result is the truncated 127-bit-scaled product rounded to odd, and the truncation is below the exact product by less than 2 units of 2^64 |
| DecimalText.NumDigits | schubfach.c:111-112 | k >= 1 and 10^(k-1) <= n < 10^k: the decimal digit count |
| DecimalText.ZeroPadValue | schubfach.c:96-106 | w zero-padded digits of n read back as n mod 10^w |
| DecimalText.TrimZerosValue | schubfach.c:126 | a digit string's value is its trimmed value times 10 to the number of '0's removed |
| PowerTable.CorrectionBit | schubfach.c:79 | the tested bit of correction_bits is 0 or 1 |
| PowerTable.StepShift | schubfach.c:71 | the shift s of every step is 2 or 3 |
| PowerTable.Times5Words | schubfach.c:67-70 | the carry t is below 8 and t * 2^128 + m * 2^64 + p0.lo == 5 * v |
| PowerTable.ShiftDownValue | schubfach.c:72-78 | both shift branches compute (t * 2^128 + m * 2^64 + lo) >> s modulo 2^128 |
| PowerTable.Times5ShiftValue | schubfach.c:67-78 | one step computes (5 * v) >> s modulo 2^128 |
| PowerTable.AddCorrectionValue | schubfach.c:79-81 | the correction adds the bit to v modulo 2^128, with the carry into hi |
| PowerTable.EmitValue | schubfach.c:61-64 | the stored entry has bit 63 of lo clear, and hi * 2^63 + lo == (v + 1) mod 2^127 |
| PowerTable.WriteEntry | schubfach.c:61-64 | out[i] becomes the entry for v, and no other element changes |
| PowerTable.MultiplyStep | schubfach.c:67-78 | the words computed by the multiply and shift are Times5Shift(v, s) |
| PowerTable.ShiftStep | schubfach.c:72-78 | the branch on s computes ShiftDown of the three words |
| PowerTable.Increment | schubfach.c:80 | ++v.lo with a carry into v.hi adds one modulo 2^128 |
| PowerTable.Advance | schubfach.c:67-81 | one loop step turns State(i) into State(i + 1) |
| PowerTable.InitPow10Significands | schubfach.c:52-83 | all 617 entries are written, out[k] == Entry(k) (Emit of the loop state State(k)) for every k, and 616 steps run: none after the last entry |
| DigitWriter.Write8Seed | schubfach.c:97-99 | the fixed-point seed y < 2^28 satisfies n * 2^28 <= y * 10^8 < (n + 1) * 2^28 |
| DigitWriter.FractionApproximates | schubfach.c:100-104 | after i iterations y still brackets the remaining 8 - i digits of n |
| DigitWriter.FractionDigit | schubfach.c:101-103 | iteration i emits digit i of n zero-padded to 8 digits |
| DigitWriter.Write8Digits | schubfach.c:96-106 | exactly 8 characters are written, the zero-padded decimal of n, and the cursor moves by 8 |
| DigitWriter.BitLength | schubfach.c:111 | 64 - clzll(x) is the bit length b: 2^(b-1) <= x < 2^b |
| DigitWriter.Log10Bracket | schubfach.c:111 | 10^floor_log10_pow2(b) <= 2^b < 10^(floor_log10_pow2(b) + 1) for every bit length up to 57 |
| DigitWriter.SeventeenDigitsFit | schubfach.c:111 | a significand below 10^17 has a bit length between 1 and 57 |
| DigitWriter.DigitCount | schubfach.c:111-112 | len, plus one when dec_sig >= pow10[len], is the number of decimal digits |
| DigitWriter.Pow10TableValues | schubfach.c:150-154 | pow10[i] == 10^i for all 18 entries |
| DigitWriter.DecimalLength | schubfach.c:111-112 | the computed len is the digit count of dec_sig |
| DigitWriter.Scaled | schubfach.c:113 | dec_sig * 10^(17 - len) has exactly 17 digits |
| DigitWriter.ScaleTo17Digits | schubfach.c:113 | the multiplication by pow10[17 - len] gives the 17-digit significand |
| DigitWriter.WriteFraction | schubfach.c:116-124 | 8 digits are written when the low half is zero and 16 otherwise; after trailing zeros are trimmed they spell the 16 digits after the leading one; nothing outside the 16 positions changes |
| DigitWriter.TrimTrailingZeros | schubfach.c:126 | the backward scan stops at the end of the digits with trailing '0's removed |
| DigitWriter.MantissaOfTrimmed | schubfach.c:126-127 | a '.' is dropped exactly when no fraction digit is left |
| DigitWriter.WriteMantissa | schubfach.c:116-127 | the leading digit, '.' and the trimmed fraction are written, with no bare '.'; nothing outside the 18 positions changes |
| DigitWriter.ExponentDigits | schubfach.c:136-141 | the digit characters are the 3-digit zero-padded exponent when it is >= 100, else the 2-digit one |
| DigitWriter.WriteExponentDigits | schubfach.c:136-142 | 2 digits, or 3 when the value is >= 100, are written, then a NUL; nothing outside the 4 positions changes |
| DigitWriter.WriteExponent | schubfach.c:129-142 | 'e', the sign and the zero-padded exponent are written, then the NUL; nothing outside the 6 positions changes |
| DigitWriter.WriteDec | schubfach.c:110-143 | DecString(dec_sig, dec_exp) and a NUL are written at the cursor; nothing before the cursor and nothing from cursor + 24 on changes |
| DigitWriter.ExponentReadsBack | schubfach.c:129-141 | the exponent text parses back as the exponent |
| DigitWriter.MantissaReadsBack | schubfach.c:116-127 | the mantissa text parses as digits d with f after the point, d * 10^(16-f) == the 17-digit significand, and d does not end in 0 |
| DigitWriter.DecStringReadsBack | schubfach.c:110-143 | the text write_dec writes parses back as dec_sig * 10^dec_exp, with exponent dec_exp + len - 1 |
| DigitWriter.ReadsBackInteger | schubfach.c:193 | with dec_exp 0 the text reads back as the integer itself |
| Schubfach.BiasedExponent | schubfach.c:164-166 | the exponent field is at most 0x7ff |
| Schubfach.MantissaField | schubfach.c:168-169 | the significand field is below 2^52 |
| Schubfach.ToggleImplicit | schubfach.c:182 | xor with the implicit bit keeps a 53-bit significand below 2^53 |
| Schubfach.ClassifySpecial | schubfach.c:172-180 | inf exactly for exponent 0x7ff and field 0, nan for 0x7ff and a nonzero field, zero for both fields 0 |
| Schubfach.ClassifyFinite | schubfach.c:171-187 | for Classify's finite class, normal: sig = 2^52 + field, exp = biased - 1075; subnormal: sig = field, exp = -1074; regular is false only for a normal value with field 0; sig * 2^(exp+1074) is the IEEE magnitude |
| Schubfach.ClassifyIgnoresSign | schubfach.c:161-187 | the sign bit does not change the decomposition |
| Schubfach.Boundaries | schubfach.c:198-203 | lower == 4 * sig - (regular ? 2 : 1) and upper == 4 * sig + 2, with no wrap |
| Schubfach.UpperIsMidpoint | schubfach.c:203 | for every finite value, DBL_MAX included, upper * 2^exp is the midpoint between the value and the value one unit above it, which is its successor below DBL_MAX |
| Schubfach.LowerIsMidpoint | schubfach.c:202 | lower * 2^exp is the midpoint to the predecessor, except at 2^-1022 where it is one quarter unit above |
| Schubfach.SmallInteger | schubfach.c:190-192 | the fast path is taken iff -52 <= exp < 0 and 2^-exp divides sig, and then f * 2^-exp == sig |
| Schubfach.DecimalExponentRange | schubfach.c:205-210 | DecimalExponent's dec_exp is in [-324, 292] so the table index is in range; regular gives floor_log10_pow2(exp), irregular gives that or one less |
| Schubfach.ShiftRange | schubfach.c:214-219 | shift = exp + Pow10BinExp(-dec_exp) + 2 lies in [1, 5] |
| Schubfach.Estimate | schubfach.c:205-227 | the decimal exponent of the estimates is in [-324, 292]; EstimateFrom computes them from the table entry |
| Schubfach.CmpIsRemainder | schubfach.c:254 | cmp, read through Int32Of as the low 32 bits in two's complement, == scaled_sig mod 4 - 2 |
| Schubfach.SelectCandidates | schubfach.c:229-256 | Select's chosen significand is under2, over2, under or under + 1 |
| Schubfach.SelectTens | schubfach.c:231-241 | when exactly one multiple of ten passes its test, that one is chosen and it ends in 0 |
| Schubfach.SelectSingle | schubfach.c:244-251 | otherwise, when exactly one of under and under + 1 passes, that one is chosen |
| Schubfach.SelectNearest | schubfach.c:253-256 | otherwise the candidate nearest to scaled_sig / 4 is chosen, the even one on an exact tie |
| Schubfach.SelectCandidate | schubfach.c:229-256 | the imperative selection returns Select(scaled, lower, upper, lsb) |
| Schubfach.SearchSignificand | schubfach.c:198-256 | the table lookup and selection yield SearchResult and DecimalExponent |
| Schubfach.WriteSearched | schubfach.c:198-256 | the search writes its text and a NUL at the cursor; nothing before the cursor and nothing from cursor + 24 on changes |
| Schubfach.FastPathText | schubfach.c:190-194 | on the fast path the text is write_dec(f, 0) with 1 <= f < 10^17 |
| Schubfach.SearchPathText | schubfach.c:189-198 | off the fast path the text is the search text and the searched significand is a valid write_dec argument |
| Schubfach.WriteSmallInteger | schubfach.c:191-194 | the fast path writes write_dec(f, 0) and a NUL; nothing before the cursor and nothing from cursor + 24 on changes |
| Schubfach.WriteFinite | schubfach.c:189-256 | a finite value's text and a NUL are written at the cursor; nothing before the cursor and nothing from cursor + 24 on changes |
| Schubfach.WriteLiteral | schubfach.c:174-178 | the literal and its NUL are written, and nothing else changes |
| Schubfach.WriteBody | schubfach.c:164-256 | Body(u) and a NUL are written after the sign; nothing from cursor + 24 on changes, and for specials nothing after the NUL changes |
| Schubfach.SchubfachDtoa | schubfach.c:145-257 | the buffer holds Dtoa(u) then a NUL; buf[25..] is unchanged, and for inf, nan and 0 nothing after the NUL changes |
| Schubfach.DtoaLength | schubfach.c:145-257 | the text is at most 24 characters, so 25 bytes suffice |
| Schubfach.DtoaSign | schubfach.c:161-162 | the text starts with '-' exactly when bit 63 is set, NaN included |
| Schubfach.DtoaSpecialValues | schubfach.c:172-180 | exponent 0x7ff gives "inf" or "nan", and zero gives "0", after the sign |
| Schubfach.DtoaNegation | schubfach.c:161-162 | setting the sign bit only prepends '-' |
| Schubfach.FastPathExact | schubfach.c:189-196 | on the fast path the text reads back as an integer f with f * 2^1074 == the IEEE magnitude |
| Schubfach.SearchReadsBack | schubfach.c:229-256 | off the fast path the text reads back as the selected significand times 10^dec_exp |

## Left out

- `test.cpp` is not part of this model. It is a timing and fuzzing harness that compares against a foreign library's floating-point formatter.
- `schubfach.h` is not part of this model.
- The `memcpy` from `double` to `uint64_t` (schubfach.c:159) is left out. The model takes the bit pattern directly.
- The lazy `initialized` guard and the process-wide statics (schubfach.c:108, 146-156) are left out. `SchubfachDtoa` takes the table as an array that must hold `Entry(k)` at every index, which is what `InitPow10Significands` establishes. `pow10` is the constant `POW10_TABLE`.
- The end-to-end theorem that the output is the shortest string that reads back as the same double is left out. It needs real-number reasoning about decimal-to-binary rounding. The model proves the local properties instead: the interval boundaries are midpoints, the candidate choice follows its rules, and the text reads back as the chosen significand times 10^dec_exp.
- The model does not prove that `correction_bits` makes each entry the correctly rounded 10^e. The bits are used as given constants.
- Schubfach.SchubfachDtoa: requires `WithinWriterDomain(u)`, meaning the searched significand lies in [1, 10^17). `write_dec` needs this range for its `pow10` index and for `clzll`. For the search path the range rests on the accuracy of the table, which is not derived here.
- Schubfach.Dtoa: defined only under `WithinWriterDomain(u)`, for the same reason.
- Schubfach.Body: defined only under `WithinWriterDomain(u)`, for the same reason.
- Schubfach.ShiftRange: proves shift in [1, 5]. The true minimum is 2. That the shifted boundaries never wrap is not stated; `EstimateFrom` keeps the C's 64-bit wrap on the shifts.
- `__builtin_clzll` is modelled as the bit length (`64 - clzll(x)`). The arithmetic right shifts of negative values at schubfach.c:49, 207 and 215 are modelled as floor division. The implementation-defined `(int)` conversion of a `uint64_t` at schubfach.c:254 is modelled by `Int32Of` as the low 32 bits read in two's complement.
- BitMath.FloorLog2Pow10: the contract states the fixed-point floor of e * 1741647 / 2^19. That it agrees with floor(e * log2 10) over the exponent range is not proved. The ranges the code relies on are proved directly on the fixed-point values instead: `PowerTable.StepShift`, `Schubfach.ShiftRange` and `Schubfach.DecimalExponentRange`.
- BitMath.FloorLog10Pow2: the contract states the fixed-point floor of e * 661971961083 / 2^41. Its agreement with floor(e * log10 2) is proved only for bit lengths 1 to 57 (`DigitWriter.Log10Bracket`), the range `write_dec` uses. For the other uses, the exponent ranges are proved directly on the fixed-point values (`Schubfach.DecimalExponentRange`, `Schubfach.ShiftRange`).
- The table fill is stated entry by entry (`out[k] == Entry(k)`), not as one sequence equality.
