/** Decimal digit strings: powers of ten, fixed-width zero-padded digits, the
    removal of trailing zeros, and a reader for the scientific notation
    `d ["." d+] "e" ("+"|"-") d d [d]` that the converter writes. The reader is
    the inverse the writer is checked against. */
module DecimalText {

  datatype Option<T> = None | Some(value: T)

  function Pow10(k: nat): (r: nat)
    ensures r >= 1
  {
    if k == 0 then 1 else 10 * Pow10(k - 1)
  }

  lemma {:induction false} Pow10Add(a: nat, b: nat)
    ensures Pow10(a + b) == Pow10(a) * Pow10(b)
  {
    if b > 0 {
      Pow10Add(a, b - 1);
      assert Pow10(a + b) == 10 * Pow10(a + b - 1);
    }
  }

  lemma {:induction false} Pow10Monotone(a: nat, b: nat)
    requires a <= b
    ensures Pow10(a) <= Pow10(b)
  {
    if a < b {
      Pow10Monotone(a, b - 1);
    }
  }

  predicate IsDigit(c: char) { '0' <= c <= '9' }

  predicate AllDigits(s: seq<char>) { forall i | 0 <= i < |s| :: IsDigit(s[i]) }

  function DigitChar(d: nat): (c: char)
    requires d < 10
    ensures IsDigit(c)
  {
    ('0' as int + d) as char
  }

  function DigitValue(c: char): (d: nat)
    requires IsDigit(c)
    ensures d < 10 && DigitChar(d) == c
  {
    c as int - '0' as int
  }

  /** The number a digit string spells, most significant digit first. */
  function DigitsValue(s: seq<char>): (v: nat)
    requires AllDigits(s)
    ensures v < Pow10(|s|)
  {
    if s == [] then 0 else DigitsValue(s[..|s| - 1]) * 10 + DigitValue(s[|s| - 1])
  }

  /** The w lowest decimal digits of n, zero-padded on the left. */
  function ZeroPad(n: nat, w: nat): (s: seq<char>)
    ensures |s| == w && AllDigits(s)
  {
    if w == 0 then [] else ZeroPad(n / 10, w - 1) + [DigitChar(n % 10)]
  }

  /** Reading back w zero-padded digits gives n modulo 10^w. */
  lemma {:induction false} ZeroPadValue(n: nat, w: nat)
    ensures DigitsValue(ZeroPad(n, w)) == n % Pow10(w)
  {
    if w > 0 {
      var s := ZeroPad(n, w);
      assert s[..w - 1] == ZeroPad(n / 10, w - 1);
      ZeroPadValue(n / 10, w - 1);
      DivModNested(n, 10, Pow10(w - 1));
    }
  }

  /** n % (a * b) in terms of n % a and the digit above. */
  lemma DivModNested(n: nat, a: nat, b: nat)
    requires a >= 1 && b >= 1
    ensures n % (a * b) == (n / a) % b * a + n % a
    ensures n / a / b == n / (a * b)
  {
    var q, r := n / (a * b), n % (a * b);
    var r1, r0 := r / a, r % a;
    NestedDigits(n, a, b, q, r, r1, r0);
    DivModUnique(n, a, q * b + r1, r0);
    DivModUnique(q * b + r1, b, q, r1);
  }

  /** n = q * (a * b) + r with r = r1 * a + r0 regroups as (q * b + r1) * a + r0. */
  lemma NestedDigits(n: nat, a: nat, b: nat, q: nat, r: nat, r1: nat, r0: nat)
    requires a >= 1 && b >= 1
    requires n == q * (a * b) + r && r < a * b
    requires r == r1 * a + r0 && r0 < a
    ensures r1 < b && n == (q * b + r1) * a + r0
  {
    assert r1 < b by {
      MulOrder(b - 1, r1, a);
      Distribute(b - 1, 1, a);
    }
    Associate(q, b, a);
    Distribute(q * b, r1, a);
  }

  lemma Associate(q: int, b: int, a: int)
    ensures q * (a * b) == (q * b) * a
  {
  }

  lemma DivModUnique(n: nat, d: nat, q: nat, r: nat)
    requires d >= 1 && r < d && n == q * d + r
    ensures n / d == q && n % d == r
  {
    var q', r' := n / d, n % d;
    assert n == q' * d + r';
    MulOrder(q', q, d);
    MulOrder(q, q', d);
  }

  lemma MulOrder(x: int, y: int, d: nat)
    ensures x < y ==> x * d + d <= y * d
  {
    if x < y {
      MulAtLeast(y - x, d);
      Distribute(x, y - x, d);
    }
  }

  lemma MulAtLeast(k: nat, d: nat)
    requires k >= 1
    ensures k * d >= d
  {
  }

  lemma Distribute(x: int, k: int, d: int)
    ensures (x + k) * d == x * d + k * d
  {
  }

  /** n without its b lowest decimal digits. */
  function DropDigits(n: nat, b: nat): (r: nat)
    ensures r == n / Pow10(b)
  {
    var p := Pow10(b);
    DivNonNegative(n, p);
    n / p
  }

  lemma DivNonNegative(n: nat, p: nat)
    requires p >= 1
    ensures n / p >= 0
  {
    NegativeTimes(n / p, p);
  }

  lemma NegativeTimes(q: int, p: nat)
    requires p >= 1
    ensures q < 0 ==> q * p + p <= 0
  {
    if q < 0 {
      MulAtLeast(-q, p);
    }
  }

  /** ZeroPad of a + b digits is the a digits above position b followed by
      the b lowest digits. */
  lemma {:induction false} ZeroPadSplit(n: nat, a: nat, b: nat)
    ensures ZeroPad(n, a + b) == ZeroPad(DropDigits(n, b), a) + ZeroPad(n, b)
  {
    if b > 0 {
      ZeroPadSplit(n / 10, a, b - 1);
      DivModNested(n, 10, Pow10(b - 1));
    }
  }

  /** Only the w lowest digits of n matter to ZeroPad(n, w). */
  lemma {:induction false} ZeroPadLow(n: nat, w: nat)
    ensures ZeroPad(n % Pow10(w), w) == ZeroPad(n, w)
  {
    if w > 0 {
      DivModNested(n, 10, Pow10(w - 1));
      var m := n % Pow10(w);
      assert m / 10 == (n / 10) % Pow10(w - 1) && m % 10 == n % 10 by {
        DivModUnique(m, 10, (n / 10) % Pow10(w - 1), n % 10);
      }
      ZeroPadLow(n / 10, w - 1);
    }
  }

  /** Digit k (from the left) of ZeroPad(n, w). */
  lemma {:induction false} ZeroPadAt(n: nat, w: nat, k: nat)
    requires k < w
    ensures ZeroPad(n, w)[k] == DigitChar(n / Pow10(w - 1 - k) % 10)
  {
    if k < w - 1 {
      ZeroPadAt(n / 10, w - 1, k);
      DivModNested(n, 10, Pow10(w - 2 - k));
    }
  }

  /** The number of decimal digits of n (1 for n == 0). */
  function NumDigits(n: nat): (k: nat)
    ensures 1 <= k && n < Pow10(k)
    ensures n >= 1 ==> Pow10(k - 1) <= n
  {
    if n < 10 then 1 else 1 + NumDigits(n / 10)
  }

  /** A number with k digits has NumDigits k. */
  lemma NumDigitsUnique(n: nat, k: nat)
    requires k >= 1 && Pow10(k - 1) <= n < Pow10(k)
    ensures NumDigits(n) == k
  {
    var j := NumDigits(n);
    if j < k {
      Pow10Monotone(j, k - 1);
    } else if j > k {
      Pow10Monotone(k, j - 1);
    }
  }

  /** A number below 10^k has at most k digits. */
  lemma NumDigitsAtMost(n: nat, k: nat)
    requires k >= 1 && n < Pow10(k)
    ensures NumDigits(n) <= k
  {
    if NumDigits(n) > k && n >= 1 {
      Pow10Monotone(k, NumDigits(n) - 1);
    }
  }

  /** s without its trailing '0' characters. */
  function TrimZeros(s: seq<char>): (t: seq<char>)
    ensures |t| <= |s| && t == s[..|t|]
    ensures t == [] || t[|t| - 1] != '0'
  {
    if s != [] && s[|s| - 1] == '0' then TrimZeros(s[..|s| - 1]) else s
  }

  /** Removing the trailing zeros divides the value by a power of ten. */
  lemma {:induction false} TrimZerosValue(s: seq<char>)
    requires AllDigits(s)
    ensures DigitsValue(s) == DigitsValue(TrimZeros(s)) * Pow10(|s| - |TrimZeros(s)|)
  {
    if s != [] && s[|s| - 1] == '0' {
      var p := s[..|s| - 1];
      TrimZerosValue(p);
      var t := TrimZeros(p);
      var k := |p| - |t|;
      var vt, pk := DigitsValue(t), Pow10(k);
      assert TrimZeros(s) == t;
      assert |s| - |t| == k + 1;
      assert DigitsValue(s) == DigitsValue(p) * 10 by {
        assert s[..|s| - 1] == p;
      }
      assert DigitsValue(p) == vt * pk;
      assert Pow10(k + 1) == 10 * pk;
      TimesTen(vt, pk);
    } else {
      assert TrimZeros(s) == s;
      assert Pow10(|s| - |s|) == 1;
    }
  }

  lemma TimesTen(v: int, p: int)
    ensures (v * p) * 10 == v * (10 * p)
  {
  }

  /** Zeros appended to a string are all trimmed away again. */
  lemma {:induction false} TrimZerosAppend(s: seq<char>, k: nat)
    ensures TrimZeros(s + ZeroPad(0, k)) == TrimZeros(s)
  {
    if k > 0 {
      var z := ZeroPad(0, k - 1);
      assert DigitChar(0) == '0';
      assert ZeroPad(0, k) == z + ['0'];
      var u := s + ZeroPad(0, k);
      assert u == (s + z) + ['0'];
      assert u[..|u| - 1] == s + z;
      assert TrimZeros(u) == TrimZeros(s + z);
      TrimZerosAppend(s, k - 1);
    } else {
      assert s + ZeroPad(0, k) == s;
    }
  }

  /** A number in scientific notation: `digits` spelled with `fracLen` of them
      after the point, times 10^exponent; its value is
      digits * 10^(exponent - fracLen). */
  datatype Scientific = Scientific(digits: nat, fracLen: nat, exponent: int)

  /** Position of the first 'e' in s, or |s| if there is none. */
  function IndexOfE(s: seq<char>): (k: nat)
    ensures k <= |s|
    ensures k < |s| ==> s[k] == 'e'
    ensures forall i | 0 <= i < k :: s[i] != 'e'
  {
    if s == [] then 0 else if s[0] == 'e' then 0 else 1 + IndexOfE(s[1..])
  }

  /** `d` or `d "." d+`: the digits as one number and the count after '.'. */
  function ParseMantissa(m: seq<char>): Option<(nat, nat)>
  {
    if |m| == 1 && IsDigit(m[0]) then Some((DigitValue(m[0]), 0))
    else if |m| >= 3 && IsDigit(m[0]) && m[1] == '.' && AllDigits(m[2..]) then
      Some((DigitValue(m[0]) * Pow10(|m| - 2) + DigitsValue(m[2..]), |m| - 2))
    else None
  }

  /** A lone digit reads back as itself with no fraction. */
  lemma ParseLeadOnly(m: seq<char>, lead: nat)
    requires lead < 10 && |m| == 1 && m[0] == DigitChar(lead)
    ensures ParseMantissa(m) == Some((lead, 0))
  {
  }

  /** A lead digit, a point and fraction digits f read back as the number
      they spell together, with |f| digits after the point. */
  lemma ParseWithFraction(m: seq<char>, lead: nat, f: seq<char>)
    requires lead < 10 && f != [] && AllDigits(f)
    requires |m| >= 3 && m[0] == DigitChar(lead) && m[1] == '.' && m[2..] == f
    ensures ParseMantissa(m) == Some((lead * Pow10(|f|) + DigitsValue(f), |f|))
  {
  }

  /** `("+"|"-") d d [d]`. */
  function ParseExponent(x: seq<char>): Option<int>
  {
    if (|x| == 3 || |x| == 4) && (x[0] == '+' || x[0] == '-') && AllDigits(x[1..]) then
      var v: int := DigitsValue(x[1..]);
      Some(if x[0] == '-' then -v else v)
    else None
  }

  /** Reads `d ["." d+] "e" ("+"|"-") d d [d]`. */
  function ParseScientific(s: seq<char>): Option<Scientific>
  {
    var k := IndexOfE(s);
    if k == |s| then None
    else
      match (ParseMantissa(s[..k]), ParseExponent(s[k + 1..]))
      case (Some((d, f)), Some(e)) => Some(Scientific(d, f, e))
      case _ => None
  }
}
