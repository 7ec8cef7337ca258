/** Unsigned integers as the C++ sources use them: powers of two, bitwise AND and OR on
    naturals, and the value of a big-endian digit string in any base. */
module Bits {

  type byte = b: int | 0 <= b < 256

  function Zeros(n: nat): (z: seq<byte>)
    ensures |z| == n && forall i :: 0 <= i < n ==> z[i] == 0
  {
    seq(n, i => 0)
  }

  function Pow2(n: nat): (p: nat)
    ensures p >= 1
  {
    if n == 0 then 1 else 2 * Pow2(n - 1)
  }

  lemma {:induction false} Pow2Add(a: nat, b: nat)
    ensures Pow2(a + b) == Pow2(a) * Pow2(b)
    decreases a
  {
    if a != 0 {
      Pow2Add(a - 1, b);
      assert Pow2(a + b) == 2 * Pow2(a - 1 + b);
      assert 2 * (Pow2(a - 1) * Pow2(b)) == (2 * Pow2(a - 1)) * Pow2(b);
    }
  }

  lemma {:induction false} Pow2Mono(a: nat, b: nat)
    requires a <= b
    ensures Pow2(a) <= Pow2(b)
    decreases b
  {
    if a < b { Pow2Mono(a, b - 1); }
  }

  lemma Pow2Values()
    ensures Pow2(1) == 2 && Pow2(8) == 256 && Pow2(24) == 0x100_0000 && Pow2(32) == 0x1_0000_0000
  {
    assert Pow2(4) == 16;
    assert Pow2(8) == 256;
    Pow2Add(8, 8);
    Pow2Add(16, 8);
    Pow2Add(16, 16);
  }

  // ---------- division and remainder ----------

  /** Floor division by repeated subtraction. Written this way so that no definition puts a
      variable divisor before the solver; QuotIsDiv relates it to `/` and `%`. */
  function Quot(v: nat, base: nat): nat
    requires base > 0
  {
    if v < base then 0 else 1 + Quot(v - base, base)
  }

  function Rem(v: nat, base: nat): (r: nat)
    requires base > 0
    ensures r < base
  {
    if v < base then v else Rem(v - base, base)
  }

  lemma {:induction false} QuotRem(v: nat, base: nat)
    requires base > 0
    ensures v == Quot(v, base) * base + Rem(v, base)
  {
    if v >= base { QuotRem(v - base, base); }
  }

  lemma MulMono(a: int, b: int, c: int)
    requires a <= b && c >= 0
    ensures a * c <= b * c
  {
    assert (b - a) * c >= 0;
  }

  lemma NoMultipleBetween(k: int, d: int)
    requires d > 0 && -d < k * d < d
    ensures k == 0
  {
    if k >= 1 { MulMono(1, k, d); }
    if k <= -1 { MulMono(k, -1, d); }
  }

  /** Quotient and remainder are determined by the division equation. */
  lemma QuotRemUnique(v: nat, base: nat, q: int, r: int)
    requires 0 <= r < base && v == q * base + r
    ensures Quot(v, base) == q && Rem(v, base) == r
  {
    QuotRem(v, base);
    var k := Quot(v, base) - q;
    assert k * base == r - Rem(v, base);
    NoMultipleBetween(k, base);
  }

  lemma QuotIsDiv(v: nat, base: nat)
    requires base > 0
    ensures Quot(v, base) == v / base && Rem(v, base) == v % base
  {
    QuotRemUnique(v, base, v / base, v % base);
  }

  lemma QuotBound(v: nat, base: nat, p: nat)
    requires base > 0 && v < p * base
    ensures Quot(v, base) < p
  {
    QuotRem(v, base);
    if Quot(v, base) >= p { MulMono(p, Quot(v, base), base); }
  }

  lemma TwoDigitBound(a: nat, b: nat, m: nat, n: nat)
    requires a < m && b < n
    ensures a * n + b < m * n
  {
    MulMono(a, m - 1, n);
    assert (m - 1) * n == m * n - n;
  }

  lemma Regroup(w: nat, b: nat, e: nat, a: nat, l: nat)
    ensures (w * b + e) * a + l == w * (b * a) + (e * a + l)
  {
    assert (w * b) * a == w * (b * a);
  }

  lemma Commute(a: int, b: int)
    ensures a * b == b * a
  {}

  /** Dividing q * a + r, for r < a, by a * b. */
  lemma QuotRemMulAdd(q: nat, a: nat, r: nat, b: nat)
    requires r < a && b > 0
    ensures a * b > 0
    ensures Rem(q * a + r, a * b) == Rem(q, b) * a + r
    ensures Quot(q * a + r, a * b) == Quot(q, b)
  {
    var q2, r2 := Quot(q, b), Rem(q, b);
    QuotRem(q, b);
    Regroup(q2, b, r2, a, r);
    TwoDigitBound(r2, r, b, a);
    Commute(a, b);
    QuotRemUnique(q * a + r, b * a, q2, r2 * a + r);
  }

  // ---------- bitwise operators ----------

  function BitAnd(x: nat, y: nat): nat
  {
    if x == 0 || y == 0 then 0
    else 2 * BitAnd(x / 2, y / 2) + (if x % 2 == 1 && y % 2 == 1 then 1 else 0)
  }

  function BitOr(x: nat, y: nat): nat
    decreases x + y
  {
    if x == 0 then y else if y == 0 then x
    else 2 * BitOr(x / 2, y / 2) + (if x % 2 == 1 || y % 2 == 1 then 1 else 0)
  }

  /** AND with a mask of t ones keeps the t low bits. */
  lemma {:induction false} AndMask(x: nat, t: nat)
    ensures BitAnd(x, Pow2(t) - 1) == Rem(x, Pow2(t))
    decreases t
  {
    if t == 0 {
      QuotRemUnique(x, 1, x, 0);
    } else if x > 0 {
      AndMask(x / 2, t - 1);
      var p := Pow2(t - 1);
      assert (2 * p - 1) / 2 == p - 1;
      QuotRemMulAdd(x / 2, 2, x % 2, p);
    }
  }

  /** OR of a multiple of 2^k with a value below 2^k is their sum. */
  lemma {:induction false} OrDisjoint(q: nat, k: nat, y: nat)
    requires y < Pow2(k)
    ensures BitOr(q * Pow2(k), y) == q * Pow2(k) + y
    decreases k
  {
    if k > 0 {
      var p := Pow2(k - 1);
      assert q * Pow2(k) == 2 * (q * p) by { assert q * (2 * p) == 2 * (q * p); }
      OrDisjoint(q, k - 1, y / 2);
    }
  }

  // ---------- big-endian digit strings ----------

  /** The value of a digit string, most significant digit first. */
  function Value(digits: seq<nat>, base: nat): nat
  {
    if |digits| == 0 then 0
    else Value(digits[..|digits| - 1], base) * base + digits[|digits| - 1]
  }

  /** The n low digits of v, most significant first. */
  function Digits(v: nat, base: nat, n: nat): (d: seq<nat>)
    requires base > 0
    ensures |d| == n && forall i :: 0 <= i < n ==> d[i] < base
    decreases n
  {
    if n == 0 then [] else Digits(Quot(v, base), base, n - 1) + [Rem(v, base)]
  }

  function Power(base: nat, n: nat): nat
  {
    if n == 0 then 1 else Power(base, n - 1) * base
  }

  lemma {:induction false} PowerOfPow2(k: nat, n: nat)
    ensures Power(Pow2(k), n) == Pow2(k * n)
  {
    if n > 0 {
      PowerOfPow2(k, n - 1);
      Pow2Add(k * (n - 1), k);
      assert k * n == k * (n - 1) + k;
    }
  }

  lemma ValueSnoc(d: seq<nat>, x: nat, base: nat)
    ensures Value(d + [x], base) == Value(d, base) * base + x
  {
    assert (d + [x])[..|d|] == d;
  }

  lemma {:induction false} ValueBound(d: seq<nat>, base: nat)
    requires forall i :: 0 <= i < |d| ==> d[i] < base
    ensures Value(d, base) < Power(base, |d|)
  {
    if |d| > 0 {
      var n := |d| - 1;
      ValueBound(d[..n], base);
      TwoDigitBound(Value(d[..n], base), d[n], Power(base, n), base);
    }
  }

  /** Reading the digits of a digit string gives it back. */
  lemma {:induction false} DigitsOfValue(d: seq<nat>, base: nat)
    requires base > 0
    requires forall i :: 0 <= i < |d| ==> d[i] < base
    ensures Digits(Value(d, base), base, |d|) == d
  {
    if |d| > 0 {
      var n := |d| - 1;
      QuotRemUnique(Value(d, base), base, Value(d[..n], base), d[n]);
      DigitsOfValue(d[..n], base);
    }
  }

  /** The value of the digits of v is v, when v fits. */
  lemma {:induction false} ValueOfDigits(v: nat, base: nat, n: nat)
    requires base > 0 && v < Power(base, n)
    ensures Value(Digits(v, base, n), base) == v
    decreases n
  {
    if n > 0 {
      var q := Quot(v, base);
      QuotBound(v, base, Power(base, n - 1));
      ValueOfDigits(q, base, n - 1);
      ValueSnoc(Digits(q, base, n - 1), Rem(v, base), base);
      QuotRem(v, base);
    }
  }
}
