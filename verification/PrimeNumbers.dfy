/** Primes, and the sign of 2^((n-1)/2) modulo a prime n: the second supplement to the law of quadratic
    reciprocity, by Gauss's lemma. */
module PrimeNumbers {
  import opened Bits

  /** A number above one without a divisor strictly between one and itself. */
  predicate Prime(n: nat)
  {
    n > 1 && forall d :: 1 < d < n ==> Rem(n, d) != 0
  }

  // ---------- multiples ----------

  function Multiple(k: int, n: int): int { k * n }

  ghost predicate Divides(n: int, x: int) { exists k :: x == Multiple(k, n) }

  ghost predicate Same(x: int, y: int, n: int) { Divides(n, x - y) }

  lemma DividesSum(n: int, x: int, y: int, c: int)
    requires Divides(n, x) && Divides(n, y)
    ensures Divides(n, x + y) && Divides(n, x - y) && Divides(n, c * x)
  {
    var k :| x == Multiple(k, n);
    var l :| y == Multiple(l, n);
    assert x + y == Multiple(k + l, n);
    assert x - y == Multiple(k - l, n);
    assert c * x == Multiple(c * k, n) by { assert c * (k * n) == (c * k) * n; }
  }

  lemma SameProduct(a: int, b: int, x: int, y: int, n: int)
    requires Same(a, b, n) && Same(x, y, n)
    ensures Same(a * x, b * y, n)
  {
    DividesSum(n, a - b, x - y, x);
    DividesSum(n, x - y, a - b, b);
    DividesSum(n, x * (a - b), b * (x - y), 0);
    assert a * x - b * y == x * (a - b) + b * (x - y);
  }

  /** A prime that divides a product with a smaller positive factor divides the other factor. */
  lemma {:induction false} Euclid(p: nat, a: nat, b: int)
    requires Prime(p) && 0 < a < p && Divides(p, a * b)
    ensures Divides(p, b)
    decreases a
  {
    if a > 1 {
      var q, r := Quot(p, a), Rem(p, a);
      QuotRem(p, a);
      assert b * p == Multiple(b, p);
      DividesSum(p, a * b, a * b, q);
      DividesSum(p, b * p, q * (a * b), 0);
      Remainder(p, a, b, q, r);
      Euclid(p, r, b);
    }
  }

  lemma Remainder(p: int, a: int, b: int, q: int, r: int)
    requires p == q * a + r
    ensures b * p - q * (a * b) == r * b
  {
    assert b * (q * a + r) == b * (q * a) + b * r;
    assert b * (q * a) == q * (a * b);
  }

  // ---------- products of even and of odd numbers ----------

  function Even(i: nat): nat { if i % 2 == 0 then i else 1 }

  function Odd(i: nat): nat { if i % 2 == 0 then 1 else i }

  /** The product of the even numbers above a, up to b. */
  function Evens(a: nat, b: nat): nat
    decreases b
  {
    if b <= a then 1 else Evens(a, b - 1) * Even(b)
  }

  function Odds(n: nat): nat { if n == 0 then 1 else Odds(n - 1) * Odd(n) }

  function Factorial(n: nat): nat { if n == 0 then 1 else Factorial(n - 1) * n }

  /** How many of the numbers up to n are odd. */
  function OddCount(n: nat): nat { (n + 1) / 2 }

  function Sign(n: nat): int { if n % 2 == 0 then 1 else -1 }

  lemma Associate(a: int, b: int, c: int)
    ensures (a * b) * c == a * (b * c) && a * (b * c) == b * (a * c)
  {}

  lemma Difference(f: int, x: int, y: int)
    ensures x * f - f * y == f * (x - y)
  {}

  lemma Shuffle(a: int, b: int, c: int, d: int)
    ensures (a * b) * (c * d) == (a * c) * (b * d)
  {}

  lemma {:induction false} EvensSplit(a: nat, b: nat, c: nat)
    requires a <= b <= c
    ensures Evens(a, c) == Evens(a, b) * Evens(b, c)
    decreases c
  {
    if b < c {
      EvensSplit(a, b, c - 1);
      Associate(Evens(a, b), Evens(b, c - 1), Even(c));
    }
  }

  /** The even numbers up to 2h are the doubles of those up to h. */
  lemma {:induction false} EvensAreDoubles(h: nat)
    ensures Evens(0, 2 * h) == Pow2(h) * Factorial(h)
  {
    if h > 0 {
      EvensAreDoubles(h - 1);
      assert Evens(0, 2 * h - 1) == Evens(0, 2 * h - 2) * 1;
      Shuffle(Pow2(h - 1), Factorial(h - 1), 2, h);
    }
  }

  lemma {:induction false} EvensAndOdds(n: nat)
    ensures Evens(0, n) * Odds(n) == Factorial(n)
  {
    if n > 0 {
      EvensAndOdds(n - 1);
      Shuffle(Evens(0, n - 1), Even(n), Odds(n - 1), Odd(n));
    }
  }

  /** The even numbers above p - 1 - t, below p, are p less the odd numbers up to t; so their product is
      that of those odd numbers, but for the sign. */
  lemma {:induction false} Reflected(p: nat, t: nat)
    requires p % 2 == 1 && t < p
    ensures Same(Evens(p - 1 - t, p - 1), Sign(OddCount(t)) * Odds(t), p)
  {
    hide Same, Evens, Odds, Sign, OddCount;
    if t == 0 {
      NoneReflected(p);
    } else {
      Reflected(p, t - 1);
      EvensSplit(p - 1 - t, p - t, p - 1);
      OneEven(p - t);
      OneOdd(t);
      var x, y := Evens(p - t, p - 1), Sign(OddCount(t - 1)) * Odds(t - 1);
      if t % 2 == 1 {
        var minus: int := 0 - t;
        Negative(p, t);
        SameProduct(p - t, minus, x, y, p);
        Turned(t, Sign(OddCount(t - 1)), Odds(t - 1));
      }
    }
  }

  lemma NoneReflected(p: nat)
    requires p > 0
    ensures Same(Evens(p - 1, p - 1), Sign(OddCount(0)) * Odds(0), p)
  {
    assert 0 == Multiple(0, p);
  }

  lemma OneEven(n: nat)
    requires n > 0
    ensures Evens(n - 1, n) == Even(n)
  {
    assert Evens(n - 1, n) == Evens(n - 1, n - 1) * Even(n);
  }

  lemma OneOdd(t: nat)
    requires t > 0
    ensures Odds(t) == Odds(t - 1) * Odd(t)
    ensures Sign(OddCount(t)) == if t % 2 == 1 then -Sign(OddCount(t - 1)) else Sign(OddCount(t - 1))
  {}

  lemma Negative(p: int, t: int)
    ensures Same(p - t, -t, p)
  {
    assert (p - t) - (-t) == Multiple(1, p);
  }

  lemma Turned(t: int, s: int, o: int)
    ensures -t * (s * o) == -s * (o * t)
  {
    assert t * (s * o) == s * (o * t);
  }

  lemma {:induction false} FactorialCancels(p: nat, h: nat, x: int)
    requires Prime(p) && h < p && Divides(p, Factorial(h) * x)
    ensures Divides(p, x)
  {
    hide Prime, Divides;
    if h > 0 {
      Associate(Factorial(h - 1), h, x);
      Euclid(p, h, Factorial(h - 1) * x);
      FactorialCancels(p, h - 1, x);
    }
  }

  /** Gauss's lemma for 2: 2^((p-1)/2) is 1 or -1 modulo p, by the parity of the number of odd
      numbers up to (p-1)/2. */
  lemma GaussTwo(p: nat)
    requires Prime(p) && p % 2 == 1
    ensures Same(Pow2((p - 1) / 2), Sign(OddCount((p - 1) / 2)), p)
  {
    hide Prime, Divides, Evens, Odds, Factorial, Pow2, Sign;
    var h := (p - 1) / 2;
    var s, e, o, f, w := Sign(OddCount(h)), Evens(0, h), Odds(h), Factorial(h), Pow2(h);
    EvensAreDoubles(h);
    EvensSplit(0, h, 2 * h);
    Reflected(p, h);
    Reflexive(e, p);
    SameProduct(e, e, Evens(h, 2 * h), s * o, p);
    EvensAndOdds(h);
    Associate(e, s, o);
    Difference(f, w, s);
    Commute(f, s);
    FactorialCancels(p, h, w - s);
  }

  lemma Reflexive(x: int, n: int)
    ensures Same(x, x, n)
  {
    assert 0 == Multiple(0, n);
  }

  /** The second supplement: for an odd prime p, 2^((p-1)/2) is 1 modulo p exactly if p is 1 or 7
      modulo 8, and p - 1 exactly if it is 3 or 5. */
  lemma SecondSupplement(p: nat)
    requires Prime(p) && p > 2
    ensures p % 2 == 1
    ensures Rem(Pow2((p - 1) / 2), p) == if p % 8 == 1 || p % 8 == 7 then 1 else p - 1
  {
    OddPrime(p);
    var h := (p - 1) / 2;
    GaussTwo(p);
    SignOfResidue(p);
    hide Prime;
    var w := Pow2(h);
    var k :| w - Sign(OddCount(h)) == Multiple(k, p);
    if Sign(OddCount(h)) == 1 {
      QuotRemUnique(w, p, k, 1);
    } else {
      assert Multiple(k, p) == Multiple(k - 1, p) + p;
      QuotRemUnique(w, p, k - 1, p - 1);
    }
  }

  lemma OddPrime(p: nat)
    requires Prime(p) && p > 2
    ensures p % 2 == 1
  {
    QuotIsDiv(p, 2);
  }

  lemma SignOfResidue(p: nat)
    requires p % 2 == 1
    ensures Sign(OddCount((p - 1) / 2)) == if p % 8 == 1 || p % 8 == 7 then 1 else -1
  {
    SignAt(p / 8, p % 8);
  }

  lemma SignAt(q: nat, r: nat)
    requires r == 1 || r == 3 || r == 5 || r == 7
    ensures Sign(OddCount((8 * q + r - 1) / 2)) == if r == 1 || r == 7 then 1 else -1
  {
    assert OddCount((8 * q + r - 1) / 2) == 2 * q + (r + 1) / 4;
  }
}
