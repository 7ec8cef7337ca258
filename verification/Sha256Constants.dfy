/** Where the constants of SHA-256 come from (sections 4.2.2 and 5.3.3 of FIPS 180-4): fractional parts
    of the square and cube roots of the first primes. */
module Sha256Constants {
  import opened Bits
  import opened PrimeNumbers
  import opened Sha256

  /** The first 64 primes, from position 0 on. */
  function NthPrime(t: nat): nat
    requires t < 64
  {
    if t < 16 then Primes0(t) else if t < 32 then Primes1(t) else if t < 48 then Primes2(t) else Primes3(t)
  }

  function Primes0(t: nat): nat
  {
    match t
    case 0 => 2 case 1 => 3 case 2 => 5 case 3 => 7 case 4 => 11 case 5 => 13 case 6 => 17 case 7 => 19
    case 8 => 23 case 9 => 29 case 10 => 31 case 11 => 37 case 12 => 41 case 13 => 43 case 14 => 47 case _ => 53
  }

  function Primes1(t: nat): nat
  {
    match t
    case 16 => 59 case 17 => 61 case 18 => 67 case 19 => 71 case 20 => 73 case 21 => 79 case 22 => 83 case 23 => 89
    case 24 => 97 case 25 => 101 case 26 => 103 case 27 => 107 case 28 => 109 case 29 => 113 case 30 => 127 case _ => 131
  }

  function Primes2(t: nat): nat
  {
    match t
    case 32 => 137 case 33 => 139 case 34 => 149 case 35 => 151 case 36 => 157 case 37 => 163 case 38 => 167 case 39 => 173
    case 40 => 179 case 41 => 181 case 42 => 191 case 43 => 193 case 44 => 197 case 45 => 199 case 46 => 211 case _ => 223
  }

  function Primes3(t: nat): nat
  {
    match t
    case 48 => 227 case 49 => 229 case 50 => 233 case 51 => 239 case 52 => 241 case 53 => 251 case 54 => 257 case 55 => 263
    case 56 => 269 case 57 => 271 case 58 => 277 case 59 => 281 case 60 => 283 case 61 => 293 case 62 => 307 case _ => 311
  }

  // ---------- the first 64 primes ----------

  /** n has a divisor that is a prime below 18. */
  predicate SmallFactor(n: nat)
  {
    n % 2 == 0 || n % 3 == 0 || n % 5 == 0 || n % 7 == 0 || n % 11 == 0 || n % 13 == 0 || n % 17 == 0
  }

  /** A factor below 18 is a multiple of one of those primes. */
  lemma FactorBelow18(d: nat, e: nat)
    requires 1 < d < 18
    ensures SmallFactor(d * e)
  {
    hide SmallFactor;
    SmallOnes(d);
    var k := SmallPrime(d);
    var q := Quot(d, k);
    QuotIsDiv(d, k);
    QuotRem(d, k);
    assert d * e == k * (q * e) by { Reorder(q, k, e); }
    MultipleOf(k, q * e);
  }

  lemma SmallOnes(d: nat)
    requires 1 < d < 18
    ensures SmallFactor(d)
  {}

  lemma Reorder(q: nat, k: nat, e: nat)
    ensures (q * k) * e == k * (q * e)
  {}

  function SmallPrime(d: nat): (k: nat)
    requires SmallFactor(d)
    ensures k in {2, 3, 5, 7, 11, 13, 17} && d % k == 0
  {
    if d % 2 == 0 then 2 else if d % 3 == 0 then 3 else if d % 5 == 0 then 5 else if d % 7 == 0 then 7
    else if d % 11 == 0 then 11 else if d % 13 == 0 then 13 else 17
  }

  lemma MultipleOf(k: nat, m: nat)
    requires k in {2, 3, 5, 7, 11, 13, 17}
    ensures SmallFactor(k * m)
  {
    QuotRemUnique(k * m, k, m, 0);
    QuotIsDiv(k * m, k);
  }

  /** Below 18 * 18 the primes are 2, 3, 5, 7, 11, 13, 17 and the numbers without such a divisor. */
  lemma PrimeBelow324(n: nat)
    requires 17 < n < 324
    ensures Prime(n) <==> !SmallFactor(n)
  {
    if SmallFactor(n) {
      QuotIsDiv(n, SmallPrime(n));
    } else {
      forall d | 1 < d < n ensures Rem(n, d) != 0 {
        if Rem(n, d) == 0 {
          QuotRem(n, d);
          var e := Quot(n, d);
          Smaller(d, e);
          if d < 18 { FactorBelow18(d, e); } else { FactorBelow18(e, d); }
        }
      }
    }
  }

  lemma Smaller(d: nat, e: nat)
    requires d > 1 && 1 < d < e * d < 324
    ensures 1 < e && (d < 18 || e < 18) && e * d == d * e
  {
    if d >= 18 && e >= 18 { MulMono(18, e, d); }
  }

  /** Every number strictly between has one of the small divisors. */
  predicate NoPrimeBetween(a: nat, b: nat)
  {
    b <= a + 1 || (SmallFactor(b - 1) && NoPrimeBetween(a, b - 1))
  }

  lemma {:induction false} BetweenHasFactor(a: nat, b: nat, n: nat)
    requires NoPrimeBetween(a, b) && a < n < b
    ensures SmallFactor(n)
  {
    if n < b - 1 { BetweenHasFactor(a, b - 1, n); }
  }

  lemma Gaps0()
    ensures NoPrimeBetween(2, 3) && NoPrimeBetween(3, 5) && NoPrimeBetween(5, 7) && NoPrimeBetween(7, 11)
    ensures NoPrimeBetween(11, 13) && NoPrimeBetween(13, 17) && NoPrimeBetween(17, 19) && NoPrimeBetween(19, 23)
  {}

  lemma Row0(t: nat)
    requires t < 8
    ensures NoPrimeBetween(NthPrime(t), NthPrime(t + 1))
  {
    hide NoPrimeBetween;
    Gaps0();
  }

  lemma Gaps8()
    ensures NoPrimeBetween(23, 29) && NoPrimeBetween(29, 31) && NoPrimeBetween(31, 37) && NoPrimeBetween(37, 41)
    ensures NoPrimeBetween(41, 43) && NoPrimeBetween(43, 47) && NoPrimeBetween(47, 53) && NoPrimeBetween(53, 59)
  {}

  lemma Row8(t: nat)
    requires 8 <= t < 16
    ensures NoPrimeBetween(NthPrime(t), NthPrime(t + 1))
  {
    hide NoPrimeBetween;
    Gaps8();
  }

  lemma Gaps16()
    ensures NoPrimeBetween(59, 61) && NoPrimeBetween(61, 67) && NoPrimeBetween(67, 71) && NoPrimeBetween(71, 73)
    ensures NoPrimeBetween(73, 79) && NoPrimeBetween(79, 83) && NoPrimeBetween(83, 89) && NoPrimeBetween(89, 97)
  {}

  lemma Row16(t: nat)
    requires 16 <= t < 24
    ensures NoPrimeBetween(NthPrime(t), NthPrime(t + 1))
  {
    hide NoPrimeBetween;
    Gaps16();
  }

  lemma Gaps24()
    ensures NoPrimeBetween(97, 101) && NoPrimeBetween(101, 103) && NoPrimeBetween(103, 107) && NoPrimeBetween(107, 109)
    ensures NoPrimeBetween(109, 113) && NoPrimeBetween(113, 127) && NoPrimeBetween(127, 131) && NoPrimeBetween(131, 137)
  {}

  lemma Row24(t: nat)
    requires 24 <= t < 32
    ensures NoPrimeBetween(NthPrime(t), NthPrime(t + 1))
  {
    hide NoPrimeBetween;
    Gaps24();
  }

  lemma Gaps32()
    ensures NoPrimeBetween(137, 139) && NoPrimeBetween(139, 149) && NoPrimeBetween(149, 151) && NoPrimeBetween(151, 157)
    ensures NoPrimeBetween(157, 163) && NoPrimeBetween(163, 167) && NoPrimeBetween(167, 173) && NoPrimeBetween(173, 179)
  {}

  lemma Row32(t: nat)
    requires 32 <= t < 40
    ensures NoPrimeBetween(NthPrime(t), NthPrime(t + 1))
  {
    hide NoPrimeBetween;
    Gaps32();
  }

  lemma Gaps40()
    ensures NoPrimeBetween(179, 181) && NoPrimeBetween(181, 191) && NoPrimeBetween(191, 193) && NoPrimeBetween(193, 197)
    ensures NoPrimeBetween(197, 199) && NoPrimeBetween(199, 211) && NoPrimeBetween(211, 223) && NoPrimeBetween(223, 227)
  {}

  lemma Row40(t: nat)
    requires 40 <= t < 48
    ensures NoPrimeBetween(NthPrime(t), NthPrime(t + 1))
  {
    hide NoPrimeBetween;
    Gaps40();
  }

  lemma Gaps48()
    ensures NoPrimeBetween(227, 229) && NoPrimeBetween(229, 233) && NoPrimeBetween(233, 239) && NoPrimeBetween(239, 241)
    ensures NoPrimeBetween(241, 251) && NoPrimeBetween(251, 257) && NoPrimeBetween(257, 263) && NoPrimeBetween(263, 269)
  {}

  lemma Row48(t: nat)
    requires 48 <= t < 56
    ensures NoPrimeBetween(NthPrime(t), NthPrime(t + 1))
  {
    hide NoPrimeBetween;
    Gaps48();
  }

  lemma Gaps56()
    ensures NoPrimeBetween(269, 271) && NoPrimeBetween(271, 277) && NoPrimeBetween(277, 281) && NoPrimeBetween(281, 283)
    ensures NoPrimeBetween(283, 293) && NoPrimeBetween(293, 307) && NoPrimeBetween(307, 311)
  {}

  lemma Row56(t: nat)
    requires 56 <= t < 63
    ensures NoPrimeBetween(NthPrime(t), NthPrime(t + 1))
  {
    hide NoPrimeBetween;
    Gaps56();
  }

  /** From one prime of the list to the next. */
  lemma Gap(t: nat)
    requires t < 63
    ensures 2 <= NthPrime(t) < NthPrime(t + 1) <= 311 && NoPrimeBetween(NthPrime(t), NthPrime(t + 1))
    ensures t >= 7 ==> NthPrime(t) > 17 && !SmallFactor(NthPrime(t))
  {
    Range(t);
    Range(t + 1);
    hide NthPrime, NoPrimeBetween, SmallFactor;
    if t < 8 { Row0(t); } else if t < 16 { Row8(t); } else if t < 24 { Row16(t); } else if t < 32 { Row24(t); }
    else if t < 40 { Row32(t); } else if t < 48 { Row40(t); } else if t < 56 { Row48(t); } else { Row56(t); }
    Growing(t);
    if t >= 7 { NotDivided(t); }
  }

  lemma Range(t: nat)
    requires t < 64
    ensures 2 <= NthPrime(t) <= 311 && (t >= 7 ==> NthPrime(t) > 17)
    ensures NthPrime(0) == 2 && NthPrime(63) == 311
  {}

  lemma Growing(t: nat)
    requires t < 63
    ensures NthPrime(t) < NthPrime(t + 1)
  {}

  lemma NotDivided(t: nat)
    requires 7 <= t < 64
    ensures !SmallFactor(NthPrime(t))
  {}

  lemma {:induction false} NthIncreasing(t: nat, u: nat)
    requires t < u < 64
    ensures NthPrime(t) < NthPrime(u)
  {
    hide NthPrime, NoPrimeBetween;
    Gap(u - 1);
    if t < u - 1 { NthIncreasing(t, u - 1); }
  }

  /** The place of the last prime of the list that is not above n. */
  lemma {:induction false} LastUpTo(n: nat, u: nat) returns (t: nat)
    requires u < 64 && NthPrime(0) <= n && (u < 63 ==> n < NthPrime(u + 1))
    ensures t <= u && NthPrime(t) <= n && (t < 63 ==> n < NthPrime(t + 1))
  {
    hide NthPrime;
    if NthPrime(u) <= n { t := u; } else { t := LastUpTo(n, u - 1); }
  }

  lemma IsPrime(t: nat)
    requires t < 64
    ensures Prime(NthPrime(t))
  {
    if t < 7 {
      SmallPrimes(NthPrime(t));
    } else {
      Range(t);
      NotDivided(t);
      PrimeBelow324(NthPrime(t));
    }
  }

  lemma SmallPrimes(n: nat)
    requires n <= 17
    ensures Prime(n) <==> n in {2, 3, 5, 7, 11, 13, 17}
  {
    assert NoDivisorFrom(2, 2) && NoDivisorFrom(3, 2) && NoDivisorFrom(5, 2) && NoDivisorFrom(7, 2);
    assert NoDivisorFrom(11, 2) && NoDivisorFrom(13, 2) && NoDivisorFrom(17, 2);
    if n in {2, 3, 5, 7, 11, 13, 17} {
      forall d | 1 < d < n ensures Rem(n, d) != 0 { NoneDivides(n, 2, d); }
    } else if n > 1 {
      QuotIsDiv(n, 2);
      QuotIsDiv(n, 3);
      assert Rem(n, 2) == 0 || Rem(n, 3) == 0;
    }
  }

  predicate NoDivisorFrom(n: nat, d: nat)
    requires d > 0
    decreases n - d
  {
    d >= n || (n % d != 0 && NoDivisorFrom(n, d + 1))
  }

  lemma {:induction false} NoneDivides(n: nat, d: nat, e: nat)
    requires 0 < d <= e < n && NoDivisorFrom(n, d)
    ensures Rem(n, e) != 0
    decreases e - d
  {
    if d < e { NoneDivides(n, d + 1, e); } else { QuotIsDiv(n, d); }
  }

  /** The list is in order, and has exactly the primes up to 311: NthPrime(t) is prime number t + 1. */
  lemma FirstPrimes(n: nat)
    ensures (exists t :: 0 <= t < 64 && NthPrime(t) == n) <==> Prime(n) && n <= 311
  {
    hide NthPrime, SmallFactor, Prime;
    Range(0);
    if t :| 0 <= t < 64 && NthPrime(t) == n {
      Range(t);
      IsPrime(t);
    }
    if Prime(n) && n <= 311 {
      AboveOne(n);
      var t := LastUpTo(n, 63);
      if n != NthPrime(t) && t < 63 {
        Gap(t);
        NotPrimeBetween(n, NthPrime(t), NthPrime(t + 1));
        SmallPrimes(n);
        FirstSeven();
      }
    }
  }

  lemma FirstSeven()
    ensures NthPrime(1) == 3 && NthPrime(2) == 5 && NthPrime(3) == 7 && NthPrime(4) == 11 && NthPrime(5) == 13 && NthPrime(6) == 17
  {}

  lemma AboveOne(n: nat)
    requires Prime(n)
    ensures n >= 2
  {}

  lemma NotPrimeBetween(n: nat, a: nat, b: nat)
    requires a < n < b <= 311 && 2 <= a && NoPrimeBetween(a, b) && Prime(n)
    ensures n <= 17
  {
    BetweenHasFactor(a, b, n);
    if n > 17 { PrimeBelow324(n); }
  }

  // ---------- the constants ----------

  /** w is the first 32 bits of the fractional part of the square root of n. */
  ghost predicate SquareRootFraction(w: nat, n: nat) { exists q :: SquareRoot(w, n, q) }

  /** q and w * 2^-32 are the integer part of the square root and the 32 bits behind it. */
  predicate SquareRoot(w: nat, n: nat, q: nat)
  {
    var x := q * 0x1_0000_0000 + w;
    q * q <= n < (q + 1) * (q + 1) && x * x <= n * 0x1_0000_0000 * 0x1_0000_0000 < (x + 1) * (x + 1)
  }

  /** The same for the cube root. */
  ghost predicate CubeRootFraction(w: nat, n: nat) { exists q :: CubeRoot(w, n, q) }

  predicate CubeRoot(w: nat, n: nat, q: nat)
  {
    var x := q * 0x1_0000_0000 + w;
    q * q * q <= n < (q + 1) * (q + 1) * (q + 1)
    && x * x * x <= n * 0x1_0000_0000 * 0x1_0000_0000 * 0x1_0000_0000 < (x + 1) * (x + 1) * (x + 1)
  }

  /** Section 5.3.3: the initial hash value, from the square roots of the first eight primes. */
  lemma InitialIsRoots(i: nat)
    requires i < 8
    ensures SquareRootFraction(StateWords(INITIAL)[i] as nat, NthPrime(i))
  {
    hide SquareRoot;
    InitialRoots();
    FirstEight();
  }

  lemma FirstEight()
    ensures NthPrime(0) == 2 && NthPrime(1) == 3 && NthPrime(2) == 5 && NthPrime(3) == 7
    ensures NthPrime(4) == 11 && NthPrime(5) == 13 && NthPrime(6) == 17 && NthPrime(7) == 19
  {}

  lemma InitialRoots()
    ensures SquareRoot(INITIAL.a as nat, 2, 1) && SquareRoot(INITIAL.b as nat, 3, 1) && SquareRoot(INITIAL.c as nat, 5, 2)
    ensures SquareRoot(INITIAL.d as nat, 7, 2) && SquareRoot(INITIAL.e as nat, 11, 3) && SquareRoot(INITIAL.f as nat, 13, 3)
    ensures SquareRoot(INITIAL.g as nat, 17, 4) && SquareRoot(INITIAL.h as nat, 19, 4)
  {}

  /** The constant at t is w, and comes from the cube root of p, whose integer part is q. */
  predicate RootAt(t: nat, w: nat, p: nat, q: nat) { t < 64 && NthPrime(t) == p && Constant(t) as nat == w && CubeRoot(w, p, q) }

  /** Section 4.2.2: the constants, from the cube roots of the first 64 primes. */
  lemma ConstantsAreRoots(t: nat)
    requires t < 64
    ensures CubeRootFraction(Constant(t) as nat, NthPrime(t))
  {
    hide CubeRoot, NthPrime, Constant;
    var w, p, q := FoundRoot(t);
    assert CubeRoot(Constant(t) as nat, NthPrime(t), q);
  }

  lemma FoundRoot(t: nat) returns (w: nat, p: nat, q: nat)
    requires t < 64
    ensures RootAt(t, w, p, q)
  {
    hide RootAt;
    if t < 4 { Roots0(); } else if t < 8 { Roots4(); } else if t < 12 { Roots8(); } else if t < 16 { Roots12(); }
    else if t < 20 { Roots16(); } else if t < 24 { Roots20(); } else if t < 28 { Roots24(); } else if t < 32 { Roots28(); }
    else if t < 36 { Roots32(); } else if t < 40 { Roots36(); } else if t < 44 { Roots40(); } else if t < 48 { Roots44(); }
    else if t < 52 { Roots48(); } else if t < 56 { Roots52(); } else if t < 60 { Roots56(); } else { Roots60(); }
    w, p, q :| RootAt(t, w, p, q);
  }

  lemma Roots0()
    ensures RootAt(0, 0x428a2f98, 2, 1) && RootAt(1, 0x71374491, 3, 1) && RootAt(2, 0xb5c0fbcf, 5, 1) && RootAt(3, 0xe9b5dba5, 7, 1)
  {
    hide CubeRoot;
    Cubes0();
  }

  lemma Cubes0()
    ensures CubeRoot(0x428a2f98, 2, 1) && CubeRoot(0x71374491, 3, 1) && CubeRoot(0xb5c0fbcf, 5, 1) && CubeRoot(0xe9b5dba5, 7, 1)
  {}

  lemma Roots4()
    ensures RootAt(4, 0x3956c25b, 11, 2) && RootAt(5, 0x59f111f1, 13, 2) && RootAt(6, 0x923f82a4, 17, 2) && RootAt(7, 0xab1c5ed5, 19, 2)
  {
    hide CubeRoot;
    Cubes4();
  }

  lemma Cubes4()
    ensures CubeRoot(0x3956c25b, 11, 2) && CubeRoot(0x59f111f1, 13, 2) && CubeRoot(0x923f82a4, 17, 2) && CubeRoot(0xab1c5ed5, 19, 2)
  {}

  lemma Roots8()
    ensures RootAt(8, 0xd807aa98, 23, 2) && RootAt(9, 0x12835b01, 29, 3) && RootAt(10, 0x243185be, 31, 3) && RootAt(11, 0x550c7dc3, 37, 3)
  {
    hide CubeRoot;
    Cubes8();
  }

  lemma Cubes8()
    ensures CubeRoot(0xd807aa98, 23, 2) && CubeRoot(0x12835b01, 29, 3) && CubeRoot(0x243185be, 31, 3) && CubeRoot(0x550c7dc3, 37, 3)
  {}

  lemma Roots12()
    ensures RootAt(12, 0x72be5d74, 41, 3) && RootAt(13, 0x80deb1fe, 43, 3) && RootAt(14, 0x9bdc06a7, 47, 3) && RootAt(15, 0xc19bf174, 53, 3)
  {
    hide CubeRoot;
    Cubes12();
  }

  lemma Cubes12()
    ensures CubeRoot(0x72be5d74, 41, 3) && CubeRoot(0x80deb1fe, 43, 3) && CubeRoot(0x9bdc06a7, 47, 3) && CubeRoot(0xc19bf174, 53, 3)
  {}

  lemma Roots16()
    ensures RootAt(16, 0xe49b69c1, 59, 3) && RootAt(17, 0xefbe4786, 61, 3) && RootAt(18, 0x0fc19dc6, 67, 4) && RootAt(19, 0x240ca1cc, 71, 4)
  {
    hide CubeRoot;
    Cubes16();
  }

  lemma Cubes16()
    ensures CubeRoot(0xe49b69c1, 59, 3) && CubeRoot(0xefbe4786, 61, 3) && CubeRoot(0x0fc19dc6, 67, 4) && CubeRoot(0x240ca1cc, 71, 4)
  {}

  lemma Roots20()
    ensures RootAt(20, 0x2de92c6f, 73, 4) && RootAt(21, 0x4a7484aa, 79, 4) && RootAt(22, 0x5cb0a9dc, 83, 4) && RootAt(23, 0x76f988da, 89, 4)
  {
    hide CubeRoot;
    Cubes20();
  }

  lemma Cubes20()
    ensures CubeRoot(0x2de92c6f, 73, 4) && CubeRoot(0x4a7484aa, 79, 4) && CubeRoot(0x5cb0a9dc, 83, 4) && CubeRoot(0x76f988da, 89, 4)
  {}

  lemma Roots24()
    ensures RootAt(24, 0x983e5152, 97, 4) && RootAt(25, 0xa831c66d, 101, 4) && RootAt(26, 0xb00327c8, 103, 4) && RootAt(27, 0xbf597fc7, 107, 4)
  {
    hide CubeRoot;
    Cubes24();
  }

  lemma Cubes24()
    ensures CubeRoot(0x983e5152, 97, 4) && CubeRoot(0xa831c66d, 101, 4) && CubeRoot(0xb00327c8, 103, 4) && CubeRoot(0xbf597fc7, 107, 4)
  {}

  lemma Roots28()
    ensures RootAt(28, 0xc6e00bf3, 109, 4) && RootAt(29, 0xd5a79147, 113, 4) && RootAt(30, 0x06ca6351, 127, 5) && RootAt(31, 0x14292967, 131, 5)
  {
    hide CubeRoot;
    Cubes28();
  }

  lemma Cubes28()
    ensures CubeRoot(0xc6e00bf3, 109, 4) && CubeRoot(0xd5a79147, 113, 4) && CubeRoot(0x06ca6351, 127, 5) && CubeRoot(0x14292967, 131, 5)
  {}

  lemma Roots32()
    ensures RootAt(32, 0x27b70a85, 137, 5) && RootAt(33, 0x2e1b2138, 139, 5) && RootAt(34, 0x4d2c6dfc, 149, 5) && RootAt(35, 0x53380d13, 151, 5)
  {
    hide CubeRoot;
    Cubes32();
  }

  lemma Cubes32()
    ensures CubeRoot(0x27b70a85, 137, 5) && CubeRoot(0x2e1b2138, 139, 5) && CubeRoot(0x4d2c6dfc, 149, 5) && CubeRoot(0x53380d13, 151, 5)
  {}

  lemma Roots36()
    ensures RootAt(36, 0x650a7354, 157, 5) && RootAt(37, 0x766a0abb, 163, 5) && RootAt(38, 0x81c2c92e, 167, 5) && RootAt(39, 0x92722c85, 173, 5)
  {
    hide CubeRoot;
    Cubes36();
  }

  lemma Cubes36()
    ensures CubeRoot(0x650a7354, 157, 5) && CubeRoot(0x766a0abb, 163, 5) && CubeRoot(0x81c2c92e, 167, 5) && CubeRoot(0x92722c85, 173, 5)
  {}

  lemma Roots40()
    ensures RootAt(40, 0xa2bfe8a1, 179, 5) && RootAt(41, 0xa81a664b, 181, 5) && RootAt(42, 0xc24b8b70, 191, 5) && RootAt(43, 0xc76c51a3, 193, 5)
  {
    hide CubeRoot;
    Cubes40();
  }

  lemma Cubes40()
    ensures CubeRoot(0xa2bfe8a1, 179, 5) && CubeRoot(0xa81a664b, 181, 5) && CubeRoot(0xc24b8b70, 191, 5) && CubeRoot(0xc76c51a3, 193, 5)
  {}

  lemma Roots44()
    ensures RootAt(44, 0xd192e819, 197, 5) && RootAt(45, 0xd6990624, 199, 5) && RootAt(46, 0xf40e3585, 211, 5) && RootAt(47, 0x106aa070, 223, 6)
  {
    hide CubeRoot;
    Cubes44();
  }

  lemma Cubes44()
    ensures CubeRoot(0xd192e819, 197, 5) && CubeRoot(0xd6990624, 199, 5) && CubeRoot(0xf40e3585, 211, 5) && CubeRoot(0x106aa070, 223, 6)
  {}

  lemma Roots48()
    ensures RootAt(48, 0x19a4c116, 227, 6) && RootAt(49, 0x1e376c08, 229, 6) && RootAt(50, 0x2748774c, 233, 6) && RootAt(51, 0x34b0bcb5, 239, 6)
  {
    hide CubeRoot;
    Cubes48();
  }

  lemma Cubes48()
    ensures CubeRoot(0x19a4c116, 227, 6) && CubeRoot(0x1e376c08, 229, 6) && CubeRoot(0x2748774c, 233, 6) && CubeRoot(0x34b0bcb5, 239, 6)
  {}

  lemma Roots52()
    ensures RootAt(52, 0x391c0cb3, 241, 6) && RootAt(53, 0x4ed8aa4a, 251, 6) && RootAt(54, 0x5b9cca4f, 257, 6) && RootAt(55, 0x682e6ff3, 263, 6)
  {
    hide CubeRoot;
    Cubes52();
  }

  lemma Cubes52()
    ensures CubeRoot(0x391c0cb3, 241, 6) && CubeRoot(0x4ed8aa4a, 251, 6) && CubeRoot(0x5b9cca4f, 257, 6) && CubeRoot(0x682e6ff3, 263, 6)
  {}

  lemma Roots56()
    ensures RootAt(56, 0x748f82ee, 269, 6) && RootAt(57, 0x78a5636f, 271, 6) && RootAt(58, 0x84c87814, 277, 6) && RootAt(59, 0x8cc70208, 281, 6)
  {
    hide CubeRoot;
    Cubes56();
  }

  lemma Cubes56()
    ensures CubeRoot(0x748f82ee, 269, 6) && CubeRoot(0x78a5636f, 271, 6) && CubeRoot(0x84c87814, 277, 6) && CubeRoot(0x8cc70208, 281, 6)
  {}

  lemma Roots60()
    ensures RootAt(60, 0x90befffa, 283, 6) && RootAt(61, 0xa4506ceb, 293, 6) && RootAt(62, 0xbef9a3f7, 307, 6) && RootAt(63, 0xc67178f2, 311, 6)
  {
    hide CubeRoot;
    Cubes60();
  }

  lemma Cubes60()
    ensures CubeRoot(0x90befffa, 283, 6) && CubeRoot(0xa4506ceb, 293, 6) && CubeRoot(0xbef9a3f7, 307, 6) && CubeRoot(0xc67178f2, 311, 6)
  {}
}
