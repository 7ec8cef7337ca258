/** The two probable-prime tests of prime.cpp: Euler powers by a shifted base, and the fixed-point
    chain length with 24 fractional bits. */
module PrimalityTests {
  import opened Bits
  import opened Words

  // ---------- powers of two modulo n ----------

  /** 2^((n-1)/2) mod n, the number Euler's criterion is about. */
  function EulerPower(n: nat): nat
    requires n > 0
  {
    Rem(Pow2((n - 1) / 2), n)
  }

  /** 2^(n-1) mod n, the Fermat remainder. */
  function FermatRemainder(n: nat): nat
    requires n > 0
  {
    Rem(Pow2(n - 1), n)
  }

  /** mpz_scan1(x, 0): the number of trailing zero bits, or the largest count for zero. */
  function TrailingZeros(x: nat): (z: nat)
    ensures x > 0 && x % 2 == 0 ==> z >= 1
  {
    if x == 0 then 0xFFFF_FFFF else if x % 2 == 1 then 0 else 1 + TrailingZeros(x / 2)
  }

  /** x is a multiple of 2^t, for t up to its number of trailing zeros. */
  lemma {:induction false} TrailingZerosDivide(x: nat, t: nat)
    requires t <= TrailingZeros(x)
    ensures Quot(x, Pow2(t)) * Pow2(t) == x
    decreases t
  {
    hide Quot;
    if x == 0 {
      QuotRemUnique(0, Pow2(t), 0, 0);
    } else if t == 0 {
      QuotRemUnique(x, 1, x, 0);
    } else {
      TrailingZerosDivide(x / 2, t - 1);
      var q, p := Quot(x / 2, Pow2(t - 1)), Pow2(t - 1);
      TwiceProduct(q, p);
      QuotRemUnique(x, Pow2(t), q, 0);
    }
  }

  lemma TwiceProduct(q: nat, p: nat)
    ensures q * (2 * p) == 2 * (q * p) == 2 * (p * q)
  {}

  /** The exponent the tests use, and the power of two in their base, multiply to (n-1)/2. */
  lemma ShiftedExponent(n: nat, t: nat)
    requires n % 2 == 1 && 1 <= t <= TrailingZeros(n - 1)
    ensures Pow2(t - 1) * Quot(n - 1, Pow2(t)) == (n - 1) / 2
  {
    hide Quot, TrailingZeros;
    TrailingZerosDivide(n - 1, t);
    TwiceProduct(Quot(n - 1, Pow2(t)), Pow2(t - 1));
  }

  /** Raising 2 << (2^(t-1) - 1) to (n-1) / 2^t gives 2^((n-1)/2). */
  lemma ShiftedPower(n: nat, t: nat)
    requires n % 2 == 1 && 1 <= t <= TrailingZeros(n - 1)
    ensures Power(2 * Pow2(Pow2(t - 1) - 1), Quot(n - 1, Pow2(t))) == Pow2((n - 1) / 2)
  {
    hide Quot, TrailingZeros, Power;
    assert 2 * Pow2(Pow2(t - 1) - 1) == Pow2(Pow2(t - 1));
    hide Pow2;
    PowerOfPow2(Pow2(t - 1), Quot(n - 1, Pow2(t)));
    ShiftedExponent(n, t);
  }

  /** Products may be reduced factor by factor. */
  lemma MulRem(x: nat, y: nat, n: nat)
    requires n > 0
    ensures Rem(x * y, n) == Rem(Rem(x, n) * Rem(y, n), n)
  {
    hide Quot, Rem;
    QuotRem(x, n);
    QuotRem(y, n);
    var a, b, r, s := Quot(x, n), Quot(y, n), Rem(x, n), Rem(y, n);
    QuotRem(r * s, n);
    Expand(a, b, r, s, n);
    var k := a * b * n + a * s + r * b;
    AddMultiple(k, Quot(r * s, n), n, Rem(r * s, n));
    QuotRemUnique(x * y, n, k + Quot(r * s, n), Rem(r * s, n));
  }

  lemma AddMultiple(k: nat, q: nat, n: nat, r: nat)
    ensures k * n + (q * n + r) == (k + q) * n + r
  {}

  lemma Expand(a: nat, b: nat, r: nat, s: nat, n: nat)
    ensures (a * n + r) * (b * n + s) == (a * b * n + a * s + r * b) * n + r * s
  {
    assert (a * n + r) * (b * n + s) == a * n * (b * n + s) + r * (b * n + s);
    assert a * n * (b * n + s) == (a * b * n + a * s) * n;
    assert r * (b * n + s) == (r * b) * n + r * s;
  }

  /** The squared Euler power is the Fermat remainder. */
  lemma SquareIsFermat(n: nat)
    requires n % 2 == 1
    ensures Rem(EulerPower(n) * EulerPower(n), n) == FermatRemainder(n)
  {
    var h := (n - 1) / 2;
    Pow2Add(h, h);
    MulRem(Pow2(h), Pow2(h), n);
  }

  /** No power of two is a multiple of an odd number greater than one. */
  lemma {:induction false} NoPowerDivisible(k: nat, n: nat)
    requires n % 2 == 1 && n > 1
    ensures Rem(Pow2(k), n) != 0
    decreases k
  {
    if k > 0 {
      NoPowerDivisible(k - 1, n);
      if Rem(Pow2(k), n) == 0 {
        QuotRem(Pow2(k), n);
        var q := Quot(Pow2(k), n);
        HalfMultiple(q, n, Pow2(k - 1));
        QuotRemUnique(Pow2(k - 1), n, q / 2, 0);
      }
    }
  }

  lemma HalfMultiple(q: nat, n: nat, m: nat)
    requires n % 2 == 1 && 2 * m == q * n
    ensures m == (q / 2) * n
  {
    var a, b := q / 2, n / 2;
    assert (2 * a + 1) * (2 * b + 1) == 2 * (2 * a * b + a + b) + 1;
    assert q == 2 * a || q == 2 * a + 1;
    assert (2 * a) * n == 2 * (a * n);
  }

  // ---------- the 8.24 chain length ----------

  const FRACTIONAL_BITS := 24
  const ONE := 0x100_0000              // 1 << FRACTIONAL_BITS
  const TARGET_FRACTIONAL_MASK := 0xFF_FFFF
  const TARGET_LENGTH_MASK := 0xFF00_0000

  function TargetGetLength(bits: nat): nat { Shr(BitAnd(bits, TARGET_LENGTH_MASK), FRACTIONAL_BITS) }

  function TargetGetFractional(bits: nat): nat { BitAnd(bits, TARGET_FRACTIONAL_MASK) }

  /** bits += 1 << FRACTIONAL_BITS, in 32 bits */
  function TargetIncrementLength(bits: nat): nat { Low(bits + ONE, 32) }

  /** The fixed-point number with this integer and fractional part. */
  function Fixed(length: nat, fraction: nat): nat { length * ONE + fraction }

  /** AND with a mask shifted up by k. */
  lemma {:induction false} AndShifted(x: nat, y: nat, k: nat)
    ensures BitAnd(x, y * Pow2(k)) == BitAnd(Shr(x, k), y) * Pow2(k)
    decreases k
  {
    if k == 0 {
      QuotRemUnique(x, 1, x, 0);
    } else if x == 0 || y == 0 {
      QuotRemUnique(0, Pow2(k), 0, 0);
    } else {
      AndShifted(x / 2, y, k - 1);
      QuotRemUnique(x, 2, x / 2, x % 2);
      assert Pow2(1) == 2;
      SplitLow(x, 1, k - 1);
      var p, z := Pow2(k - 1), BitAnd(Shr(x, k), y);
      TwiceProduct(y, p);
      TwiceProduct(z, p);
      PositiveProduct(y, p);
    }
  }

  lemma PositiveProduct(y: nat, p: nat)
    requires y > 0 && p > 0
    ensures y * p > 0
  {
    MulMono(1, y, p);
  }

  /** The two parts of a 32-bit fixed-point number, read and written with the masks. */
  lemma FixedParts(length: nat, fraction: nat)
    requires length < 256 && fraction < ONE
    ensures TargetGetLength(Fixed(length, fraction)) == length
    ensures TargetGetFractional(Fixed(length, fraction)) == fraction
    ensures Fixed(length, fraction) < 0x1_0000_0000
    ensures forall f: nat :: f < ONE ==>
              BitOr(BitAnd(Fixed(length, fraction), TARGET_LENGTH_MASK), f) == Fixed(length, f)
  {
    hide BitAnd, BitOr, Pow2, Quot, Rem;
    var x := Fixed(length, fraction);
    Pow2Values();
    AndShifted(x, 255, 24);
    QuotRemUnique(x, ONE, length, fraction);
    AndMask(length, 8);
    LowSmall(length, 8);
    AndMask(x, 24);
    QuotRemUnique(length * ONE, ONE, length, 0);
    forall f: nat | f < ONE ensures BitOr(BitAnd(x, TARGET_LENGTH_MASK), f) == Fixed(length, f) {
      OrDisjoint(length, 24, f);
    }
  }

  lemma FixedIncrement(length: nat, fraction: nat)
    requires length < 255 && fraction < ONE
    ensures TargetIncrementLength(Fixed(length, fraction)) == Fixed(length + 1, fraction)
  {
    Pow2Values();
    LowSmall(Fixed(length, fraction) + ONE, 32);
  }

  // ---------- the tests ----------

  /** Euler's criterion with either sign: the Fermat test of the source. */
  predicate FermatPasses(n: nat)
    requires n > 0
  {
    EulerPower(n) == 1 || EulerPower(n) == n - 1
  }

  /** The Euler, Lagrange and Lifchitz test: the sign is the one n mod 8 asks for. */
  predicate LifchitzPasses(n: nat, sophieGermain: bool)
    requires n > 0
  {
    if sophieGermain then
      (n % 8 == 7 && EulerPower(n) == 1) || (n % 8 == 3 && EulerPower(n) == n - 1)
    else
      (n % 8 == 5 && EulerPower(n) == n - 1) || (n % 8 == 1 && EulerPower(n) == 1)
  }

  /** The Jacobi symbol of 2 over an odd n, as a remainder modulo n. */
  function JacobiTwo(n: nat): int
    requires n > 0
  {
    if n % 8 == 1 || n % 8 == 7 then 1 else n - 1
  }

  /** What passes the first test also satisfies Fermat's congruence to the base 2. */
  lemma PassesFermat(n: nat)
    requires n % 2 == 1 && n > 1 && FermatPasses(n)
    ensures FermatRemainder(n) == 1
  {
    hide EulerPower, FermatRemainder;
    SquareIsFermat(n);
    if EulerPower(n) == 1 {
      QuotRemUnique(1, n, 0, 1);
    } else {
      assert (n - 1) * (n - 1) == (n - 2) * n + 1;
      QuotRemUnique((n - 1) * (n - 1), n, n - 2, 1);
    }
  }

  /** What passes the second test are exactly the Euler-Jacobi probable primes to the base 2 among the
      numbers with a residue that it knows, so it is no weaker than the first. */
  lemma PassesEulerJacobi(n: nat, sophieGermain: bool)
    requires n > 0
    ensures LifchitzPasses(n, sophieGermain) <==> KnownResidue(n, sophieGermain) && EulerPower(n) == JacobiTwo(n)
    ensures LifchitzPasses(n, sophieGermain) ==> FermatPasses(n)
  {
    hide EulerPower;
  }

  /** The residues mod 8 the second test knows; on others it fails without a fraction. */
  predicate KnownResidue(n: nat, sophieGermain: bool)
  {
    if sophieGermain then n % 8 == 7 || n % 8 == 3 else n % 8 == 5 || n % 8 == 1
  }

  /** What a composite adds to the length: the share of n above its Fermat remainder. */
  function FractionalLength(n: nat): nat
    requires n > 0
  {
    Quot((n - FermatRemainder(n)) * ONE, n)
  }

  lemma FractionBelowOne(n: nat)
    requires n % 2 == 1 && n > 1
    ensures FractionalLength(n) < ONE
  {
    NoPowerDivisible(n - 1, n);
    var d := n - FermatRemainder(n);
    MulMono(d + 1, n, ONE);
    Commute(n, ONE);
    QuotBound(d * ONE, n, ONE);
  }

  /** The fraction is the share of n above its Fermat remainder, to the last of its 24 bits. */
  lemma FractionIs(n: nat)
    requires n > 0
    ensures var f, r := FractionalLength(n), Rem(Pow2(n - 1), n);
            f * n <= (n - r) * ONE < (f + 1) * n
  {
    hide Pow2;
    var d := (n - FermatRemainder(n)) * ONE;
    hide FermatRemainder;
    QuotRem(d, n);
    assert (Quot(d, n) + 1) * n == Quot(d, n) * n + n;
  }

  class CPrimalityTestParams {
    var mpzN: int
    var mpzOriginMinusOne: int
    var mpzOriginPlusOne: int
    var mpzNMinusOne: int
    var mpzBase: int
    var mpzR: int
    var mpzR2: int
    var mpzE: int
    var mpzFrac: int
    var nBits: nat
    var nCandidateType: nat
    var nChainLength: nat

    constructor ()
      ensures nBits == 0 && nCandidateType == 0 && nChainLength == 0
    {
      mpzN, mpzOriginMinusOne, mpzOriginPlusOne, mpzNMinusOne := 0, 0, 0, 0;
      mpzBase, mpzR, mpzR2, mpzE, mpzFrac := 0, 0, 0, 0, 0;
      nBits, nCandidateType, nChainLength := 0, 0, 0;
    }

    /** The common first half of both tests: mpzR becomes the Euler power of n. */
    method RaiseShiftedBase(n: nat)
      requires n % 2 == 1
      modifies this`mpzNMinusOne, this`mpzE, this`mpzBase, this`mpzR
      ensures mpzNMinusOne == n - 1 && mpzR == EulerPower(n)
    {
      mpzNMinusOne := n - 1;
      var nTrailingZeros := TrailingZeros(n - 1);
      hide TrailingZeros, Quot, Rem, Power, Pow2;
      if nTrailingZeros > 9 { nTrailingZeros := 9; }
      mpzE := Quot(n - 1, Pow2(nTrailingZeros));
      var nShiftCount := Pow2(nTrailingZeros - 1) - 1;
      mpzBase := 2 * Pow2(nShiftCount);
      ShiftedPower(n, nTrailingZeros);
      mpzR := Rem(Power(mpzBase, mpzE), n);
    }

    /** The common second half: the fraction of a failed test goes into the length. */
    method StoreFraction(n: nat, nLength0: nat, ghost length: nat, ghost fraction: nat) returns (nLength: nat)
      requires n % 2 == 1 && mpzR == EulerPower(n)
      requires nLength0 == Fixed(length, fraction) && length < 256 && fraction < ONE
      modifies this`mpzR, this`mpzR2, this`mpzFrac
      ensures mpzR == FermatRemainder(n)
      ensures n > 1 ==> nLength == Fixed(length, FractionalLength(n)) && FractionalLength(n) < ONE
      ensures n == 1 ==> nLength == nLength0
    {
      nLength := nLength0;
      SquareIsFermat(n);
      mpzR2 := mpzR * mpzR;
      mpzR := Rem(mpzR2, n);
      mpzFrac := n - mpzR;
      mpzFrac := mpzFrac * ONE;
      mpzFrac := Quot(mpzFrac, n);
      var nFractionalLength := mpzFrac;
      if n > 1 { FractionBelowOne(n); } else { QuotRemUnique(ONE, 1, ONE, 0); }
      if nFractionalLength >= ONE { return; }
      FixedParts(length, fraction);
      nLength := BitOr(BitAnd(nLength, TARGET_LENGTH_MASK), nFractionalLength);
    }

    /** FermatProbablePrimalityTestFast: true iff the Euler power is 1 or -1; otherwise, unless it
        is to fail fast, the fraction is stored. */
    method FermatProbablePrimalityTestFast(n: nat, nLength0: nat, ghost length: nat, ghost fraction: nat, fFastFail: bool)
      returns (pass: bool, nLength: nat)
      requires n % 2 == 1 && nLength0 == Fixed(length, fraction) && length < 256 && fraction < ONE
      modifies this`mpzNMinusOne, this`mpzE, this`mpzBase, this`mpzR, this`mpzR2, this`mpzFrac
      ensures pass == FermatPasses(n)
      ensures nLength == Fixed(length, if pass || fFastFail then fraction else FractionalLength(n))
    {
      hide EulerPower, FermatRemainder, FractionalLength;
      RaiseShiftedBase(n);
      nLength := nLength0;
      if mpzR == 1 || mpzR == mpzNMinusOne { return true, nLength; }
      if fFastFail { return false, nLength; }
      OneIsEuler();
      nLength := StoreFraction(n, nLength0, length, fraction);
      pass := false;
    }

    /** EulerLagrangeLifchitzPrimalityTestFast: true iff the Euler power has the sign n mod 8 asks for. */
    method EulerLagrangeLifchitzPrimalityTestFast(n: nat, fSophieGermain: bool, nLength0: nat, ghost length: nat,
                                                  ghost fraction: nat, fFastFail: bool) returns (pass: bool, nLength: nat)
      requires n % 2 == 1 && n > 1 && nLength0 == Fixed(length, fraction) && length < 256 && fraction < ONE
      modifies this`mpzNMinusOne, this`mpzE, this`mpzBase, this`mpzR, this`mpzR2, this`mpzFrac
      ensures pass == LifchitzPasses(n, fSophieGermain)
      ensures nLength == Fixed(length, if pass || fFastFail || !KnownResidue(n, fSophieGermain) then fraction else FractionalLength(n))
    {
      hide EulerPower, FermatRemainder, FractionalLength;
      RaiseShiftedBase(n);
      nLength := nLength0;
      var nMod8 := n % 8;
      pass := false;
      if fSophieGermain && nMod8 == 7 {
        pass := mpzR == 1;
      } else if fSophieGermain && nMod8 == 3 {
        pass := mpzR == mpzNMinusOne;
      } else if !fSophieGermain && nMod8 == 5 {
        pass := mpzR == mpzNMinusOne;
      } else if !fSophieGermain && nMod8 == 1 {
        pass := mpzR == 1;
      } else {
        return;
      }
      if pass { return; }
      if fFastFail { return; }
      nLength := StoreFraction(n, nLength0, length, fraction);
    }
  }

  lemma OneIsEuler()
    ensures FermatPasses(1)
  {}
}
