/** What the chain tests do on primes: every prime passes, so a chain of primes is found to be at least
    as long as it is. */
module PrimeChains {
  import opened Bits
  import opened PrimeNumbers
  import opened PrimalityTests
  import opened ChainTests

  /** Every odd prime passes the first test, and the second one wherever it knows the residue: the sign
      it asks for is the one that a prime has. */
  lemma PrimePasses(n: nat, sophieGermain: bool)
    requires Prime(n) && n > 2
    ensures EulerPower(n) == if n % 8 == 1 || n % 8 == 7 then 1 else n - 1
    ensures FermatPasses(n)
    ensures LifchitzPasses(n, sophieGermain) <==> KnownResidue(n, sophieGermain)
  {
    hide Prime;
    SecondSupplement(n);
  }

  /** The number at position s of the chain that a candidate type is about. */
  function Member(origin: nat, candidateType: nat, s: nat): int
  {
    if candidateType == 0 then origin * Pow2(s) - 1
    else if candidateType == 1 then origin * Pow2(s) + 1
    else if s % 2 == 0 then origin * Pow2(s / 2) - 1 else origin * Pow2(s / 2) + 1
  }

  /** The numbers of the chain from position start up to n are primes. */
  ghost predicate PrimesUpTo(origin: nat, candidateType: nat, start: nat, n: nat)
  {
    forall s :: start <= s < n ==> Member(origin, candidateType, s) > 0 && Prime(Member(origin, candidateType, s))
  }

  /** A position of a Cunningham chain that is prime, as those before it, passes. */
  lemma CunninghamPasses(n: nat, sophieGermain: bool, base: nat, s: nat)
    requires n > 2 && base <= s && Prime(ChainNumber(n, sophieGermain, s))
    requires s > base ==> ChainNumber(n, sophieGermain, s - 1) > 0 && Prime(ChainNumber(n, sophieGermain, s - 1))
    ensures Passes(n, sophieGermain, base, s)
  {
    hide Prime, FermatPasses, LifchitzPasses, ChainNumber, KnownResidue, EulerPower;
    AboveTwo(n, sophieGermain, s);
    PrimePasses(ChainNumber(n, sophieGermain, s), sophieGermain);
    if s > base {
      AboveTwo(n, sophieGermain, s - 1);
      OddPrime(ChainNumber(n, sophieGermain, s - 1));
      ChainResidue(n, sophieGermain, s - 1);
    }
  }

  lemma AboveTwo(n: nat, sophieGermain: bool, s: nat)
    requires n > 2
    ensures ChainNumber(n, sophieGermain, s) > 2
  {
    MulMono(2, n - 1, Pow2(s));
  }

  /** A position of a bi-twin chain that is prime, as the one two before it, passes. */
  lemma TwinPrimePasses(origin: nat, start: nat, p: nat)
    requires origin > 3 && start % 2 == 0 && start <= p && TwinNumber(origin, p) > 0 && Prime(TwinNumber(origin, p))
    requires p >= start + 2 ==> TwinNumber(origin, p - 2) > 0 && Prime(TwinNumber(origin, p - 2))
    ensures TwinPasses(origin, start, p)
  {
    hide Prime, FermatPasses, LifchitzPasses, TwinNumber, KnownResidue, EulerPower;
    TwinAboveTwo(origin, p);
    PrimePasses(TwinNumber(origin, p), p % 2 == 0);
    if p >= start + 2 {
      var h := (p - 2) / 2;
      assert p - 2 == 2 * h || p - 2 == 2 * h + 1;
      TwinAboveTwo(origin, p - 2);
      OddPrime(TwinNumber(origin, p - 2));
      NextTwins(origin, h);
      TwinResidue(origin, h);
    }
  }

  lemma TwinAboveTwo(origin: nat, p: nat)
    requires origin > 3
    ensures TwinNumber(origin, p) > 2
  {
    MulMono(4, origin, Pow2(p / 2));
  }

  /** The position from which the walk of a candidate type starts. */
  function WalkStart(candidateType: nat, base: nat): nat { if candidateType == 2 then base - base % 2 else base }

  /** If the numbers of the chain up to position n are primes, the length found is at least n, and a
      target of at most n is reached. */
  lemma PrimesAreCounted(origin: nat, candidateType: nat, base: nat, stop: nat, n: nat, nBits: nat)
    requires origin > 3 && candidateType <= 2 && ChainStops(origin, candidateType, base, stop) && stop < 256
    requires PrimesUpTo(origin, candidateType, WalkStart(candidateType, base), n) && WalkStart(candidateType, base) <= n
    requires nBits <= Fixed(n, 0)
    ensures stop >= n && TargetGetLength(ChainLength(origin, candidateType, base, stop)) >= n
    ensures ChainLength(origin, candidateType, base, stop) >= nBits
  {
    hide Prime, Passes, TwinPasses, TargetGetLength, FractionalLength, ChainNumber, TwinNumber;
    if stop < n { NoStopOnPrimes(origin, candidateType, base, stop, n); }
    if candidateType == 2 {
      TwinLengthIsFixed(origin, base / 2, stop);
    } else {
      WalkIsFixed(if candidateType == 0 then origin - 1 else origin + 1, candidateType == 0, base, stop);
    }
  }

  lemma NoStopOnPrimes(origin: nat, candidateType: nat, base: nat, stop: nat, n: nat)
    requires origin > 3 && candidateType <= 2 && ChainStops(origin, candidateType, base, stop)
    requires PrimesUpTo(origin, candidateType, WalkStart(candidateType, base), n)
    ensures stop >= n
  {
    hide Prime, Passes, TwinPasses, FirstFailure, FirstTwinFailure;
    if stop < n {
      StopFails(origin, candidateType, base, stop);
      var start := WalkStart(candidateType, base);
      assert Prime(Member(origin, candidateType, stop));
      if candidateType == 2 {
        assert stop >= start + 2 ==> Prime(Member(origin, 2, stop - 2));
        MembersAre(origin, stop);
        if stop >= start + 2 { MembersAre(origin, stop - 2); }
        TwinPrimePasses(origin, start, stop);
      } else {
        assert stop > start ==> Prime(Member(origin, candidateType, stop - 1));
        MembersAre(origin, stop);
        if stop > start { MembersAre(origin, stop - 1); }
        CunninghamPasses(if candidateType == 0 then origin - 1 else origin + 1, candidateType == 0, base, stop);
      }
    }
  }

  lemma MembersAre(origin: nat, s: nat)
    requires origin > 3
    ensures Member(origin, 0, s) == ChainNumber(origin - 1, true, s) && Member(origin, 1, s) == ChainNumber(origin + 1, false, s)
    ensures Member(origin, 2, s) == TwinNumber(origin, s)
  {}

  lemma StopFails(origin: nat, candidateType: nat, base: nat, stop: nat)
    requires origin > 3 && candidateType <= 2 && ChainStops(origin, candidateType, base, stop)
    ensures WalkStart(candidateType, base) <= stop
    ensures candidateType == 0 ==> !Passes(origin - 1, true, base, stop)
    ensures candidateType == 1 ==> !Passes(origin + 1, false, base, stop)
    ensures candidateType == 2 ==> !TwinPasses(origin, base - base % 2, stop)
  {
    hide Passes, TwinPasses, ChainNumber, TwinNumber;
  }
}
