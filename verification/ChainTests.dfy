/** The chain walks of prime.cpp: the length they return counts the consecutive numbers of the
    chain that pass, from the given position on. */
module ChainTests {
  import opened Bits
  import opened PrimalityTests

  /** The number at position s of the Cunningham chain that starts at n. */
  function ChainNumber(n: nat, sophieGermain: bool, s: nat): nat
    requires n > 0
  {
    if sophieGermain then (n + 1) * Pow2(s) - 1 else (n - 1) * Pow2(s) + 1
  }

  /** The test the walk applies at position s: Fermat where it starts, Lifchitz afterwards. */
  predicate Passes(n: nat, sophieGermain: bool, base: nat, s: nat)
    requires n > 0
  {
    var m := ChainNumber(n, sophieGermain, s);
    m > 0 && if s == base then FermatPasses(m) else LifchitzPasses(m, sophieGermain)
  }

  /** Positions base up to stop pass and stop does not. */
  predicate FirstFailure(n: nat, sophieGermain: bool, base: nat, stop: nat)
    requires n > 0
  {
    base <= stop && !Passes(n, sophieGermain, base, stop) && forall s :: base <= s < stop ==> Passes(n, sophieGermain, base, s)
  }

  /** The next number of a chain is one doubling away. */
  lemma NextInChain(n: nat, sophieGermain: bool, s: nat)
    requires n > 0
    ensures ChainNumber(n, sophieGermain, s + 1)
         == 2 * ChainNumber(n, sophieGermain, s) + (if sophieGermain then 1 else -1)
  {
    var a := if sophieGermain then n + 1 else n - 1;
    assert a * (2 * Pow2(s)) == 2 * (a * Pow2(s));
  }

  /** Numbers past the start of an odd chain have a residue mod 8 that the second test knows. */
  lemma ChainResidue(n: nat, sophieGermain: bool, s: nat)
    requires n > 0 && ChainNumber(n, sophieGermain, s) % 2 == 1
    ensures ChainNumber(n, sophieGermain, s + 1) % 2 == 1
    ensures KnownResidue(ChainNumber(n, sophieGermain, s + 1), sophieGermain)
  {
    NextInChain(n, sophieGermain, s);
    hide ChainNumber;
    OddDouble(ChainNumber(n, sophieGermain, s));
  }

  /** Twice an odd number, plus or minus one, modulo 8. */
  lemma OddDouble(m: nat)
    requires m % 2 == 1
    ensures (2 * m + 1) % 2 == 1 && KnownResidue(2 * m + 1, true)
    ensures (2 * m - 1) % 2 == 1 && KnownResidue(2 * m - 1, false)
  {
    var k := m / 4;
    assert m == 4 * k + 1 || m == 4 * k + 3;
  }

  lemma ChainGrows(n: nat, sophieGermain: bool, s: nat)
    requires n > 2
    ensures ChainNumber(n, sophieGermain, s) > 1
  {
    MulMono(2, n - 1, Pow2(s));
  }

  /** What the walk leaves in the length: the position of the first failure, and the fraction of
      the number there unless it failed fast. */
  function WalkLength(n: nat, sophieGermain: bool, base: nat, stop: nat): nat
    requires n > 2
  {
    ChainGrows(n, sophieGermain, stop);
    Fixed(stop, if stop == base || stop < 4 then 0 else FractionalLength(ChainNumber(n, sophieGermain, stop)))
  }

  lemma ShiftOrigin(n: nat, sophieGermain: bool, base: nat)
    requires n > 0
    ensures ChainNumber(n, sophieGermain, base)
         == n * Pow2(base) + (if sophieGermain then Pow2(base) - 1 else -(Pow2(base) - 1))
  {}

  /** ProbableCunninghamChainTestFast: stop is the first failing position, whose existence makes the
      walk end. The integer part of the result is that position: base plus the number of passes. */
  method ProbableCunninghamChainTestFast(n: nat, fSophieGermain: bool, t: CPrimalityTestParams, base: nat, ghost stop: nat)
    returns (nProbableChainLength: nat)
    requires n > 2 && base < 31 && ChainNumber(n, fSophieGermain, base) % 2 == 1
    requires FirstFailure(n, fSophieGermain, base, stop) && stop < 256
    modifies t
    ensures nProbableChainLength == WalkLength(n, fSophieGermain, base, stop)
    ensures TargetGetLength(nProbableChainLength) == stop
    ensures t.nBits == old(t.nBits) && t.nCandidateType == old(t.nCandidateType)
  {
    hide FermatPasses, LifchitzPasses, FractionalLength, ChainNumber, TargetGetLength;
    nProbableChainLength := base * ONE;
    assert nProbableChainLength == Fixed(base, 0);
    t.mpzN := n;
    if base > 0 {
      var X := Pow2(base) - 1;
      t.mpzN := t.mpzN * Pow2(base);
      t.mpzN := t.mpzN + (if fSophieGermain then X else -X);
    }
    ShiftOrigin(n, fSophieGermain, base);
    ChainGrows(n, fSophieGermain, base);
    WalkIsFixed(n, fSophieGermain, base, stop);
    var pass;
    pass, nProbableChainLength := t.FermatProbablePrimalityTestFast(t.mpzN, nProbableChainLength, base, 0, true);
    if !pass {
      assert !Passes(n, fSophieGermain, base, base);
      return;
    }
    assert Passes(n, fSophieGermain, base, base);
    var nChainSeq := base + 1;
    while true
      invariant base < nChainSeq <= stop
      invariant t.mpzN == ChainNumber(n, fSophieGermain, nChainSeq - 1) && t.mpzN % 2 == 1
      invariant nProbableChainLength == Fixed(nChainSeq - 1, 0)
      invariant t.nBits == old(t.nBits) && t.nCandidateType == old(t.nCandidateType)
      decreases stop - nChainSeq
    {
      hide Fixed, FirstFailure, TargetIncrementLength;
      FixedIncrement(nChainSeq - 1, 0);
      nProbableChainLength := TargetIncrementLength(nProbableChainLength);
      NextInChain(n, fSophieGermain, nChainSeq - 1);
      ChainResidue(n, fSophieGermain, nChainSeq - 1);
      ChainGrows(n, fSophieGermain, nChainSeq);
      t.mpzN := t.mpzN * 2;
      t.mpzN := t.mpzN + (if fSophieGermain then 1 else -1);
      var fFastFail := nChainSeq < 4;
      pass, nProbableChainLength :=
        t.EulerLagrangeLifchitzPrimalityTestFast(t.mpzN, fSophieGermain, nProbableChainLength, nChainSeq, 0, fFastFail);
      assert pass == Passes(n, fSophieGermain, base, nChainSeq);
      StopIs(n, fSophieGermain, base, stop, nChainSeq);
      if !pass { break; }
      nChainSeq := nChainSeq + 1;
    }
  }

  /** A passing position is before the first failure, and a failing one not before it is that failure. */
  lemma StopIs(n: nat, sophieGermain: bool, base: nat, stop: nat, s: nat)
    requires n > 0 && base <= s <= stop && FirstFailure(n, sophieGermain, base, stop)
    ensures Passes(n, sophieGermain, base, s) <==> s < stop
  {
    hide Passes;
  }

  lemma WalkIsFixed(n: nat, sophieGermain: bool, base: nat, stop: nat)
    requires n > 2 && stop < 256 && ChainNumber(n, sophieGermain, base) % 2 == 1 && base <= stop
    ensures TargetGetLength(WalkLength(n, sophieGermain, base, stop)) == stop
  {
    hide FractionalLength, TargetGetLength;
    StaysOdd(n, sophieGermain, base, stop);
    ChainGrows(n, sophieGermain, stop);
    FractionBelowOne(ChainNumber(n, sophieGermain, stop));
    FixedParts(stop, if stop == base || stop < 4 then 0 else FractionalLength(ChainNumber(n, sophieGermain, stop)));
  }

  lemma {:induction false} StaysOdd(n: nat, sophieGermain: bool, base: nat, s: nat)
    requires n > 0 && base <= s && ChainNumber(n, sophieGermain, base) % 2 == 1
    ensures ChainNumber(n, sophieGermain, s) % 2 == 1
  {
    if base < s {
      StaysOdd(n, sophieGermain, base, s - 1);
      ChainResidue(n, sophieGermain, s - 1);
    }
  }

  // ---------- bi-twin chains ----------

  /** Position p of a bi-twin walk: origin * 2^h - 1 at p = 2h, origin * 2^h + 1 at p = 2h + 1. */
  function TwinNumber(origin: nat, p: nat): int
  {
    origin * Pow2(p / 2) + (if p % 2 == 0 then -1 else 1)
  }

  predicate TwinPasses(origin: nat, start: nat, p: nat)
  {
    var m := TwinNumber(origin, p);
    m > 0 && if p < start + 2 then FermatPasses(m) else LifchitzPasses(m, p % 2 == 0)
  }

  predicate FirstTwinFailure(origin: nat, start: nat, stop: nat)
  {
    start <= stop && !TwinPasses(origin, start, stop) && forall p :: start <= p < stop ==> TwinPasses(origin, start, p)
  }

  /** The walk's result, with h the first half-position: the source counts fast failures from h. */
  function TwinLength(origin: nat, h: nat, stop: nat): nat
    requires origin > 2
  {
    TwinGrows(origin, stop);
    Fixed(stop, if stop < 2 * h + 2 || stop - stop % 2 - h < 4 then 0 else FractionalLength(TwinNumber(origin, stop)))
  }

  lemma TwinGrows(origin: nat, p: nat)
    requires origin > 2
    ensures TwinNumber(origin, p) > 1
  {
    MulMono(3, origin, Pow2(p / 2));
  }

  lemma TwinsAt(origin: nat, h: nat)
    ensures TwinNumber(origin, 2 * h) == origin * Pow2(h) - 1
    ensures TwinNumber(origin, 2 * h + 1) == origin * Pow2(h) + 1
  {
    hide Pow2;
    assert (2 * h) / 2 == (2 * h + 1) / 2 == h;
  }

  /** Both numbers of a pair double, plus or minus one, to those of the next. */
  lemma NextTwins(origin: nat, h: nat)
    ensures TwinNumber(origin, 2 * h + 1) == TwinNumber(origin, 2 * h) + 2
    ensures TwinNumber(origin, 2 * h + 2) == 2 * TwinNumber(origin, 2 * h) + 1
    ensures TwinNumber(origin, 2 * h + 3) == 2 * TwinNumber(origin, 2 * h + 1) - 1
  {
    TwinsAt(origin, h);
    TwinsAt(origin, h + 1);
    hide TwinNumber;
    TwiceProduct(origin, Pow2(h));
  }

  /** Past an odd first number all numbers are odd, with residues mod 8 that the second test knows. */
  lemma TwinResidue(origin: nat, h: nat)
    requires origin > 2 && TwinNumber(origin, 2 * h) % 2 == 1
    ensures TwinNumber(origin, 2 * h + 1) % 2 == TwinNumber(origin, 2 * h + 2) % 2 == TwinNumber(origin, 2 * h + 3) % 2 == 1
    ensures KnownResidue(TwinNumber(origin, 2 * h + 2), true) && KnownResidue(TwinNumber(origin, 2 * h + 3), false)
  {
    NextTwins(origin, h);
    TwinGrows(origin, 2 * h);
    hide TwinNumber;
    var m := TwinNumber(origin, 2 * h);
    OddDouble(m);
    OddDouble(m + 2);
  }

  lemma {:induction false} TwinsStayOdd(origin: nat, h: nat, k: nat)
    requires origin > 2 && h <= k && TwinNumber(origin, 2 * h) % 2 == 1
    ensures TwinNumber(origin, 2 * k) % 2 == TwinNumber(origin, 2 * k + 1) % 2 == 1
  {
    hide TwinNumber;
    if h < k {
      TwinsStayOdd(origin, h, k - 1);
      TwinResidue(origin, k - 1);
    } else {
      NextTwins(origin, h);
    }
  }

  /** The integer part of the walk's result is the position of the first failure. */
  lemma TwinLengthIsFixed(origin: nat, h: nat, stop: nat)
    requires origin > 2 && stop < 256 && 2 * h <= stop && TwinNumber(origin, 2 * h) % 2 == 1
    ensures TargetGetLength(TwinLength(origin, h, stop)) == stop
  {
    hide FractionalLength, TargetGetLength, TwinNumber;
    TwinsStayOdd(origin, h, stop / 2);
    TwinGrows(origin, stop);
    assert stop == 2 * (stop / 2) || stop == 2 * (stop / 2) + 1;
    FractionBelowOne(TwinNumber(origin, stop));
    FixedParts(stop, if stop < 2 * h + 2 || stop - stop % 2 - h < 4 then 0 else FractionalLength(TwinNumber(origin, stop)));
  }

  /** ProbableBiTwinChainTestFast: stop is the first failing position, counted from base rounded
      down to even; the integer part of the result is that position. */
  method ProbableBiTwinChainTestFast(mpzOrigin: nat, t: CPrimalityTestParams, base0: nat, ghost stop: nat)
    returns (nProbableChainLength: nat)
    requires mpzOrigin > 2 && base0 / 2 < 31 && TwinNumber(mpzOrigin, base0 - base0 % 2) % 2 == 1
    requires FirstTwinFailure(mpzOrigin, base0 - base0 % 2, stop) && stop < 256
    modifies t
    ensures nProbableChainLength == TwinLength(mpzOrigin, base0 / 2, stop)
    ensures TargetGetLength(nProbableChainLength) == stop
    ensures t.nBits == old(t.nBits) && t.nCandidateType == old(t.nCandidateType)
  {
    hide FermatPasses, LifchitzPasses, FractionalLength, TwinNumber, TargetGetLength, KnownResidue, Pow2;
    nProbableChainLength := (base0 - base0 % 2) * ONE;
    var base := base0 / 2;
    ghost var start := 2 * base;
    assert start == base0 - base0 % 2;
    var X := Pow2(base) - 1;
    TwinsAt(mpzOrigin, base);
    TwinGrows(mpzOrigin, start);
    TwinGrows(mpzOrigin, start + 1);
    TwinResidue(mpzOrigin, base);
    TwinLengthIsFixed(mpzOrigin, base, stop);
    t.mpzOriginMinusOne := mpzOrigin - 1;
    Pow2Zero();
    if base > 0 {
      t.mpzOriginMinusOne := t.mpzOriginMinusOne * Pow2(base);
      t.mpzOriginMinusOne := t.mpzOriginMinusOne + X;
    }
    ShiftedOrigin(mpzOrigin, Pow2(base));
    var pass;
    pass, nProbableChainLength := t.FermatProbablePrimalityTestFast(t.mpzOriginMinusOne, nProbableChainLength, start, 0, true);
    if !pass {
      assert !TwinPasses(mpzOrigin, start, start);
      return;
    }
    assert TwinPasses(mpzOrigin, start, start);
    FixedIncrement(start, 0);
    nProbableChainLength := TargetIncrementLength(nProbableChainLength);
    t.mpzOriginPlusOne := mpzOrigin + 1;
    if base > 0 {
      t.mpzOriginPlusOne := t.mpzOriginPlusOne * Pow2(base);
      t.mpzOriginPlusOne := t.mpzOriginPlusOne - X;
    }
    pass, nProbableChainLength := t.FermatProbablePrimalityTestFast(t.mpzOriginPlusOne, nProbableChainLength, start + 1, 0, true);
    if !pass {
      assert !TwinPasses(mpzOrigin, start, start + 1);
      return;
    }
    assert TwinPasses(mpzOrigin, start, start + 1);
    FixedIncrement(start + 1, 0);
    nProbableChainLength := TargetIncrementLength(nProbableChainLength);
    nProbableChainLength := WalkTwins(mpzOrigin, t, base, nProbableChainLength, stop);
  }

  lemma Pow2Zero()
    ensures Pow2(0) == 1
  {}

  lemma ShiftedOrigin(origin: int, p: nat)
    ensures (origin - 1) * p + (p - 1) == origin * p - 1
    ensures (origin + 1) * p - (p - 1) == origin * p + 1
  {}

  /** Where the walk stops in the pair after half-position h, and with what length. */
  lemma TwinStopIs(origin: nat, base: nat, stop: nat, h: nat)
    requires origin > 2 && base <= h && 2 * h + 2 <= stop && FirstTwinFailure(origin, 2 * base, stop)
    requires TwinNumber(origin, 2 * h + 2) > 1 && TwinNumber(origin, 2 * h + 3) > 1
    ensures LifchitzPasses(TwinNumber(origin, 2 * h + 2), true) <==> 2 * h + 2 < stop
    ensures 2 * h + 3 <= stop ==> (LifchitzPasses(TwinNumber(origin, 2 * h + 3), false) <==> 2 * h + 3 < stop)
    ensures stop <= 2 * h + 3 ==>
              (var fraction := if 2 * h - base + 2 < 4 then 0 else FractionalLength(TwinNumber(origin, stop));
               TwinLength(origin, base, stop) == Fixed(stop, fraction))
  {
    hide TwinNumber, LifchitzPasses, FermatPasses, FractionalLength;
    assert (2 * h + 2) % 2 == 0 && (2 * h + 3) % 2 == 1;
    assert TwinPasses(origin, 2 * base, 2 * h + 2) == LifchitzPasses(TwinNumber(origin, 2 * h + 2), true);
    assert TwinPasses(origin, 2 * base, 2 * h + 3) == LifchitzPasses(TwinNumber(origin, 2 * h + 3), false);
    hide TwinPasses;
  }

  /** The walk's loop over the numbers after the first two. */
  method WalkTwins(mpzOrigin: nat, t: CPrimalityTestParams, base: nat, nLength0: nat, ghost stop: nat)
    returns (nProbableChainLength: nat)
    requires mpzOrigin > 2 && TwinNumber(mpzOrigin, 2 * base) % 2 == 1
    requires FirstTwinFailure(mpzOrigin, 2 * base, stop) && 2 * base + 2 <= stop < 256
    requires nLength0 == Fixed(2 * base + 2, 0)
    requires t.mpzOriginMinusOne == TwinNumber(mpzOrigin, 2 * base) && t.mpzOriginPlusOne == TwinNumber(mpzOrigin, 2 * base + 1)
    modifies t
    ensures nProbableChainLength == TwinLength(mpzOrigin, base, stop)
    ensures t.nBits == old(t.nBits) && t.nCandidateType == old(t.nCandidateType)
  {
    hide FermatPasses, LifchitzPasses, FractionalLength, TwinNumber, KnownResidue;
    nProbableChainLength := nLength0;
    var nChainSeq := base + 2;
    ghost var h := base;     // the half-position of the pair held
    while true
      invariant base <= h && nChainSeq == 2 * h - base + 2 && 2 * h + 2 <= stop
      invariant TwinNumber(mpzOrigin, 2 * h) % 2 == 1
      invariant t.mpzOriginMinusOne == TwinNumber(mpzOrigin, 2 * h) && t.mpzOriginPlusOne == TwinNumber(mpzOrigin, 2 * h + 1)
      invariant nProbableChainLength == Fixed(2 * h + 2, 0)
      invariant t.nBits == old(t.nBits) && t.nCandidateType == old(t.nCandidateType)
      decreases stop - h
    {
      hide Fixed, FirstTwinFailure, TargetIncrementLength, TwinPasses, TwinLength;
      NextTwins(mpzOrigin, h);
      TwinResidue(mpzOrigin, h);
      TwinGrows(mpzOrigin, 2 * h + 2);
      TwinGrows(mpzOrigin, 2 * h + 3);
      TwinStopIs(mpzOrigin, base, stop, h);
      t.mpzOriginMinusOne := t.mpzOriginMinusOne * 2;
      t.mpzOriginMinusOne := t.mpzOriginMinusOne + 1;
      var fFastFail := nChainSeq < 4;
      var pass;
      pass, nProbableChainLength :=
        t.EulerLagrangeLifchitzPrimalityTestFast(t.mpzOriginMinusOne, true, nProbableChainLength, 2 * h + 2, 0, fFastFail);
      if !pass {
        assert stop == 2 * h + 2;
        break;
      }
      FixedIncrement(2 * h + 2, 0);
      nProbableChainLength := TargetIncrementLength(nProbableChainLength);
      t.mpzOriginPlusOne := t.mpzOriginPlusOne * 2;
      t.mpzOriginPlusOne := t.mpzOriginPlusOne - 1;
      pass, nProbableChainLength :=
        t.EulerLagrangeLifchitzPrimalityTestFast(t.mpzOriginPlusOne, false, nProbableChainLength, 2 * h + 3, 0, fFastFail);
      if !pass {
        assert stop == 2 * h + 3;
        break;
      }
      FixedIncrement(2 * h + 3, 0);
      nProbableChainLength := TargetIncrementLength(nProbableChainLength);
      nChainSeq := nChainSeq + 2;
      h := h + 1;
    }
  }

  // ---------- the entry point ----------

  /** What the walk for this candidate type leaves in nChainLength; other types test nothing. */
  function ChainLength(origin: nat, candidateType: nat, base: nat, stop: nat): nat
    requires origin > 3
  {
    if candidateType == 0 then WalkLength(origin - 1, true, base, stop)
    else if candidateType == 1 then WalkLength(origin + 1, false, base, stop)
    else if candidateType == 2 then TwinLength(origin, base / 2, stop)
    else 0
  }

  /** The walk for this candidate type first fails at stop, and starts on an odd number. */
  predicate ChainStops(origin: nat, candidateType: nat, base: nat, stop: nat)
    requires origin > 3
  {
    if candidateType == 0 then
      ChainNumber(origin - 1, true, base) % 2 == 1 && FirstFailure(origin - 1, true, base, stop)
    else if candidateType == 1 then
      ChainNumber(origin + 1, false, base) % 2 == 1 && FirstFailure(origin + 1, false, base, stop)
    else if candidateType == 2 then
      TwinNumber(origin, base - base % 2) % 2 == 1 && FirstTwinFailure(origin, base - base % 2, stop)
    else stop == 0
  }

  method ProbablePrimeChainTestFast(mpzPrimeChainOrigin: nat, t: CPrimalityTestParams, base: nat, ghost stop: nat)
    returns (r: bool)
    requires mpzPrimeChainOrigin > 3 && base < 31
    requires ChainStops(mpzPrimeChainOrigin, t.nCandidateType, base, stop) && stop < 256
    modifies t
    ensures t.nChainLength == ChainLength(mpzPrimeChainOrigin, old(t.nCandidateType), base, stop)
    ensures TargetGetLength(t.nChainLength) == stop
    ensures r == (t.nChainLength >= old(t.nBits))
    ensures t.nBits == old(t.nBits) && t.nCandidateType == old(t.nCandidateType)
  {
    hide FirstFailure, FirstTwinFailure, WalkLength, TwinLength, ChainNumber, TwinNumber, TargetGetLength;
    t.nChainLength := 0;
    FixedParts(0, 0);
    if t.nCandidateType == 0 {
      t.mpzOriginMinusOne := mpzPrimeChainOrigin - 1;
      var length := ProbableCunninghamChainTestFast(t.mpzOriginMinusOne, true, t, base, stop);
      t.nChainLength := length;
    } else if t.nCandidateType == 1 {
      t.mpzOriginPlusOne := mpzPrimeChainOrigin + 1;
      var length := ProbableCunninghamChainTestFast(t.mpzOriginPlusOne, false, t, base, stop);
      t.nChainLength := length;
    } else if t.nCandidateType == 2 {
      var length := ProbableBiTwinChainTestFast(mpzPrimeChainOrigin, t, base, stop);
      t.nChainLength := length;
    }
    r := t.nChainLength >= t.nBits;
  }
}
