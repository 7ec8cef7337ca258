/** For all admissible N and K, a hash function for which OptimisedSolve misses a valid solution. */
module MissedExample {
  import opened Bits
  import opened Words
  import opened BitPacking
  import opened StepRows
  import opened CollisionRounds
  import opened EquihashTree
  import opened Wrappers
  import opened BasicSolver
  import opened TruncatedTables
  import opened Rebuild
  import opened OptimisedSolver
  import opened OptimisedTheorems
  import opened LeafValues
  import opened TruncatedLists
  import InvalidExample

  // ---------- a valid solution that is missed ----------

  /** The hash function with zeros only. */
  function AllZero(N: nat, K: nat): (p: Equihash)
    requires Sizes(N, K)
    ensures p.Valid() && p.N == N && p.K == K && Stride(p) >= 2
  {
    var leaf := (i: nat) => Zeros(K + 1);
    assert Pow2(N / (K + 1) + 1 - 8) >= 2;
    LeavesValid(N, K, leaf);
    WithLeaves(N, K, leaf)
  }

  lemma {:induction false} SpellZeros(v: seq<byte>, w: nat)
    requires w > 0 && forall k :: 0 <= k < |v| ==> v[k] == 0
    ensures forall k :: 0 <= k < |Spell(v, w)| ==> Spell(v, w)[k] == 0
  {
    if v != [] { SpellZeros(v[1..], w); }
  }

  lemma ZeroLeaf(N: nat, K: nat, i: nat)
    requires Sizes(N, K)
    ensures IsZero(AllZero(N, K).LeafRow(i))
  {
    hide Equihash.Valid, Equihash.LeafRow, Spell, Cells;
    var leaf := (i: nat) => Zeros(K + 1);
    assert AllZero(N, K) == WithLeaves(N, K, leaf) && Fitting(leaf, K + 1, N / (K + 1));
    LeafHash(N, K, leaf, i);
    CellsSpell(Zeros(K + 1), N / (K + 1));
    SpellZeros(Zeros(K + 1), ElementBytes(N / (K + 1)));
  }

  lemma ZeroMerge(a: Row, b: Row, len: nat)
    requires Alike(a, b) && len <= |a.hash| && IsZero(a) && IsZero(b)
    ensures HasCollision(a, b, len) && IsZero(Merge(a, b, len))
  {
    hide XorByte;
    XorValues();
    var m := Merge(a, b, len).hash;
    forall k | 0 <= k < |m| ensures m[k] == 0 { assert m[k] == XorByte(a.hash[k + len], b.hash[k + len]); }
  }

  lemma {:induction false} ZeroTruncated(N: nat, K: nat, ix: seq<nat>, r: nat)
    requires Sizes(N, K) && r <= K && |ix| == Pow2(r)
    ensures IsZero(TruncatedTree(AllZero(N, K), ix, r))
    decreases r
  {
    var p := AllZero(N, K);
    if r == 0 {
      hide AllZero, Equihash.Valid, Equihash.LeafRow, Truncate;
      ZeroLeaf(N, K, ix[0]);
    } else {
      hide AllZero, Equihash.Valid, TruncatedTree, Merge, IsZero, Pow2;
      Doubling(r);
      ZeroTruncated(N, K, ix[..Pow2(r - 1)], r - 1);
      ZeroTruncated(N, K, ix[Pow2(r - 1)..], r - 1);
      TruncatedNode(p, ix, r);
      ZeroMerge(TruncatedTree(p, ix[..Pow2(r - 1)], r - 1), TruncatedTree(p, ix[Pow2(r - 1)..], r - 1), p.CollisionByteLength());
    }
  }

  /** At every node the first index of the left half is less than that of the right half. */
  predicate Ordered(ix: seq<nat>, r: nat)
    requires |ix| == Pow2(r)
  {
    r == 0 || (ix[0] < ix[Pow2(r - 1)] && Ordered(ix[..Pow2(r - 1)], r - 1) && Ordered(ix[Pow2(r - 1)..], r - 1))
  }

  predicate NoRepeats(ix: seq<nat>) { forall i, j :: 0 <= i < j < |ix| ==> ix[i] != ix[j] }

  /** Over zeros every ordered list of different indices is a tree. */
  lemma {:induction false} ZeroTree(N: nat, K: nat, ix: seq<nat>, r: nat)
    requires Sizes(N, K) && r <= K && |ix| == Pow2(r) && Ordered(ix, r) && NoRepeats(ix)
    ensures AllZero(N, K).TreeRow(ix, r).Some? && IsZero(AllZero(N, K).TreeRow(ix, r).value)
    decreases r
  {
    var p := AllZero(N, K);
    if r == 0 {
      hide AllZero, Equihash.Valid, Equihash.LeafRow;
      ZeroLeaf(N, K, ix[0]);
    } else {
      hide AllZero, Equihash.Valid, Equihash.TreeRow, Ordered, IsZero, Pow2;
      OrderedHalves(ix, r);
      ZeroTree(N, K, ix[..Pow2(r - 1)], r - 1);
      ZeroTree(N, K, ix[Pow2(r - 1)..], r - 1);
      ZeroNode(p, ix, r);
    }
  }

  lemma OrderedHalves(ix: seq<nat>, r: nat)
    requires r > 0 && |ix| == Pow2(r) && Ordered(ix, r) && NoRepeats(ix)
    ensures var L, R := ix[..Pow2(r - 1)], ix[Pow2(r - 1)..];
            |L| == |R| == Pow2(r - 1) && L[0] < R[0] && Ordered(L, r - 1) && Ordered(R, r - 1) && NoRepeats(L) && NoRepeats(R)
            && forall i, j :: 0 <= i < |L| && 0 <= j < |R| ==> L[i] != R[j]
  {}

  lemma ZeroNode(p: Equihash, ix: seq<nat>, r: nat)
    requires p.Valid() && 0 < r <= p.K && |ix| == Pow2(r) && ix[0] < ix[Pow2(r - 1)]
    requires forall i, j :: 0 <= i < Pow2(r - 1) <= j < |ix| ==> ix[i] != ix[j]
    requires p.TreeRow(ix[..Pow2(r - 1)], r - 1).Some? && IsZero(p.TreeRow(ix[..Pow2(r - 1)], r - 1).value)
    requires p.TreeRow(ix[Pow2(r - 1)..], r - 1).Some? && IsZero(p.TreeRow(ix[Pow2(r - 1)..], r - 1).value)
    ensures p.TreeRow(ix, r).Some? && IsZero(p.TreeRow(ix, r).value)
  {
    hide Equihash.Valid, Equihash.TreeRow, Merge, IsZero, Pow2, Before;
    Doubling(r);
    var L, R := ix[..Pow2(r - 1)], ix[Pow2(r - 1)..];
    var a, b := p.TreeRow(L, r - 1).value, p.TreeRow(R, r - 1).value;
    ZeroMerge(a, b, p.CollisionByteLength());
    BeforeFirst(R, L);
    HalvesMakeTree(p, ix, r, a, b);
  }

  /** Over zeros every ordered list of different indices in range is a valid solution. */
  lemma ZeroValid(N: nat, K: nat, ix: seq<nat>)
    requires Sizes(N, K) && |ix| == Pow2(K) && Ordered(ix, K) && NoRepeats(ix) && AllZero(N, K).InRange(ix)
    ensures var p, soln := AllZero(N, K), Packed(ix, N / (K + 1) + 1); p.ValidSolution(soln) && p.IndicesOf(soln) == ix
  {
    hide AllZero, Equihash.Valid, Equihash.TreeRow, Packed, Elements, IsZero;
    ZeroTree(N, K, ix, K);
    PackedIsValid(AllZero(N, K), ix);
  }

  // ---------- parts of a list that is found ----------

  lemma {:induction false} StartAdd(a: nat, b: nat, s: nat)
    ensures Start(a + b, s) == Start(a, s) + Start(b, s)
    decreases s
  {
    if s > 0 {
      StartAdd(2 * a, 2 * b, s - 1);
      assert 2 * (a + b) == 2 * a + 2 * b;
    }
  }

  /** A surviving tree of height s has this truncated list. */
  predicate SurvivesAs(p: Equihash, part: seq<nat>, s: nat, list: seq<nat>)
    requires p.Valid() && s <= p.K
  {
    |part| == Pow2(s) && Survives(p, part, s) && TruncatedTree(p, part, s).indices == list
  }

  /** Every block of the list of a surviving tree is the list of a surviving tree. */
  lemma {:induction false} PartSurvives(p: Equihash, ix: seq<nat>, r: nat, whole: seq<nat>, q: nat, s: nat) returns (part: seq<nat>)
    requires p.Valid() && s <= r <= p.K && |whole| == Pow2(r) && SurvivesAs(p, ix, r, whole) && q < Pow2(r - s)
    ensures Start(q, s) + Pow2(s) <= Pow2(r) && SurvivesAs(p, part, s, whole[Start(q, s)..Start(q, s) + Pow2(s)])
    decreases r
  {
    hide Equihash.Valid, SurvivesAs, Start, Pow2;
    if r == s {
      SinglePower();
      StartZero(s);
      part := ix;
      assert whole[0..Pow2(s)] == whole;
    } else {
      var n, h := Pow2(r - 1 - s), Pow2(r - 1);
      Doubling(r);
      Doubling(r - s);
      StartTop(r - 1 - s, s);
      var front, back := FrontAndBack(p, ix, r, whole);
      if q < n {
        part := PartSurvives(p, front, r - 1, whole[0..h], q, s);
        SliceOfPart(whole, 0, h, Start(q, s), Pow2(s));
      } else {
        part := PartSurvives(p, back, r - 1, whole[h..h + h], q - n, s);
        StartAdd(q - n, n, s);
        SliceOfPart(whole, h, h + h, Start(q - n, s), Pow2(s));
      }
    }
  }

  /** The half whose truncated list comes first, and the other. */
  lemma FrontAndBack(p: Equihash, ix: seq<nat>, r: nat, whole: seq<nat>) returns (front: seq<nat>, back: seq<nat>)
    requires p.Valid() && 0 < r <= p.K && |whole| == Pow2(r - 1) + Pow2(r - 1) && SurvivesAs(p, ix, r, whole)
    ensures var h := Pow2(r - 1); SurvivesAs(p, front, r - 1, whole[0..h]) && SurvivesAs(p, back, r - 1, whole[h..h + h])
  {
    hide Equihash.Valid, TruncatedTree, Survives, Before, Pow2, HalfRows, Dropped;
    var a, b := SurvivorHalves(p, ix, r);
    var x, y := TruncatedHalves(p, ix, r);
    front, back := ix[..Pow2(r - 1)], ix[Pow2(r - 1)..];
    if !Before(x, y) { front, back := back, front; }
  }

  lemma SliceOfPart(s: seq<nat>, lo: nat, hi: nat, i: nat, n: nat)
    requires lo <= hi <= |s| && lo + i + n <= hi
    ensures s[lo..hi][i..i + n] == s[lo + i..lo + i + n]
  {
    var a, b := s[lo..hi][i..i + n], s[lo + i..lo + i + n];
    forall k | 0 <= k < n ensures a[k] == b[k] { assert s[lo..hi][i + k] == s[lo + (i + k)]; }
  }

  /** Over zeros no block of such a list is all paired up. */
  lemma ZeroPart(N: nat, K: nat, ix: seq<nat>, q: nat, s: nat)
    requires Sizes(N, K) && Found(AllZero(N, K), ix) && 0 < s <= K && q < Pow2(K - s)
    ensures Start(q, s) + Pow2(s) <= Pow2(K)
    ensures !AllPaired(TruncatedTree(AllZero(N, K), ix, K).indices[Start(q, s)..Start(q, s) + Pow2(s)])
  {
    hide AllZero, Equihash.Valid, TruncatedTree, Pow2, Start, AllPaired, IsZero;
    var p := AllZero(N, K);
    var part := PartSurvives(p, ix, K, TruncatedTree(p, ix, K).indices, q, s);
    ZeroTruncated(N, K, part, s);
    SurvivorKept(p, part, s);
  }

  lemma SurvivorKept(p: Equihash, ix: seq<nat>, r: nat)
    requires p.Valid() && 0 < r <= p.K && |ix| == Pow2(r) && Survives(p, ix, r)
    ensures !Dropped(TruncatedTree(p, ix, r))
  {
    hide Equihash.Valid, TruncatedTree, Dropped, HasCollision, HalfRows;
  }

  /** The first two leaves of a tree that is built are built as a pair. */
  lemma {:induction false} FirstPair(p: Equihash, partial: seq<nat>, q: nat, r: nat, ix: seq<nat>) returns (q': nat)
    requires p.Valid() && IsPartial(p, partial) && 0 < r <= p.K && q < Pow2(p.K - r) && Buildable(p, partial, q, r, ix)
    ensures |ix| >= 2 && q' < Pow2(p.K - 1) && Buildable(p, partial, q', 1, ix[..2])
    decreases r
  {
    hide Equihash.Valid, Buildable, IsPartial, Branching, Pow2;
    BuildablePasses(p, partial, q, r, ix);
    SinglePower();
    Doubling(1);
    if r == 1 {
      q' := q;
      assert ix[..2] == ix;
    } else {
      var side := FrontBuilt(p, partial, q, r, ix);
      q' := FirstPair(p, partial, side, r - 1, ix[..Pow2(r - 1)]);
      assert ix[..Pow2(r - 1)][..2] == ix[..2];
    }
  }

  lemma FrontBuilt(p: Equihash, partial: seq<nat>, q: nat, r: nat, ix: seq<nat>) returns (side: nat)
    requires p.Valid() && IsPartial(p, partial) && 0 < r <= p.K && q < Pow2(p.K - r) && Buildable(p, partial, q, r, ix)
    ensures Pow2(r - 1) <= |ix| && side < Pow2(p.K - (r - 1)) && Buildable(p, partial, side, r - 1, ix[..Pow2(r - 1)])
  {
    hide Equihash.Valid, Equihash.TreeRow, Buildable, IsPartial, Branching, Filled, Pow2;
    Doubling(p.K - r + 1);
    Doubling(r);
    BuiltFromHalves(p, partial, q, r - 1, ix);
    side := if Buildable(p, partial, 2 * q, r - 1, ix[..Pow2(r - 1)]) then 2 * q else 2 * q + 1;
  }

  lemma BuiltPair(p: Equihash, partial: seq<nat>, q: nat, ix: seq<nat>)
    requires p.Valid() && IsPartial(p, partial) && q < Pow2(p.K - 1) && Buildable(p, partial, q, 1, ix)
    ensures |ix| == 2 && Start(q, 1) == 2 * q && 2 * q + 1 < |partial|
    ensures Truncate(p, ix[0]) == Truncate(p, ix[1]) ==> partial[2 * q] == partial[2 * q + 1]
  {
    hide Equihash.Valid, Equihash.TreeRow, Buildable, Truncate, Filled, InEither;
    KAtLeast3(p);
    assert Pow2(1) == 2 && Pow2(0) == 1;
    Doubling(p.K);
    hide Pow2;
    BuildablePasses(p, partial, q, 1, ix);
    BuiltFromHalves(p, partial, q, 0, ix);
  }

  function Upto(n: nat): (ix: seq<nat>)
    ensures |ix| == n
  {
    seq<nat>(n, i => i)
  }

  lemma {:induction false} IncreasingOrdered(ix: seq<nat>, r: nat)
    requires |ix| == Pow2(r) && forall i, j :: 0 <= i < j < |ix| ==> ix[i] < ix[j]
    ensures Ordered(ix, r) && NoRepeats(ix)
  {
    if r > 0 {
      IncreasingOrdered(ix[..Pow2(r - 1)], r - 1);
      IncreasingOrdered(ix[Pow2(r - 1)..], r - 1);
    }
  }

  /** For all N and K with enough indices for a solution there is a hash function and a valid
      solution that OptimisedSolve does not hand out: the first 2^K indices, when all hashes are
      zero. Indices 0 and 1 truncate to one value, and such a pair is filtered out. */
  lemma ValidSolutionMissed(N: nat, K: nat)
    requires Sizes(N, K) && K <= N / (K + 1) + 1
    ensures var p, soln := AllZero(N, K), Packed(Upto(Pow2(K)), N / (K + 1) + 1);
            p.ValidSolution(soln) && soln !in Reached(p)
  {
    hide AllZero, Equihash.Valid, Packed, Found, Buildable, TruncatedTree, Reached, Equihash.TreeRow, Ordered, Truncate, IsPartial;
    var p, ix := AllZero(N, K), Upto(Pow2(K));
    Pow2Mono(K, N / (K + 1) + 1);
    IncreasingOrdered(ix, K);
    ZeroValid(N, K, ix);
    ZeroStart(N, K);
    TruncateBelow(p, 0);
    TruncateBelow(p, 1);
    var soln := Packed(ix, N / (K + 1) + 1);
    ReachedExactly(p, soln);
    if soln in Reached(p) {
      var found :| RebuiltVia(p, found, ix);
      PairDiffers(N, K, found, ix);
    }
  }

  /** Over zeros the first two leaves of a tree that is rebuilt truncate differently. */
  lemma PairDiffers(N: nat, K: nat, found: seq<nat>, ix: seq<nat>)
    requires Sizes(N, K) && RebuiltVia(AllZero(N, K), found, ix)
    ensures |ix| >= 2 && Truncate(AllZero(N, K), ix[0]) != Truncate(AllZero(N, K), ix[1])
  {
    hide AllZero, Equihash.Valid, Survives, IsZero, Buildable, TruncatedTree, Truncate, AllPaired, IsPartial, Pow2;
    var p := AllZero(N, K);
    var partial := TruncatedTree(p, found, K).indices;
    ZeroStart(N, K);
    var q := FirstPair(p, partial, 0, K, ix);
    BuiltPair(p, partial, q, ix[..2]);
    ZeroPart(N, K, found, q, 1);
    Doubling(1);
    SinglePower();
    PairedTwice(partial[2 * q]);
    assert partial[2 * q..2 * q + 2] == [partial[2 * q], partial[2 * q + 1]];
  }

  lemma ZeroStart(N: nat, K: nat)
    requires Sizes(N, K)
    ensures Stride(AllZero(N, K)) >= 2 && AllZero(N, K).InitSize() > 2 && AllZero(N, K).K == K && Pow2(K - K) > 0
  {
    Pow2Mono(2, N / (K + 1) + 1);
  }

  lemma PairedTwice(x: nat)
    ensures AllPaired([x, x])
  {
    assert multiset([x, x]) == multiset{x, x};
  }

  predicate Instantiated(N: nat, K: nat)
  {
    (N == 96 && K == 3) || (N == 200 && K == 9) || (N == 96 && K == 5) || (N == 48 && K == 5)
  }

  lemma InstantiatedSizes(N: nat, K: nat)
    requires Instantiated(N, K)
    ensures Sizes(N, K) && K <= N / (K + 1)
  {
    assert 96 / (3 + 1) == 24 && 200 / (9 + 1) == 20 && 96 / (5 + 1) == 16 && 48 / (5 + 1) == 8;
  }

  ghost predicate HandsOutRejected(p: Equihash, soln: seq<byte>)
    requires p.Valid()
  {
    soln in Reached(p) && !p.ValidSolution(soln)
  }

  ghost predicate MissesAccepted(p: Equihash, soln: seq<byte>)
    requires p.Valid()
  {
    soln !in Reached(p) && p.ValidSolution(soln)
  }

  /** For each pair that the program instantiates there are hash functions for which OptimisedSolve
      hands out a byte string that is rejected, and for which it misses one that is accepted. */
  lemma ProgramInstances(N: nat, K: nat)
    requires Instantiated(N, K)
    ensures exists p: Equihash, soln :: p.N == N && p.K == K && p.Valid() && HandsOutRejected(p, soln)
    ensures exists p: Equihash, soln :: p.N == N && p.K == K && p.Valid() && MissesAccepted(p, soln)
  {
    hide *;
    InstantiatedSizes(N, K);
    Rejected(N, K);
    Missed(N, K);
  }

  lemma Rejected(N: nat, K: nat)
    requires Sizes(N, K) && K <= N / (K + 1)
    ensures exists p: Equihash, soln :: p.N == N && p.K == K && p.Valid() && HandsOutRejected(p, soln)
  {
    hide InvalidExample.Marked, Equihash.Valid, Equihash.ValidSolution, Reached, Packed;
    InvalidExample.InvalidSolutionReached(N, K);
    var p, soln := InvalidExample.Marked(N, K, 1), Packed(InvalidExample.Line(N, K, 1), N / (K + 1) + 1);
    assert p.N == N && p.K == K && p.Valid() && HandsOutRejected(p, soln);
  }

  lemma Missed(N: nat, K: nat)
    requires Sizes(N, K) && K <= N / (K + 1)
    ensures exists p: Equihash, soln :: p.N == N && p.K == K && p.Valid() && MissesAccepted(p, soln)
  {
    hide AllZero, Equihash.Valid, Equihash.ValidSolution, Reached, Packed;
    ValidSolutionMissed(N, K);
    var p, soln := AllZero(N, K), Packed(Upto(Pow2(K)), N / (K + 1) + 1);
    assert p.N == N && p.K == K && p.Valid() && MissesAccepted(p, soln);
  }
}
