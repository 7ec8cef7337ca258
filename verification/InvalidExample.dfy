/** For N and K with room for two solutions' indices, a hash function for which OptimisedSolve hands
    out a byte string that the verifier rejects, and another over which the same trees are built. */
module InvalidExample {
  import opened Bits
  import opened Words
  import opened BitPacking
  import opened StepRows
  import opened CollisionRounds
  import opened EquihashTree
  import opened Wrappers
  import opened BasicSolver
  import opened TruncatedTables
  import opened Rebuild
  import opened OptimisedSolver
  import opened OptimisedTheorems
  import opened LeafValues
  import opened TruncatedLists
  import opened MarkedTrees

  function MarkedStride(N: nat, K: nat): nat
    requires Sizes(N, K)
  {
    Pow2(N / (K + 1) + 1 - 8)
  }

  /** Index 0 and index 1 have the first place, the indices from S on the following ones. */
  function Place(S: nat, i: nat): nat { if i < S then 0 else i - S + 1 }

  function MarkedLeaf(K: nat, S: nat, x: bit, i: nat): (v: seq<nat>)
    ensures |v| == K + 1 && forall k :: 0 <= k < |v| ==> v[k] < 2
  {
    Marks(K, Place(S, i), if i == 1 then x else 0)
  }

  /** At place q the values are the marks of q; the last value is x for index 1 and zero for the others. */
  function Marked(N: nat, K: nat, x: bit): (p: Equihash)
    requires Sizes(N, K)
    ensures p.Valid() && p.N == N && p.K == K && Stride(p) == MarkedStride(N, K) >= 2
  {
    var leaf := (i: nat) => MarkedLeaf(K, MarkedStride(N, K), x, i);
    assert Pow2(N / (K + 1)) >= 2;
    LeavesValid(N, K, leaf);
    WithLeaves(N, K, leaf)
  }

  lemma MarkedHash(N: nat, K: nat, x: bit, i: nat)
    requires Sizes(N, K)
    ensures Marked(N, K, x).LeafRow(i).hash == Cells(MarkedLeaf(K, MarkedStride(N, K), x, i), N / (K + 1), 0)
  {
    hide Equihash.Valid, Equihash.LeafRow, Cells, MarkedLeaf;
    var leaf := (i: nat) => MarkedLeaf(K, MarkedStride(N, K), x, i);
    assert Marked(N, K, x) == WithLeaves(N, K, leaf);
    LeafHash(N, K, leaf, i);
  }

  lemma MarkedStrides(N: nat, K: nat, x: bit)
    requires Sizes(N, K)
    ensures Stride(Marked(N, K, x)) == MarkedStride(N, K) >= 2
    ensures Marked(N, K, x).InitSize() == Pow2(N / (K + 1) + 1) == 256 * MarkedStride(N, K)
  {
    hide WithLeaves;
    Pow2Add(8, N / (K + 1) + 1 - 8);
    Pow2Values();
  }

  /** The indices of the places, beginning with first, which is 0 or 1. */
  function From(first: bit, S: nat): nat -> nat { j => if j == 0 then first else S + j - 1 }

  /** The whole list. */
  function Line(N: nat, K: nat, first: bit): (ix: seq<nat>)
    requires Sizes(N, K)
    ensures |ix| == Pow2(K)
  {
    Places(From(first, MarkedStride(N, K)), 0, K)
  }

  function FirstEnd(e: bit): nat -> bit { q => if q == 0 then e else 0 }

  lemma {:induction false} FirstEndIs(e: bit, q: nat, r: nat)
    ensures End(FirstEnd(e), q, r) == if q == 0 then e else 0
    decreases r
  {
    if r > 0 {
      FirstEndIs(e, 2 * q, r - 1);
      FirstEndIs(e, 2 * q + 1, r - 1);
    }
  }

  lemma FromAscends(first: bit, S: nat, k: nat)
    requires S >= 2
    ensures Ascending(From(first, S), k)
  {
    hide Pow2, Start;
    forall q: nat, r: nat | r < k && q < Pow2(k - r - 1) ensures From(first, S)(Start(2 * q, r)) < From(first, S)(Start(2 * q + 1, r)) {
      StartNext(2 * q, r);
    }
  }

  lemma FromLaid(N: nat, K: nat, x: bit, first: bit)
    requires Sizes(N, K) && K <= N / (K + 1)
    ensures Laid(Marked(N, K, x), From(first, MarkedStride(N, K)), FirstEnd(if first == 1 then x else 0))
  {
    hide Equihash.Valid, Marks, WithLeaves;
    MarkedStrides(N, K, x);
    var c, S := N / (K + 1), MarkedStride(N, K);
    var leaf := (i: nat) => MarkedLeaf(K, S, x, i);
    var order, ends := From(first, S), FirstEnd(if first == 1 then x else 0);
    assert Marked(N, K, x) == WithLeaves(N, K, leaf);
    assert Fitting(leaf, K + 1, c);
    Pow2Mono(K, c);
    Doubling(c + 1);
    hide Pow2, Marked, MarkedStride;
    forall q: nat | q < Pow2(K) ensures order(q) < WithLeaves(N, K, leaf).InitSize() && leaf(order(q)) == Marks(K, q, ends(q)) {
      assert Place(S, order(q)) == q;
    }
    LeavesLaid(N, K, leaf, order, ends);
  }

  // ---------- the theorem ----------

  /** In the list the first place alone truncates to zero. */
  lemma LineTruncations(N: nat, K: nat, x: bit, first: bit, i: nat)
    requires Sizes(N, K) && K <= N / (K + 1) && i < Pow2(K)
    ensures Marked(N, K, x).InRange(Line(N, K, first)) && (Truncate(Marked(N, K, x), Line(N, K, first)[i]) == 0 <==> i == 0)
  {
    hide Marked, Equihash.Valid, Pow2, Truncate, Laid;
    var p, S := Marked(N, K, x), MarkedStride(N, K);
    MarkedStrides(N, K, x);
    FromLaid(N, K, x, first);
    SinglePower();
    LaidInRange(p, From(first, S), FirstEnd(if first == 1 then x else 0), 0, K);
    TopPlace(From(first, S), K, i);
    TruncateBelow(p, Line(N, K, first)[i]);
  }

  /** The list passes the per-level checks, and its hash ends in x if it has index 1. */
  lemma LineTree(N: nat, K: nat, x: bit, first: bit)
    requires Sizes(N, K) && K <= N / (K + 1)
    ensures var p, ix := Marked(N, K, x), Line(N, K, first);
            Passing(p, ix, K) && (IsZero(p.TreeRow(ix, K).value) <==> first == 0 || x == 0)
  {
    hide Marked, MarkedStride, Equihash.Valid, Equihash.TreeRow, Spell, Marks, Laid, Ascending, Places, IsZero;
    var p, S := Marked(N, K, x), MarkedStride(N, K);
    var e: bit := if first == 1 then x else 0;
    MarkedStrides(N, K, x);
    FromLaid(N, K, x, first);
    FromAscends(first, S, K);
    FirstEndIs(e, 0, K);
    SinglePower();
    BlockTree(p, From(first, S), FirstEnd(e), 0, K);
    LastMark(p, p.TreeRow(Line(N, K, first), K).value, e);
  }

  /** The truncated rounds find the list that begins with index 0. */
  lemma LineFound(N: nat, K: nat, x: bit)
    requires Sizes(N, K) && K <= N / (K + 1)
    ensures Found(Marked(N, K, x), Line(N, K, 0))
  {
    hide Marked, MarkedStride, Equihash.Valid, TruncatedTree, Laid, Places, AllPaired, Found, Truncate, Pow2;
    var p, ix := Marked(N, K, x), Line(N, K, 0);
    FromLaid(N, K, x, 0);
    FirstEndIs(0, 0, K);
    forall i | 0 <= i < |ix| ensures Truncate(p, ix[i]) == 0 <==> i == 0 { LineTruncations(N, K, x, 0, i); }
    OnceNotPaired(p, ix, K, 0);
    PlacesFound(p, From(0, MarkedStride(N, K)), FirstEnd(0));
  }

  lemma SameLines(N: nat, K: nat, x: bit)
    requires Sizes(N, K) && K <= N / (K + 1)
    ensures TruncatedTree(Marked(N, K, x), Line(N, K, 0), K).indices == TruncatedTree(Marked(N, K, x), Line(N, K, 1), K).indices
  {
    hide Marked, MarkedStride, Equihash.Valid, TruncatedTree, Pow2, Truncate, Places;
    var p, ix, iy := Marked(N, K, x), Line(N, K, 0), Line(N, K, 1);
    forall i | 0 <= i < |ix| ensures Truncate(p, ix[i]) == Truncate(p, iy[i]) {
      LineTruncations(N, K, x, 0, i);
      LineTruncations(N, K, x, 1, i);
      TopPlace(From(0, MarkedStride(N, K)), K, i);
      TopPlace(From(1, MarkedStride(N, K)), K, i);
    }
    assert Truncations(p, ix) == Truncations(p, iy);
    TruncatedList(p, ix, iy, K);
  }

  /** For all N and K with room for two solutions' indices there is a hash function for which
      OptimisedSolve hands out a byte string that the verifier rejects: the rebuild does not repeat
      the check of the remaining hash. */
  lemma InvalidSolutionReached(N: nat, K: nat)
    requires Sizes(N, K) && K <= N / (K + 1)
    ensures var p, soln := Marked(N, K, 1), Packed(Line(N, K, 1), N / (K + 1) + 1);
            soln in Reached(p) && p.PassesLevels(soln) && !p.ValidSolution(soln)
  {
    hide Marked, Equihash.Valid, Equihash.TreeRow, TruncatedTree, Line, Found, Packed, Elements, Reached, IsZero;
    var p, bad := Marked(N, K, 1), Line(N, K, 1);
    LineTree(N, K, 1, 1);
    LineFound(N, K, 1);
    PackedIsValid(p, bad);
    SameLines(N, K, 1);
    SameTruncationReached(p, Packed(bad, N / (K + 1) + 1), Line(N, K, 0));
  }
}
