/** How often OptimisedSolve hands out one solution: a row that the first truncated table has several
    times is found again in as many rows of every later table. */
module RepeatedSolutions {
  import opened Bits
  import opened Words
  import opened BitPacking
  import opened StepRows
  import opened CollisionRounds
  import opened EquihashTree
  import opened Wrappers
  import opened BasicSolver
  import opened TruncatedTables
  import opened Rebuild
  import opened OptimisedSolver
  import opened OptimisedTheorems
  import opened LeafValues
  import opened TruncatedLists
  import opened MarkedTrees
  import opened InvalidExample

  /** How often the first truncated table has the row of index i. */
  ghost function Twins(p: Equihash, i: nat): nat
    requires p.Valid()
  {
    multiset(FirstTruncated(p, p.InitSize()))[TruncatedLeaf(p, i)]
  }

  // ---------- one round ----------

  lemma {:induction false} WithEachTimes(s: Round, b: Row, a: Row, t: seq<Row>, row: Row)
    requires s.Ok() && s.Fits(a) && s.Fits(b) && s.Shaped(t) && s.Collide(b, a) && s.Emit(b, a) == [row]
    ensures multiset(s.WithEach(b, t))[row] >= multiset(t)[a]
  {
    hide Round.Collide, Round.Emit;
    if t != [] {
      WithEachTimes(s, b, a, t[1..], row);
      assert t == [t[0]] + t[1..];
    }
  }

  /** A pair of different rows is found at least as often as one of them is there. */
  lemma PairTimes(s: Round, X: seq<Row>, a: Row, b: Row, row: Row)
    requires s.Ok() && s.Shaped(X) && a in X && b in X && a != b
    requires s.Fits(a) && s.Fits(b) && s.Collide(a, b) && s.Emit(a, b) == [row]
    ensures multiset(s.Pairs(X))[row] >= multiset(X)[a]
    ensures multiset(s.Pairs(X))[row] >= multiset(X)[b]
  {
    EmitSymmetric(s, a, b);
    PairTimesLeft(s, X, a, b, row);
    PairTimesLeft(s, X, b, a, row);
  }

  lemma PairTimesLeft(s: Round, X: seq<Row>, a: Row, b: Row, row: Row)
    requires s.Ok() && s.Shaped(X) && b in X && a != b
    requires s.Fits(a) && s.Fits(b) && s.Collide(b, a) && s.Emit(b, a) == [row]
    ensures multiset(s.Pairs(X))[row] >= multiset(X)[a]
  {
    hide Round.Collide, Round.Emit, Round.Pairs, Round.WithEach;
    var k :| 0 <= k < |X| && X[k] == b;
    PairsMoved(s, X, k);
    WithoutMultiset(X, k);
    WithEachTimes(s, b, a, Without(X, k), row);
  }

  // ---------- all rounds ----------

  /** The row of a surviving tree is in the table of its height at least as often as the row of any
      of its leaves is in the first table. */
  lemma {:induction false} SurvivorTimes(p: Equihash, indices: seq<nat>, r: nat, k: nat)
    requires p.Valid() && r < p.K && k < |indices| == Pow2(r) && p.InRange(indices) && Survives(p, indices, r)
    ensures multiset(TruncatedTable(p, r))[TruncatedTree(p, indices, r)] >= Twins(p, indices[k])
    decreases r, 1
  {
    hide Survives, Equihash.Valid, Equihash.LeafRow, Round.Pairs, Merge, Truncate;
    if r == 0 { ZerothTable(p); } else { SurvivorNodeTimes(p, indices, r, k); }
  }

  lemma {:induction false} SurvivorNodeTimes(p: Equihash, indices: seq<nat>, r: nat, k: nat)
    requires p.Valid() && 0 < r < p.K && k < |indices| == Pow2(r) && p.InRange(indices) && Survives(p, indices, r)
    ensures multiset(TruncatedTable(p, r))[TruncatedTree(p, indices, r)] >= Twins(p, indices[k])
    decreases r, 0
  {
    hide Survives, TruncatedTable, Merge, Round.Emit, Round.Pairs, Equihash.Valid, Equihash.HashLen, Pow2, TruncatedTree, Twins, HalfRows;
    hide HasCollision;
    Doubling(r);
    var h := Pow2(r - 1);
    var a, b := SurvivorPair(p, indices, r);
    HalfRowsAre(p, indices, r);
    var c, d := SurvivorHalves(p, indices, r);
    SurvivorsInTable(p, indices, r);
    if k < h { SurvivorTimes(p, indices[..h], r - 1, k); } else { SurvivorTimes(p, indices[h..], r - 1, k - h); }
    NextTimesInTable(p, r, a, b, TruncatedTree(p, indices, r));
  }

  lemma SurvivorsInTable(p: Equihash, indices: seq<nat>, r: nat)
    requires p.Valid() && 0 < r < p.K && |indices| == Pow2(r) && p.InRange(indices) && Survives(p, indices, r)
    ensures HalfRows(p, indices, r).0 in TruncatedTable(p, r - 1) && HalfRows(p, indices, r).1 in TruncatedTable(p, r - 1)
  {
    hide Survives, TruncatedTable, Equihash.Valid, Pow2, TruncatedTree;
    Doubling(r);
    var a, b := SurvivorHalves(p, indices, r);
    SurvivorInTable(p, indices[..Pow2(r - 1)], r - 1);
    SurvivorInTable(p, indices[Pow2(r - 1)..], r - 1);
  }

  lemma NextTimesInTable(p: Equihash, r: nat, a: Row, b: Row, row: Row)
    requires p.Valid() && 0 < r < p.K && a in TruncatedTable(p, r - 1) && b in TruncatedTable(p, r - 1) && a != b
    requires |a.hash| == |b.hash| == p.HashLen(r - 1) && |a.indices| == |b.indices| == Pow2(r - 1)
    requires HasCollision(a, b, p.CollisionByteLength()) && TruncatedRound(p, r - 1).Emit(a, b) == [row]
    ensures multiset(TruncatedTable(p, r))[row] >= multiset(TruncatedTable(p, r - 1))[a]
    ensures multiset(TruncatedTable(p, r))[row] >= multiset(TruncatedTable(p, r - 1))[b]
  {
    hide Equihash.Valid, Pow2, Round.Emit;
    PairTimes(TruncatedRound(p, r - 1), TruncatedTable(p, r - 1), a, b, row);
  }

  /** The list of a tree that is found is among the partial solutions as often, at least. */
  lemma FoundTimes(p: Equihash, indices: seq<nat>, k: nat) returns (row: Row)
    requires p.Valid() && Found(p, indices) && k < |indices|
    ensures multiset(PartialRows(p))[row] >= Twins(p, indices[k])
    ensures row in PartialRows(p) && row.indices == TruncatedTree(p, indices, p.K).indices
  {
    hide Equihash.Valid, TruncatedTable, TruncatedTree, Merge, Dropped, Found, Pow2, Round.Pairs, Twins, HalfRows;
    KAtLeast3(p);
    var a, b := FinalHalves(p, indices);
    FinalTruncatedPair(p, a, b, TruncatedTree(p, indices, p.K));
    row := Merge(a, b, 0);
    PairPresent(TruncatedFinal(p), FinalTable(p), a, b, row);
    PairTimes(TruncatedFinal(p), FinalTable(p), a, b, row);
    HalfTimes(p, indices, k);
  }

  lemma HalfTimes(p: Equihash, indices: seq<nat>, k: nat)
    requires p.Valid() && Found(p, indices) && k < |indices|
    ensures var h := HalfRows(p, indices, p.K);
            multiset(FinalTable(p))[h.0] >= Twins(p, indices[k]) || multiset(FinalTable(p))[h.1] >= Twins(p, indices[k])
  {
    hide Equihash.Valid, TruncatedTable, TruncatedTree, Survives, Pow2, HalfRows, Twins;
    KAtLeast3(p);
    Doubling(p.K);
    HalfRowsAre(p, indices, p.K);
    var a, b := SurvivorHalves(p, indices, p.K);
    var h := Pow2(p.K - 1);
    if k < h { SurvivorTimes(p, indices[..h], p.K - 1, k); } else { SurvivorTimes(p, indices[h..], p.K - 1, k - h); }
  }

  // ---------- solutions ----------

  lemma {:induction false} RebuildsTimes(p: Equihash, partials: seq<Row>, row: Row, soln: seq<byte>)
    requires p.Valid() && PartialBytes(p, partials) && IsPartial(p, row.indices) && RebuiltFrom(p, row.indices, soln)
    ensures Rebuilds(p, partials, soln) >= multiset(partials)[row]
  {
    hide RebuiltFrom, Equihash.Valid, IsPartial;
    if partials != [] {
      var n := |partials| - 1;
      assert partials == partials[..n] + [partials[n]];
      RebuildsTimes(p, partials[..n], row, soln);
    }
  }

  /** A solution whose tree the truncated rounds find is handed out at least as often as the first
      truncated table has the row of any of its indices. */
  lemma SolutionTimes(p: Equihash, soln: seq<byte>, k: nat)
    requires p.Valid() && p.PassesLevels(soln) && Found(p, p.IndicesOf(soln)) && k < |p.IndicesOf(soln)|
    ensures PartialBytes(p, PartialRows(p)) && Rebuilds(p, PartialRows(p), soln) >= Twins(p, p.IndicesOf(soln)[k])
  {
    hide Equihash.Valid, Equihash.TreeRow, TruncatedTree, Found, PartialRows, Twins, Rebuilds, RebuiltFrom;
    var ix := p.IndicesOf(soln);
    PartialsArePartial(p, PartialRows(p));
    var row := FoundTimes(p, ix, k);
    var j :| 0 <= j < |PartialRows(p)| && PartialRows(p)[j] == row;
    OwnListRebuilds(p, soln, row.indices);
    RebuildsTimes(p, PartialRows(p), row, soln);
  }

  lemma OwnListRebuilds(p: Equihash, soln: seq<byte>, partial: seq<nat>)
    requires p.Valid() && p.PassesLevels(soln) && IsPartial(p, partial)
    requires partial == TruncatedTree(p, p.IndicesOf(soln), p.K).indices
    ensures RebuiltFrom(p, partial, soln)
  {
    hide Equihash.Valid, Equihash.TreeRow, TruncatedTree, Block, Pow2, Elements, Packed;
    var ix := p.IndicesOf(soln);
    TopBlock(p, partial, ix);
    BlockComplete(p, partial, 0, p.K, ix);
    SolutionIndices(p, soln);
    ExpandThenCompress(soln, p.IndexBits());
    assert soln == Solution(p, p.TreeRow(ix, p.K).value);
  }

  // ---------- an example ----------

  lemma {:induction false} FirstTwice(p: Equihash, n: nat, i: nat, j: nat)
    requires p.Valid() && i < j < n && TruncatedLeaf(p, i) == TruncatedLeaf(p, j)
    ensures multiset(FirstTruncated(p, n))[TruncatedLeaf(p, i)] >= 2
  {
    hide TruncatedLeaf, Equihash.Valid;
    var front, row := FirstTruncated(p, n - 1), TruncatedLeaf(p, i);
    if j == n - 1 {
      FirstHasAll(p, n - 1, i);
      assert row in multiset(front);
    } else {
      FirstTwice(p, n - 1, i, j);
    }
  }

  /** For all N and K with room for two solutions' indices there is a hash function for which a valid
      solution is handed out at least twice. */
  lemma SolutionRepeated(N: nat, K: nat)
    requires Sizes(N, K) && K <= N / (K + 1)
    ensures var p, soln := Marked(N, K, 0), Packed(Line(N, K, 0), N / (K + 1) + 1);
            p.ValidSolution(soln) && PartialBytes(p, PartialRows(p)) && Rebuilds(p, PartialRows(p), soln) >= 2
  {
    hide Marked, MarkedStride, Equihash.Valid, Equihash.TreeRow, Places, Packed, Elements, Rebuilds, PartialRows, Found, IsZero;
    var p, ix := Marked(N, K, 0), Line(N, K, 0);
    LineTree(N, K, 0, 0);
    LineFound(N, K, 0);
    PackedIsValid(p, ix);
    TopPlace(From(0, MarkedStride(N, K)), K, 0);
    SolutionTimes(p, Packed(ix, N / (K + 1) + 1), 0);
    SameLeaves(N, K);
    FirstTwice(p, p.InitSize(), 0, 1);
  }

  lemma SameLeaves(N: nat, K: nat)
    requires Sizes(N, K)
    ensures var p := Marked(N, K, 0); 1 < p.InitSize() && TruncatedLeaf(p, 0) == TruncatedLeaf(p, 1)
  {
    hide Marked, MarkedStride, Equihash.Valid, Equihash.LeafRow, Truncate, Marks, Cells;
    MarkedStrides(N, K, 0);
    MarkedHash(N, K, 0, 0);
    MarkedHash(N, K, 0, 1);
    TruncateBelow(Marked(N, K, 0), 0);
    TruncateBelow(Marked(N, K, 0), 1);
  }
}
