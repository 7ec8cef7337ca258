/** What OptimisedSolve reaches, against what the verifier accepts. */
module OptimisedTheorems {
  import opened Bits
  import opened Words
  import opened BitPacking
  import opened StepRows
  import opened CollisionRounds
  import opened EquihashTree
  import opened Wrappers
  import opened BasicSolver
  import opened TruncatedTables
  import opened Rebuild
  import opened OptimisedSolver

  /** Every byte string handed out passes all per-level checks, so it is a valid solution exactly
      when the two halves of its tree agree on the whole hash that is left before the last merge. */
  lemma ReachedPassesLevels(p: Equihash, soln: seq<byte>)
    requires p.Valid() && soln in Reached(p)
    ensures p.PassesLevels(soln)
    ensures p.ValidSolution(soln) <==> HalvesAgree(p, p.IndicesOf(soln))
  {
    hide Equihash.Valid, PartialRows, Block, Equihash.TreeRow;
    PartialsArePartial(p, PartialRows(p));
    var k :| 0 <= k < |PartialRows(p)| && RebuiltFrom(p, PartialRows(p)[k].indices, soln);
    var partial := PartialRows(p)[k].indices;
    var row :| row in Block(p, partial, 0, p.K).value && soln == Solution(p, row);
    BlockSound(p, partial, 0, p.K);
    assert InTree(p, row, p.K);
    PackedIsValid(p, row.indices);
    SolutionIndices(p, soln);
    AgreeingIsZero(p, p.IndicesOf(soln));
  }

  /** The rows of the two halves agree on the whole remaining hash, where the rebuild compares only
      the next CollisionByteLength bytes. */
  ghost predicate HalvesAgree(p: Equihash, indices: seq<nat>)
    requires p.Valid() && |indices| == Pow2(p.K) && p.TreeRow(indices, p.K).Some?
  {
    p.TreeRow(indices[..Pow2(p.K - 1)], p.K - 1).value.hash == p.TreeRow(indices[Pow2(p.K - 1)..], p.K - 1).value.hash
  }

  lemma AgreeingIsZero(p: Equihash, indices: seq<nat>)
    requires p.Valid() && |indices| == Pow2(p.K) && p.TreeRow(indices, p.K).Some?
    ensures HalvesAgree(p, indices) <==> IsZero(p.TreeRow(indices, p.K).value)
  {
    hide Equihash.Valid, Equihash.TreeRow, Merge, IsZero, DistinctIndices, Before;
    KAtLeast3(p);
    var a, b := TreeHalves(p, indices, p.K);
    WholeHash(a, b, |a.hash|, p.CollisionByteLength());
    SameWhole(a, b);
  }

  function FinalTable(p: Equihash): (X: seq<Row>)
    requires p.Valid()
    ensures TruncatedFinal(p).Shaped(X) && X == TruncatedTable(p, p.K - 1)
  {
    TruncatedLastShape(p, TruncatedTable(p, p.K - 1));
    TruncatedTable(p, p.K - 1)
  }

  /** The truncated rounds find the list of this tree of rows: it survives them all, and its
      remaining hash is zero. */
  predicate Found(p: Equihash, indices: seq<nat>)
    requires p.Valid()
  {
    |indices| == Pow2(p.K) && p.InRange(indices) && Survives(p, indices, p.K) && IsZero(TruncatedTree(p, indices, p.K))
  }

  /** Of two rows that agree on the whole remaining hash, the last round takes the pair unless the
      truncated indices are all paired up. */
  lemma FinalTruncatedPair(p: Equihash, a: Row, b: Row, row: Row)
    requires p.Valid() && Alike(a, b) && |a.hash| == p.HashLen(p.K - 1) && |a.indices| == Pow2(p.K - 1)
    requires p.CollisionByteLength() <= |a.hash| && row == Merge(a, b, p.CollisionByteLength())
    requires a.hash == b.hash
    ensures IsZero(row) && HasCollision(a, b, p.CollisionByteLength()) && Merge(a, b, 0).indices == row.indices
    ensures TruncatedFinal(p).Collide(a, b) && TruncatedFinal(p).Emit(a, b) == if Dropped(row) then [] else [Merge(a, b, 0)]
  {
    MergeZero(a, b, p.CollisionByteLength());
    MergeZero(a, b, 0);
  }

  /** The halves of a tree that is found leave two rows in the last table that agree on the whole
      remaining hash. */
  lemma FinalHalves(p: Equihash, indices: seq<nat>) returns (a: Row, b: Row)
    requires p.Valid() && Found(p, indices)
    ensures |indices| == Pow2(p.K) && (a, b) == HalfRows(p, indices, p.K)
    ensures a in FinalTable(p) && b in FinalTable(p) && a != b && a.hash == b.hash
    ensures Alike(a, b) && |a.hash| == p.HashLen(p.K - 1) && |a.indices| == Pow2(p.K - 1)
    ensures p.CollisionByteLength() <= |a.hash| && !Dropped(TruncatedTree(p, indices, p.K))
    ensures TruncatedTree(p, indices, p.K) == Merge(a, b, p.CollisionByteLength())
  {
    hide Equihash.Valid, TruncatedTable, TruncatedTree, Merge, Dropped, Survives, Pow2, HalfRows, HasCollision, Round.Emit;
    var r := p.K - 1;
    KAtLeast3(p);
    Doubling(p.K);
    a, b := SurvivorPair(p, indices, p.K);
    var c, d := SurvivorHalves(p, indices, p.K);
    SurvivorInTable(p, indices[..Pow2(r)], r);
    SurvivorInTable(p, indices[Pow2(r)..], r);
    HalfRowsAre(p, indices, p.K);
    WholeHash(a, b, p.HashLen(r), p.CollisionByteLength());
    SameWhole(a, b);
  }

  lemma HalfRowsAre(p: Equihash, indices: seq<nat>, r: nat)
    requires p.Valid() && 0 < r <= p.K && |indices| == Pow2(r)
    ensures HalfRows(p, indices, r)
         == (TruncatedTree(p, indices[..Pow2(r - 1)], r - 1), TruncatedTree(p, indices[Pow2(r - 1)..], r - 1))
  {
    hide TruncatedTree, Equihash.Valid;
  }

  lemma SameWhole(a: Row, b: Row)
    requires Alike(a, b)
    ensures HasCollision(a, b, |a.hash|) <==> a.hash == b.hash
  {
    assert a.hash[..|a.hash|] == a.hash && b.hash[..|a.hash|] == b.hash;
  }

  /** The truncated list of a tree that is found is among the partial solutions. */
  lemma FoundIsPartial(p: Equihash, indices: seq<nat>) returns (row: Row)
    requires p.Valid() && Found(p, indices)
    ensures row in PartialRows(p) && row.indices == TruncatedTree(p, indices, p.K).indices
  {
    hide Equihash.Valid, TruncatedTable, TruncatedTree, Merge, Dropped, Found, Pow2, Round.Pairs;
    KAtLeast3(p);
    var a, b := FinalHalves(p, indices);
    FinalTruncatedPair(p, a, b, TruncatedTree(p, indices, p.K));
    row := Merge(a, b, 0);
    PairPresent(TruncatedFinal(p), FinalTable(p), a, b, row);
  }

  /** Every partial solution is the truncated list of a tree that is found. */
  lemma PartialIsFound(p: Equihash, row: Row) returns (indices: seq<nat>)
    requires p.Valid() && row in PartialRows(p)
    ensures Found(p, indices) && row.indices == TruncatedTree(p, indices, p.K).indices
  {
    hide Equihash.Valid, TruncatedTable, TruncatedTree, Merge, Dropped, Survives, Pow2, HalfRows, Round.Pairs, Round.Emit;
    KAtLeast3(p);
    Doubling(p.K);
    var X, s, half := FinalTable(p), TruncatedFinal(p), Pow2(p.K - 1);
    var l, m := PairsFrom(s, X, row);
    var L := TableSurvivor(p, X[l], p.K - 1);
    var R := TableSurvivor(p, X[m], p.K - 1);
    indices := L + R;
    assert indices[..half] == L && indices[half..] == R;
    HalfRowsAre(p, indices, p.K);
    SameWhole(X[l], X[m]);
    FinalPairFound(p, indices, X[l], X[m], row);
  }

  lemma FinalPairFound(p: Equihash, indices: seq<nat>, a: Row, b: Row, row: Row)
    requires p.Valid() && |indices| == Pow2(p.K) && (a, b) == HalfRows(p, indices, p.K) && a.hash == b.hash
    requires Survives(p, indices[..Pow2(p.K - 1)], p.K - 1) && Survives(p, indices[Pow2(p.K - 1)..], p.K - 1)
    requires row in TruncatedFinal(p).Emit(a, b)
    ensures Survives(p, indices, p.K) && IsZero(TruncatedTree(p, indices, p.K)) && row.indices == TruncatedTree(p, indices, p.K).indices
  {
    hide Equihash.Valid, TruncatedTree, Merge, Dropped, Pow2, Round.Emit, HasCollision, IsZero;
    KAtLeast3(p);
    TruncatedNode(p, indices, p.K);
    FinalTruncatedPair(p, a, b, TruncatedTree(p, indices, p.K));
  }

  // ---------- exactly what is handed out ----------

  /** The tree with these indices is rebuilt from the truncated list of a tree that is found. */
  ghost predicate RebuiltVia(p: Equihash, found: seq<nat>, indices: seq<nat>)
    requires p.Valid()
  {
    Found(p, found) && IsPartial(p, TruncatedTree(p, found, p.K).indices) &&
    Buildable(p, TruncatedTree(p, found, p.K).indices, 0, p.K, indices)
  }

  /** A byte string is handed out exactly if it passes the per-level checks and its tree can be
      built from the list of some tree of rows that the truncated rounds find. */
  lemma ReachedExactly(p: Equihash, soln: seq<byte>)
    requires p.Valid()
    ensures soln in Reached(p) <==> p.PassesLevels(soln) && exists found :: RebuiltVia(p, found, p.IndicesOf(soln))
  {
    hide Equihash.Valid, PartialRows, Block, Equihash.TreeRow, Found, Buildable, TruncatedTree, Reached;
    if soln in Reached(p) {
      ReachedPassesLevels(p, soln);
      ReachedVia(p, soln);
    }
    if p.PassesLevels(soln) {
      if found :| RebuiltVia(p, found, p.IndicesOf(soln)) { ViaReached(p, soln, found); }
    }
  }

  lemma ReachedVia(p: Equihash, soln: seq<byte>)
    requires p.Valid() && soln in Reached(p) && p.PassesLevels(soln)
    ensures exists found :: RebuiltVia(p, found, p.IndicesOf(soln))
  {
    hide Equihash.Valid, PartialRows, Block, Equihash.TreeRow, Found, Buildable, TruncatedTree, Packed, Elements;
    PartialsArePartial(p, PartialRows(p));
    var k :| 0 <= k < |PartialRows(p)| && RebuiltFrom(p, PartialRows(p)[k].indices, soln);
    var partial := PartialRows(p)[k].indices;
    var row :| row in Block(p, partial, 0, p.K).value && soln == Solution(p, row);
    assert BlockHas(p, partial, 0, p.K, row);
    BlockHolds(p, partial, 0, p.K, row);
    BuildablePasses(p, partial, 0, p.K, row.indices);
    PackedIsValid(p, row.indices);
    var found := PartialIsFound(p, PartialRows(p)[k]);
    assert RebuiltVia(p, found, p.IndicesOf(soln));
  }

  lemma ViaReached(p: Equihash, soln: seq<byte>, found: seq<nat>)
    requires p.Valid() && p.PassesLevels(soln) && RebuiltVia(p, found, p.IndicesOf(soln))
    ensures soln in Reached(p)
  {
    hide Equihash.Valid, PartialRows, Block, Equihash.TreeRow, Found, Buildable, TruncatedTree, Packed, Elements;
    var row := FoundIsPartial(p, found);
    PartialsArePartial(p, PartialRows(p));
    var k :| 0 <= k < |PartialRows(p)| && PartialRows(p)[k] == row;
    var ix := p.IndicesOf(soln);
    BuildablePasses(p, row.indices, 0, p.K, ix);
    var tree := p.TreeRow(ix, p.K).value;
    BlockHolds(p, row.indices, 0, p.K, tree);
    SolutionIndices(p, soln);
    ExpandThenCompress(soln, p.IndexBits());
    assert soln == Solution(p, tree);
    assert RebuiltFrom(p, row.indices, soln);
  }

  /** The two halves of every block of the list start differently, in order. */
  predicate StartsDiffer(p: Equihash, partial: seq<nat>, q: nat, r: nat)
    requires p.Valid() && IsPartial(p, partial) && r <= p.K && q < Pow2(p.K - r)
    decreases r
  {
    r == 0 ||
    (var rule := BranchRound(p, partial, q, r - 1).rule;
     rule.lt < rule.rt && StartsDiffer(p, partial, 2 * q, r - 1) && StartsDiffer(p, partial, 2 * q + 1, r - 1))
  }

  /** From such a list exactly the trees are rebuilt whose truncated indices are the list. */
  lemma {:induction false} PlainBlock(p: Equihash, partial: seq<nat>, q: nat, r: nat, indices: seq<nat>)
    requires p.Valid() && IsPartial(p, partial) && r <= p.K && q < Pow2(p.K - r) && StartsDiffer(p, partial, q, r)
    ensures Buildable(p, partial, q, r, indices) <==> Matches(p, partial, q, r, indices)
    decreases r, 1
  {
    hide *;
    if Matches(p, partial, q, r, indices) { MatchingBuilt(p, partial, q, r, indices); }
    if Buildable(p, partial, q, r, indices) {
      if r == 0 { BuiltLeafMatches(p, partial, q, indices); } else { BuiltNodeMatches(p, partial, q, r, indices); }
    }
  }

  lemma MatchingBuilt(p: Equihash, partial: seq<nat>, q: nat, r: nat, indices: seq<nat>)
    requires p.Valid() && IsPartial(p, partial) && r <= p.K && Matches(p, partial, q, r, indices)
    ensures q < Pow2(p.K - r) && Buildable(p, partial, q, r, indices)
  {
    hide Equihash.Valid, Equihash.TreeRow, Buildable, TruncatedTree, Block;
    BlockComplete(p, partial, q, r, indices);
    BlockHolds(p, partial, q, r, p.TreeRow(indices, r).value);
  }

  lemma BuiltLeafMatches(p: Equihash, partial: seq<nat>, q: nat, indices: seq<nat>)
    requires p.Valid() && IsPartial(p, partial) && q < Pow2(p.K) && Buildable(p, partial, q, 0, indices)
    ensures Matches(p, partial, q, 0, indices)
  {
    hide Equihash.Valid, Equihash.TreeRow, TruncatedTree, Truncate;
    BuildablePasses(p, partial, q, 0, indices);
    LeafTruncation(p, indices);
    BlockFits(q, 0, p.K);
  }

  lemma {:induction false} BuiltNodeMatches(p: Equihash, partial: seq<nat>, q: nat, r: nat, indices: seq<nat>)
    requires p.Valid() && IsPartial(p, partial) && 0 < r <= p.K && q < Pow2(p.K - r) && StartsDiffer(p, partial, q, r)
    requires Buildable(p, partial, q, r, indices)
    ensures Matches(p, partial, q, r, indices)
    decreases r, 0
  {
    hide Equihash.Valid, Equihash.TreeRow, Buildable, TruncatedTree, Pow2, Matches, Branching, IsPartial, Start, BranchRound;
    Doubling(p.K - r + 1);
    Doubling(r);
    BuildablePasses(p, partial, q, r, indices);
    BuiltFromHalves(p, partial, q, r - 1, indices);
    var L, R := indices[..Pow2(r - 1)], indices[Pow2(r - 1)..];
    PlainBlock(p, partial, 2 * q, r - 1, L);
    PlainBlock(p, partial, 2 * q + 1, r - 1, L);
    PlainBlock(p, partial, 2 * q, r - 1, R);
    PlainBlock(p, partial, 2 * q + 1, r - 1, R);
    HalvesDiffer(p, partial, q, r, indices);
  }

  /** Halves that match the halves of a block, and whose first indices truncate to the two starts,
      match different halves, so that together they match the block. */
  lemma HalvesDiffer(p: Equihash, partial: seq<nat>, q: nat, r: nat, indices: seq<nat>)
    requires p.Valid() && IsPartial(p, partial) && 0 < r <= p.K && q < Pow2(p.K - r) && Passing(p, indices, r)
    requires var rule := BranchRound(p, partial, q, r - 1).rule; rule.lt < rule.rt && Branching(p, rule, indices[0], indices[Pow2(r - 1)])
    requires var L := indices[..Pow2(r - 1)]; Matches(p, partial, 2 * q, r - 1, L) || Matches(p, partial, 2 * q + 1, r - 1, L)
    requires var R := indices[Pow2(r - 1)..]; Matches(p, partial, 2 * q, r - 1, R) || Matches(p, partial, 2 * q + 1, r - 1, R)
    ensures Matches(p, partial, q, r, indices)
  {
    hide Equihash.Valid, Equihash.TreeRow, TruncatedTree, Pow2, Start, Truncate, Before, Matches;
    Doubling(r);
    BlockFits(q, r, p.K);
    StartNext(2 * q, r - 1);
    StartHalf(q, r);
    SideIs(p, partial, q, r, indices[..Pow2(r - 1)]);
    SideIs(p, partial, q, r, indices[Pow2(r - 1)..]);
    var x, y := TruncatedHalves(p, indices, r);
    JoinedSlices(partial, Start(q, r), Pow2(r - 1), x, y);
    ListMatches(p, partial, q, r, indices);
  }

  /** The truncated list of a tree that matches one half of a block. */
  lemma SideIs(p: Equihash, partial: seq<nat>, q: nat, r: nat, half: seq<nat>)
    requires p.Valid() && IsPartial(p, partial) && 0 < r <= p.K && q < Pow2(p.K - r)
    requires Matches(p, partial, 2 * q, r - 1, half) || Matches(p, partial, 2 * q + 1, r - 1, half)
    ensures var x, i, j, h := TruncatedTree(p, half, r - 1).indices, Start(2 * q, r - 1), Start(2 * q + 1, r - 1), Pow2(r - 1);
            |x| == h && x[0] == Truncate(p, half[0]) && i + h <= j && j + h <= |partial|
            && (x == partial[i..i + h] || x == partial[j..j + h])
  {
    hide Equihash.Valid, Equihash.TreeRow, TruncatedTree, Pow2, Start, Truncate;
    BlockFits(q, r, p.K);
    Doubling(r);
    StartHalf(q, r);
    StartNext(2 * q, r - 1);
    FirstTruncation(p, half, r - 1);
  }

  lemma JoinedSlices(partial: seq<nat>, i: nat, h: nat, x: seq<nat>, y: seq<nat>)
    requires i + h + h <= |partial| && h > 0 && partial[i] < partial[i + h] && |x| == |y| == h && x[0] != y[0]
    requires x == partial[i..i + h] || x == partial[i + h..i + h + h]
    requires y == partial[i..i + h] || y == partial[i + h..i + h + h]
    ensures (if Before(x, y) then x + y else y + x) == partial[i..i + h + h]
  {
    hide Before;
    BeforeFirst(x, y);
    BeforeFirst(y, x);
    assert partial[i..i + h] + partial[i + h..i + h + h] == partial[i..i + h + h];
  }

  // ---------- valid solutions that are handed out ----------

  /** Whatever passes the per-level checks and has the truncated indices of a tree that is found
      is handed out, be that tree's indices ordered and distinct or not. */
  lemma SameTruncationReached(p: Equihash, soln: seq<byte>, found: seq<nat>)
    requires p.Valid() && Found(p, found) && p.PassesLevels(soln)
    requires TruncatedTree(p, p.IndicesOf(soln), p.K).indices == TruncatedTree(p, found, p.K).indices
    ensures soln in Reached(p)
  {
    hide Equihash.TreeRow, Equihash.Valid, TruncatedTree, Found, Pow2, PartialRows, Elements, Packed, Buildable;
    var row := FoundIsPartial(p, found);
    PartialsArePartial(p, PartialRows(p));
    TopBlock(p, row.indices, p.IndicesOf(soln));
    MatchingBuilt(p, row.indices, 0, p.K, p.IndicesOf(soln));
    assert RebuiltVia(p, found, p.IndicesOf(soln));
    ViaReached(p, soln, found);
  }

  lemma TopBlock(p: Equihash, partial: seq<nat>, indices: seq<nat>)
    requires p.Valid() && IsPartial(p, partial) && |indices| == Pow2(p.K) && p.InRange(indices)
    requires p.TreeRow(indices, p.K).Some? && partial == TruncatedTree(p, indices, p.K).indices
    ensures Matches(p, partial, 0, p.K, indices)
  {
    hide Equihash.TreeRow, Equihash.Valid, TruncatedTree;
    StartZero(p.K);
    assert partial[0..Pow2(p.K)] == partial;
  }

  lemma KeptIsFound(p: Equihash, indices: seq<nat>)
    requires p.Valid() && |indices| == Pow2(p.K) && p.InRange(indices) && Kept(p, indices, p.K)
    requires p.TreeRow(indices, p.K).Some? && IsZero(p.TreeRow(indices, p.K).value)
    ensures Found(p, indices)
  {
    hide Equihash.TreeRow, Equihash.Valid, TruncatedTree, Survives, Kept;
    KeptSurvives(p, indices, p.K);
    TruncatedHash(p, indices, p.K);
  }

  /** Every valid solution that the duplicate filter does not drop is handed out. */
  lemma KeptReached(p: Equihash, soln: seq<byte>)
    requires p.Valid() && p.ValidSolution(soln) && Kept(p, p.IndicesOf(soln), p.K)
    ensures soln in Reached(p)
  {
    hide Equihash.TreeRow, Equihash.Valid, TruncatedTree, Found, Kept, Reached;
    KeptIsFound(p, p.IndicesOf(soln));
    SameTruncationReached(p, soln, p.IndicesOf(soln));
  }
}
