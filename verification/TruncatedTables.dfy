/** The first half of OptimisedSolve: the rounds over rows with truncated indices. What they
    leave is that of a nested loop over the same rows; every index tree that the duplicate
    filter does not drop leaves its truncated row there. */
module TruncatedTables {
  import opened Bits
  import opened Words
  import opened BitPacking
  import opened StepRows
  import opened CollisionRounds
  import opened EquihashTree
  import opened Wrappers
  import opened BasicSolver

  function Truncate(p: Equihash, i: nat): nat
    requires p.Valid()
  {
    TruncateIndex(i, p.IndexBits())
  }

  /** TruncatedStepRow for index i. */
  function TruncatedLeaf(p: Equihash, i: nat): Row
    requires p.Valid()
  {
    Row(p.LeafRow(i).hash, [Truncate(p, i)])
  }

  function TruncatedRound(p: Equihash, r: nat): (s: Round)
    requires p.Valid() && r < p.K
    ensures s.Ok()
  {
    Round(p.HashLen(r), Pow2(r), p.CollisionByteLength(), p.CollisionByteLength(), NotDuplicate)
  }

  function TruncatedFinal(p: Equihash): (s: Round)
    requires p.Valid()
    ensures s.Ok()
  {
    Round(p.HashLen(p.K - 1), Pow2(p.K - 1), p.HashLen(p.K - 1), 0, NotDuplicate)
  }

  lemma {:induction false} PairsShape(s: Round, X: seq<Row>, row: Row)
    requires s.Ok() && s.Shaped(X) && row in s.Pairs(X)
    ensures |row.hash| == s.hashLen - s.trim && |row.indices| == 2 * s.nIndices
  {
    var l, m := PairsFrom(s, X, row);
  }

  function FirstTruncated(p: Equihash, n: nat): (X: seq<Row>)
    requires p.Valid()
    ensures |X| == n && TruncatedRound(p, 0).Shaped(X)
  {
    if n == 0 then [] else FirstTruncated(p, n - 1) + [TruncatedLeaf(p, n - 1)]
  }

  lemma TruncatedShape(p: Equihash, X: seq<Row>, r: nat)
    requires p.Valid() && r + 1 < p.K && TruncatedRound(p, r).Shaped(X)
    ensures TruncatedRound(p, r + 1).Shaped(TruncatedRound(p, r).Pairs(X))
  {
    var s := TruncatedRound(p, r);
    forall i | 0 <= i < |s.Pairs(X)| ensures TruncatedRound(p, r + 1).Fits(s.Pairs(X)[i]) {
      PairsShape(s, X, s.Pairs(X)[i]);
    }
  }

  /** The truncated table after r rounds of nested loops. */
  function TruncatedTable(p: Equihash, r: nat): (X: seq<Row>)
    requires p.Valid() && r < p.K
    ensures TruncatedRound(p, r).Shaped(X)
  {
    if r == 0 then FirstTruncated(p, p.InitSize())
    else
      var X := TruncatedTable(p, r - 1);
      TruncatedShape(p, X, r - 1);
      TruncatedRound(p, r - 1).Pairs(X)
  }

  lemma TruncatedLastShape(p: Equihash, X: seq<Row>)
    requires p.Valid() && TruncatedRound(p, p.K - 1).Shaped(X)
    ensures TruncatedFinal(p).Shaped(X)
  {
    forall i | 0 <= i < |X| ensures TruncatedFinal(p).Fits(X[i]) { assert TruncatedRound(p, p.K - 1).Fits(X[i]); }
  }

  /** partialSolns: the truncated index lists found in the last round. */
  function PartialRows(p: Equihash): seq<Row>
    requires p.Valid()
  {
    TruncatedLastShape(p, TruncatedTable(p, p.K - 1));
    TruncatedFinal(p).Pairs(TruncatedTable(p, p.K - 1))
  }

  // ---------- the truncated row of an index tree ----------

  /** What the truncated rounds make of an index tree. */
  function TruncatedTree(p: Equihash, indices: seq<nat>, r: nat): (t: Row)
    requires p.Valid() && r <= p.K && |indices| == Pow2(r)
    ensures |t.indices| == Pow2(r) && |t.hash| == p.HashLen(r)
    decreases r
  {
    if r == 0 then TruncatedLeaf(p, indices[0])
    else
      var half := Pow2(r - 1);
      Merge(TruncatedTree(p, indices[..half], r - 1), TruncatedTree(p, indices[half..], r - 1), p.CollisionByteLength())
  }

  /** The duplicate filter drops the row. */
  predicate Dropped(t: Row) { IsZero(t) && AllPaired(t.indices) }

  /** No node of the tree is dropped: none has a zero hash and truncated indices all paired up. */
  predicate Kept(p: Equihash, indices: seq<nat>, r: nat)
    requires p.Valid() && r <= p.K && |indices| == Pow2(r)
    decreases r
  {
    r == 0 ||
    (&& Kept(p, indices[..Pow2(r - 1)], r - 1) && Kept(p, indices[Pow2(r - 1)..], r - 1)
     && !Dropped(TruncatedTree(p, indices, r)))
  }

  lemma MergeOrder(a: Row, b: Row, c: Row, d: Row, trim: nat)
    requires Alike(a, b) && Alike(c, d) && a.hash == c.hash && b.hash == d.hash && trim <= |a.hash|
    ensures Merge(a, b, trim).hash == Merge(c, d, trim).hash
  {}

  lemma TruncatedNode(p: Equihash, indices: seq<nat>, r: nat)
    requires p.Valid() && 0 < r <= p.K && |indices| == Pow2(r)
    ensures var a, b := TruncatedTree(p, indices[..Pow2(r - 1)], r - 1), TruncatedTree(p, indices[Pow2(r - 1)..], r - 1);
            Alike(a, b) && p.CollisionByteLength() <= |a.hash| && TruncatedTree(p, indices, r) == Merge(a, b, p.CollisionByteLength())
  {
    hide Merge, Pow2;
  }

  /** Truncation does not change the hash of a tree. */
  lemma {:induction false} TruncatedHash(p: Equihash, indices: seq<nat>, r: nat)
    requires p.Valid() && r <= p.K && |indices| == Pow2(r) && p.TreeRow(indices, r).Some?
    ensures TruncatedTree(p, indices, r).hash == p.TreeRow(indices, r).value.hash
    decreases r, 1
  {
    hide Equihash.Valid, Merge, DistinctIndices;
    if r > 0 { TruncatedHashNode(p, indices, r); }
  }

  lemma {:induction false} TruncatedHashNode(p: Equihash, indices: seq<nat>, r: nat)
    requires p.Valid() && 0 < r <= p.K && |indices| == Pow2(r) && p.TreeRow(indices, r).Some?
    ensures TruncatedTree(p, indices, r).hash == p.TreeRow(indices, r).value.hash
    decreases r, 0
  {
    hide Merge, Equihash.TreeRow, Equihash.Valid, Equihash.HashLen, Pow2, TruncatedTree, DistinctIndices, Before;
    Doubling(r);
    var L, R := indices[..Pow2(r - 1)], indices[Pow2(r - 1)..];
    var a, b := TreeHalves(p, indices, r);
    TruncatedHash(p, L, r - 1);
    TruncatedHash(p, R, r - 1);
    var c, d := TruncatedTree(p, L, r - 1), TruncatedTree(p, R, r - 1);
    MergeOrder(a, b, c, d, p.CollisionByteLength());
    TruncatedNode(p, indices, r);
  }

  lemma Doubling(r: nat)
    requires r > 0
    ensures Pow2(r) == Pow2(r - 1) + Pow2(r - 1)
  {}

  /** Two equal rows give a row that is dropped. */
  lemma EqualRowsDropped(a: Row, trim: nat)
    requires trim <= |a.hash|
    ensures IsZero(Merge(a, a, trim)) && AllPaired(Merge(a, a, trim).indices)
  {
    MergeZero(a, a, trim);
    BeforeTotal(a.indices, a.indices);
    assert multiset(a.indices + a.indices) == multiset(a.indices) + multiset(a.indices);
  }

  // ---------- what the truncated tables hold ----------

  /** The truncated rows of the two halves of a tree. */
  function HalfRows(p: Equihash, indices: seq<nat>, r: nat): (h: (Row, Row))
    requires p.Valid() && 0 < r <= p.K && |indices| == Pow2(r)
    ensures Alike(h.0, h.1) && |h.0.hash| == p.HashLen(r - 1) && |h.0.indices| == Pow2(r - 1)
    ensures p.CollisionByteLength() <= |h.0.hash|
  {
    (TruncatedTree(p, indices[..Pow2(r - 1)], r - 1), TruncatedTree(p, indices[Pow2(r - 1)..], r - 1))
  }

  /** The truncated rounds keep this tree of index rows, whether or not its indices are ordered
      and distinct: at every node the halves collide and the row is not filtered out. */
  predicate Survives(p: Equihash, indices: seq<nat>, r: nat)
    requires p.Valid() && r <= p.K && |indices| == Pow2(r)
    decreases r
  {
    r == 0 ||
    (var h := HalfRows(p, indices, r);
     && Survives(p, indices[..Pow2(r - 1)], r - 1) && Survives(p, indices[Pow2(r - 1)..], r - 1)
     && HasCollision(h.0, h.1, p.CollisionByteLength()) && !Dropped(TruncatedTree(p, indices, r)))
  }

  lemma SurvivorHalves(p: Equihash, indices: seq<nat>, r: nat) returns (a: Row, b: Row)
    requires p.Valid() && 0 < r <= p.K && |indices| == Pow2(r) && Survives(p, indices, r)
    ensures (a, b) == HalfRows(p, indices, r) && HasCollision(a, b, p.CollisionByteLength())
    ensures Survives(p, indices[..Pow2(r - 1)], r - 1) && Survives(p, indices[Pow2(r - 1)..], r - 1)
    ensures !Dropped(TruncatedTree(p, indices, r)) && TruncatedTree(p, indices, r) == Merge(a, b, p.CollisionByteLength())
  {
    hide Merge, Dropped;
    a, b := HalfRows(p, indices, r).0, HalfRows(p, indices, r).1;
  }

  /** The two halves of a surviving tree are different rows, and their pair is not filtered out. */
  lemma SurvivorPair(p: Equihash, indices: seq<nat>, r: nat) returns (a: Row, b: Row)
    requires p.Valid() && 0 < r <= p.K && |indices| == Pow2(r) && Survives(p, indices, r)
    ensures (a, b) == HalfRows(p, indices, r) && a != b && HasCollision(a, b, p.CollisionByteLength())
    ensures TruncatedRound(p, r - 1).Emit(a, b) == [TruncatedTree(p, indices, r)]
  {
    hide Survives, TruncatedTree, Merge, Equihash.Valid, Equihash.HashLen, HalfRows, Pow2;
    a, b := SurvivorHalves(p, indices, r);
    EqualRowsDropped(a, p.CollisionByteLength());
  }

  /** A surviving tree leaves its row in the table of its height. */
  lemma {:induction false} SurvivorInTable(p: Equihash, indices: seq<nat>, r: nat)
    requires p.Valid() && r < p.K && |indices| == Pow2(r) && p.InRange(indices) && Survives(p, indices, r)
    ensures TruncatedTree(p, indices, r) in TruncatedTable(p, r)
    decreases r, 1
  {
    hide Survives;
    if r == 0 { FirstHasAll(p, p.InitSize(), indices[0]); } else { SurvivorNodeInTable(p, indices, r); }
  }

  lemma {:induction false} SurvivorNodeInTable(p: Equihash, indices: seq<nat>, r: nat)
    requires p.Valid() && 0 < r < p.K && |indices| == Pow2(r) && p.InRange(indices) && Survives(p, indices, r)
    ensures TruncatedTree(p, indices, r) in TruncatedTable(p, r)
    decreases r, 0
  {
    hide Survives, TruncatedTree, TruncatedTable, Merge, Round.Emit, Round.Pairs, Pow2, Equihash.Valid, Equihash.HashLen;
    Doubling(r);
    var a, b := SurvivorPair(p, indices, r);
    var c, d := SurvivorHalves(p, indices, r);
    SurvivorInTable(p, indices[..Pow2(r - 1)], r - 1);
    SurvivorInTable(p, indices[Pow2(r - 1)..], r - 1);
    NextTable(p, r, a, b, TruncatedTree(p, indices, r));
  }

  lemma NextTable(p: Equihash, r: nat, a: Row, b: Row, row: Row)
    requires p.Valid() && 0 < r < p.K && a in TruncatedTable(p, r - 1) && b in TruncatedTable(p, r - 1) && a != b
    requires |a.hash| == |b.hash| == p.HashLen(r - 1) && |a.indices| == |b.indices| == Pow2(r - 1)
    requires HasCollision(a, b, p.CollisionByteLength()) && TruncatedRound(p, r - 1).Emit(a, b) == [row]
    ensures row in TruncatedTable(p, r)
  {
    hide Equihash.Valid, Pow2, Round.Emit;
    PairPresent(TruncatedRound(p, r - 1), TruncatedTable(p, r - 1), a, b, row);
  }

  lemma {:induction false} FirstHasAll(p: Equihash, n: nat, i: nat)
    requires p.Valid() && i < n
    ensures TruncatedLeaf(p, i) in FirstTruncated(p, n)
  {
    if i < n - 1 { FirstHasAll(p, n - 1, i); }
  }

  /** Every row of a table is that of a surviving tree. */
  lemma {:induction false} TableSurvivor(p: Equihash, row: Row, r: nat) returns (indices: seq<nat>)
    requires p.Valid() && r < p.K && row in TruncatedTable(p, r)
    ensures |indices| == Pow2(r) && p.InRange(indices) && Survives(p, indices, r) && row == TruncatedTree(p, indices, r)
    decreases r, 1
  {
    hide TruncatedTree, Merge, Round.Pairs, Round.Emit, Equihash.Valid;
    if r == 0 {
      indices := LeafSurvivor(p, row);
    } else {
      TableStep(p, r);
      indices := PairSurvivor(p, row, r);
    }
  }

  lemma LeafSurvivor(p: Equihash, row: Row) returns (indices: seq<nat>)
    requires p.Valid() && row in FirstTruncated(p, p.InitSize())
    ensures |indices| == Pow2(0) && p.InRange(indices) && Survives(p, indices, 0) && row == TruncatedTree(p, indices, 0)
  {
    hide Equihash.Valid;
    var i := FirstIsLeaf(p, p.InitSize(), row);
    indices := [i];
  }

  lemma TableStep(p: Equihash, r: nat)
    requires p.Valid() && 0 < r < p.K
    ensures TruncatedTable(p, r) == TruncatedRound(p, r - 1).Pairs(TruncatedTable(p, r - 1))
  {
    hide Round.Pairs, Equihash.Valid;
  }

  lemma {:induction false} PairSurvivor(p: Equihash, row: Row, r: nat) returns (indices: seq<nat>)
    requires p.Valid() && 0 < r < p.K && row in TruncatedRound(p, r - 1).Pairs(TruncatedTable(p, r - 1))
    ensures |indices| == Pow2(r) && p.InRange(indices) && Survives(p, indices, r) && row == TruncatedTree(p, indices, r)
    decreases r, 0
  {
    hide Survives, TruncatedTree, TruncatedTable, Merge, Round.Pairs, Round.Emit, Pow2, Equihash.Valid, Equihash.HashLen;
    var X, s := TruncatedTable(p, r - 1), TruncatedRound(p, r - 1);
    var l, m := PairsFrom(s, X, row);
    var L := TableSurvivor(p, X[l], r - 1);
    var R := TableSurvivor(p, X[m], r - 1);
    Doubling(r);
    indices := L + R;
    assert indices[..Pow2(r - 1)] == L && indices[Pow2(r - 1)..] == R;
    JoinSurvives(p, indices, r, X[l], X[m], row);
  }

  lemma JoinSurvives(p: Equihash, indices: seq<nat>, r: nat, a: Row, b: Row, row: Row)
    requires p.Valid() && 0 < r <= p.K && |indices| == Pow2(r) && (a, b) == HalfRows(p, indices, r)
    requires Survives(p, indices[..Pow2(r - 1)], r - 1) && Survives(p, indices[Pow2(r - 1)..], r - 1)
    requires HasCollision(a, b, p.CollisionByteLength()) && row in TruncatedRound(p, r - 1).Emit(a, b)
    ensures Survives(p, indices, r) && row == TruncatedTree(p, indices, r)
  {
    TruncatedNode(p, indices, r);
    hide Merge, AllPaired, IsZero, TruncatedTree, Equihash.Valid, Equihash.HashLen, Pow2;
  }

  lemma {:induction false} FirstIsLeaf(p: Equihash, n: nat, row: Row) returns (i: nat)
    requires p.Valid() && row in FirstTruncated(p, n)
    ensures i < n && row == TruncatedLeaf(p, i)
  {
    if row in FirstTruncated(p, n - 1) { i := FirstIsLeaf(p, n - 1, row); } else { i := n - 1; }
  }

  // ---------- index trees ----------

  /** An index tree that passes the checks and that the filter keeps survives. */
  lemma {:induction false} KeptSurvives(p: Equihash, indices: seq<nat>, r: nat)
    requires p.Valid() && r <= p.K && |indices| == Pow2(r) && p.TreeRow(indices, r).Some? && Kept(p, indices, r)
    ensures Survives(p, indices, r)
    decreases r
  {
    hide Equihash.TreeRow, Equihash.Valid, TruncatedTree, Merge, Dropped, DistinctIndices, Before, Pow2;
    if r > 0 {
      Doubling(r);
      var x, y := TreeHalves(p, indices, r);
      KeptSurvives(p, indices[..Pow2(r - 1)], r - 1);
      KeptSurvives(p, indices[Pow2(r - 1)..], r - 1);
      TruncatedHash(p, indices[..Pow2(r - 1)], r - 1);
      TruncatedHash(p, indices[Pow2(r - 1)..], r - 1);
    }
  }
}
