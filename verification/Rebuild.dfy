/** The second half of OptimisedSolve: full indices are rebuilt from a truncated index list by
    merging candidate lists pairwise up a tree. What the tree holds is given here block by block;
    every row it holds passes all checks of the verifier but the last, and no index tree with the
    given truncation is lost. */
module Rebuild {
  import opened Bits
  import opened Words
  import opened BitPacking
  import opened StepRows
  import opened CollisionRounds
  import opened EquihashTree
  import opened Wrappers
  import opened BasicSolver
  import opened TruncatedTables

  // ---------- blocks of leaves ----------

  /** The first leaf of block q of 2^r leaves. */
  function Start(q: nat, r: nat): nat
    decreases r
  {
    if r == 0 then q else Start(2 * q, r - 1)
  }

  lemma {:induction false} StartNext(q: nat, r: nat)
    ensures Start(q + 1, r) == Start(q, r) + Pow2(r)
    decreases r
  {
    if r > 0 {
      StartNext(2 * q, r - 1);
      StartNext(2 * q + 1, r - 1);
    }
  }

  lemma {:induction false} StartZero(r: nat)
    ensures Start(0, r) == 0
  {
    if r > 0 { StartZero(r - 1); }
  }

  lemma {:induction false} StartTop(n: nat, r: nat)
    ensures Start(Pow2(n), r) == Pow2(n + r)
    decreases r
  {
    if r > 0 { StartTop(n + 1, r - 1); }
  }

  lemma {:induction false} StartMono(q: nat, q': nat, r: nat)
    requires q <= q'
    ensures Start(q, r) <= Start(q', r)
    decreases q'
  {
    if q < q' {
      StartMono(q, q' - 1, r);
      StartNext(q' - 1, r);
    }
  }

  lemma BlockFits(q: nat, r: nat, k: nat)
    requires r <= k && q < Pow2(k - r)
    ensures Start(q, r) + Pow2(r) <= Pow2(k)
  {
    StartNext(q, r);
    StartMono(q + 1, Pow2(k - r), r);
    StartTop(k - r, r);
  }

  // ---------- what the merge tree holds ----------

  /** partial is a truncated index list: 2^K bytes. */
  predicate IsPartial(p: Equihash, partial: seq<nat>)
  {
    |partial| == Pow2(p.K) && forall i :: 0 <= i < |partial| ==> partial[i] < 256
  }

  function RecreateSize(p: Equihash): nat
    requires p.Valid()
  {
    UntruncateIndex(1, 0, p.IndexBits())
  }

  lemma RecreateSizeIs(p: Equihash)
    requires p.Valid()
    ensures RecreateSize(p) == Pow2(p.IndexBits() - 8)
  {
    Untruncated(1, 0, p.IndexBits());
  }

  /** The rows of the first n indices that truncate to t. */
  function Candidates(p: Equihash, t: nat, n: nat): (X: seq<Row>)
    requires p.Valid()
    ensures |X| == n && TruncatedRound(p, 0).Shaped(X)
  {
    if n == 0 then []
    else Candidates(p, t, n - 1) + [p.LeafRow(UntruncateIndex(t, n - 1, p.IndexBits()))]
  }

  /** The merge of blocks 2q and 2q+1 at level r, CollideBranches' parameters. */
  function BranchRound(p: Equihash, partial: seq<nat>, q: nat, r: nat): (s: Round)
    requires p.Valid() && IsPartial(p, partial) && r < p.K && q < Pow2(p.K - r - 1)
    ensures s.Ok() && s.hashLen == p.HashLen(r) && s.nIndices == Pow2(r)
  {
    BlockFits(2 * q, r, p.K);
    BlockFits(2 * q + 1, r, p.K);
    Round(p.HashLen(r), Pow2(r), p.CollisionByteLength(), p.CollisionByteLength(),
          Branches(p.IndexBits(), partial[Start(2 * q, r)], partial[Start(2 * q + 1, r)]))
  }

  predicate RowsAt(p: Equihash, X: seq<Row>, r: nat)
    requires p.Valid() && r <= p.K
  {
    forall i :: 0 <= i < |X| ==> |X[i].hash| == p.HashLen(r) && |X[i].indices| == Pow2(r)
  }

  /** The rows for block q of level r + 1, from those of its two halves, by nested loops. */
  function Merged(p: Equihash, partial: seq<nat>, q: nat, r: nat, left: seq<Row>, right: seq<Row>): (X: seq<Row>)
    requires p.Valid() && IsPartial(p, partial) && r < p.K && q < Pow2(p.K - r - 1) && RowsAt(p, left, r) && RowsAt(p, right, r)
    ensures RowsAt(p, X, r + 1)
  {
    BlockShape(p, partial, q, r, right + left);
    BranchRound(p, partial, q, r).Pairs(right + left)
  }

  function SomeRows(X: seq<Row>): Option<seq<Row>> { if X == [] then None else Some(X) }

  /** The rows for block q of 2^r leaves; None once a merge comes out empty. */
  function Block(p: Equihash, partial: seq<nat>, q: nat, r: nat): (X: Option<seq<Row>>)
    requires p.Valid() && IsPartial(p, partial) && r <= p.K && q < Pow2(p.K - r)
    ensures X.Some? ==> RowsAt(p, X.value, r)
    decreases r
  {
    if r == 0 then Some(Candidates(p, partial[q], RecreateSize(p)))
    else
      match (Block(p, partial, 2 * q, r - 1), Block(p, partial, 2 * q + 1, r - 1))
      case (Some(left), Some(right)) =>
        SomeRows(Merged(p, partial, q, r - 1, left, right))
      case _ => None
  }

  /** The halves of block q of level r + 1 have these rows. */
  predicate HalvesAre(p: Equihash, partial: seq<nat>, q: nat, r: nat, left: seq<Row>, right: seq<Row>)
    requires p.Valid() && IsPartial(p, partial) && r < p.K && q < Pow2(p.K - r - 1)
  {
    Doubling(p.K - r);
    Block(p, partial, 2 * q, r) == Some(left) && Block(p, partial, 2 * q + 1, r) == Some(right)
  }

  lemma NextBlock(p: Equihash, partial: seq<nat>, q: nat, r: nat, left: seq<Row>, right: seq<Row>)
    requires p.Valid() && IsPartial(p, partial) && r < p.K && q < Pow2(p.K - r - 1) && RowsAt(p, left, r) && RowsAt(p, right, r)
    requires HalvesAre(p, partial, q, r, left, right)
    ensures Block(p, partial, q, r + 1) == SomeRows(Merged(p, partial, q, r, left, right))
  {
    hide Equihash.Valid, Merged, RowsAt;
  }

  lemma BlockShape(p: Equihash, partial: seq<nat>, q: nat, r: nat, X: seq<Row>)
    requires p.Valid() && IsPartial(p, partial) && r < p.K && q < Pow2(p.K - r - 1) && RowsAt(p, X, r)
    ensures RowsAt(p, BranchRound(p, partial, q, r).Pairs(X), r + 1)
  {
    var s := BranchRound(p, partial, q, r);
    forall i | 0 <= i < |s.Pairs(X)|
      ensures |s.Pairs(X)[i].hash| == p.HashLen(r + 1) && |s.Pairs(X)[i].indices| == Pow2(r + 1)
    {
      PairsShape(s, X, s.Pairs(X)[i]);
    }
  }

  // ---------- soundness ----------

  lemma {:induction false} CandidateIsLeaf(p: Equihash, t: nat, n: nat, row: Row)
    requires p.Valid() && t < 256 && n <= Pow2(p.IndexBits() - 8) && row in Candidates(p, t, n)
    ensures InTree(p, row, 0)
  {
    hide Equihash.LeafRow;
    if row in Candidates(p, t, n - 1) {
      CandidateIsLeaf(p, t, n - 1, row);
    } else {
      Untruncated(t, n - 1, p.IndexBits());
    }
  }

  /** What a branch round emits is a tree over two trees of the table. */
  lemma BranchEmits(p: Equihash, s: Round, r: nat, a: Row, b: Row, row: Row)
    requires p.Valid() && r < p.K && InTree(p, a, r) && InTree(p, b, r)
    requires s.Ok() && s.Fits(a) && s.Fits(b) && s.rule.Branches? && s.trim == s.clen == p.CollisionByteLength()
    requires s.Collide(a, b) && row in s.Emit(a, b)
    ensures InTree(p, row, r + 1)
  {
    PairIsTree(p, r, a, b);
    MergeSymmetric(a, b, s.trim);
  }

  ghost predicate AllTrees(p: Equihash, X: seq<Row>, r: nat)
    requires p.Valid() && r <= p.K
  {
    forall x | x in X :: InTree(p, x, r)
  }

  lemma PairsTrees(p: Equihash, partial: seq<nat>, q: nat, r: nat, X: seq<Row>)
    requires p.Valid() && IsPartial(p, partial) && r < p.K && q < Pow2(p.K - r - 1)
    requires RowsAt(p, X, r) && AllTrees(p, X, r)
    ensures AllTrees(p, BranchRound(p, partial, q, r).Pairs(X), r + 1)
  {
    hide Equihash.Valid, InTree, Round.Emit, Round.Collide, Round.Pairs, Start;
    var s := BranchRound(p, partial, q, r);
    forall row | row in s.Pairs(X) ensures InTree(p, row, r + 1) {
      var l, m := PairsFrom(s, X, row);
      assert X[l] in X && X[m] in X;
      BranchEmits(p, s, r, X[l], X[m], row);
    }
  }

  ghost predicate SoundBlock(p: Equihash, partial: seq<nat>, q: nat, r: nat)
    requires p.Valid() && IsPartial(p, partial) && r <= p.K && q < Pow2(p.K - r)
  {
    Block(p, partial, q, r).Some? ==> AllTrees(p, Block(p, partial, q, r).value, r)
  }

  /** Every row of a block is the row of a valid index tree. */
  lemma {:induction false} BlockSound(p: Equihash, partial: seq<nat>, q: nat, r: nat)
    requires p.Valid() && IsPartial(p, partial) && r <= p.K && q < Pow2(p.K - r)
    ensures SoundBlock(p, partial, q, r)
    decreases r
  {
    hide *;
    if r == 0 {
      LeafSound(p, partial, q);
    } else {
      BlockFits(q, r, p.K);
      HalfNumbers(p, q, r);
      BlockSound(p, partial, 2 * q, r - 1);
      BlockSound(p, partial, 2 * q + 1, r - 1);
      JoinSound(p, partial, q, r - 1);
    }
  }

  lemma HalfNumbers(p: Equihash, q: nat, r: nat)
    requires 0 < r <= p.K && q < Pow2(p.K - r)
    ensures 2 * q + 1 < Pow2(p.K - (r - 1))
  {
    Doubling(p.K - r + 1);
  }

  lemma LeafSound(p: Equihash, partial: seq<nat>, q: nat)
    requires p.Valid() && IsPartial(p, partial) && q < Pow2(p.K)
    ensures SoundBlock(p, partial, q, 0)
  {
    hide InTree, Equihash.Valid;
    RecreateSizeIs(p);
    forall row | row in Candidates(p, partial[q], RecreateSize(p)) ensures InTree(p, row, 0) {
      CandidateIsLeaf(p, partial[q], RecreateSize(p), row);
    }
  }

  lemma JoinSound(p: Equihash, partial: seq<nat>, q: nat, r: nat)
    requires p.Valid() && IsPartial(p, partial) && r < p.K && q < Pow2(p.K - r - 1) && 2 * q + 1 < Pow2(p.K - r)
    requires SoundBlock(p, partial, 2 * q, r) && SoundBlock(p, partial, 2 * q + 1, r)
    ensures SoundBlock(p, partial, q, r + 1)
  {
    hide InTree, Equihash.Valid, BranchRound, Round.Pairs, Candidates;
    if Block(p, partial, q, r + 1).Some? {
      PairsTrees(p, partial, q, r, Block(p, partial, 2 * q + 1, r).value + Block(p, partial, 2 * q, r).value);
    }
  }

  // ---------- completeness ----------

  lemma {:induction false} CandidatesHave(p: Equihash, t: nat, n: nat, j: nat)
    requires p.Valid() && j < n
    ensures p.LeafRow(UntruncateIndex(t, j, p.IndexBits())) in Candidates(p, t, n)
  {
    if j < n - 1 { CandidatesHave(p, t, n - 1, j); }
  }

  lemma TruncateMonotone(p: Equihash, i: nat, j: nat)
    requires p.Valid() && i <= j < p.InitSize()
    ensures Truncate(p, i) <= Truncate(p, j) < 256
  {
    var n := p.IndexBits();
    TruncateShr(i, n);
    TruncateShr(j, n);
    QuotMono(i, j, Pow2(n - 8));
  }

  lemma QuotMono(i: nat, j: nat, base: nat)
    requires base > 0 && i <= j
    ensures Quot(i, base) <= Quot(j, base)
  {
    QuotRem(i, base);
    QuotRem(j, base);
    if Quot(i, base) >= Quot(j, base) + 1 { MulMono(Quot(j, base) + 1, Quot(i, base), base); }
  }

  lemma BeforeFirst(a: seq<nat>, b: seq<nat>)
    requires |a| == |b| > 0
    ensures Before(a, b) ==> a[0] <= b[0]
    ensures !Before(a, b) ==> b[0] <= a[0]
  {}

  /** The truncated indices of a tree are those of its halves, the smaller list first. */
  lemma TruncatedHalves(p: Equihash, indices: seq<nat>, r: nat) returns (x: seq<nat>, y: seq<nat>)
    requires p.Valid() && 0 < r <= p.K && |indices| == Pow2(r)
    ensures x == TruncatedTree(p, indices[..Pow2(r - 1)], r - 1).indices
    ensures y == TruncatedTree(p, indices[Pow2(r - 1)..], r - 1).indices
    ensures |x| == |y| == Pow2(r - 1)
    ensures TruncatedTree(p, indices, r).indices == if Before(x, y) then x + y else y + x
  {
    x, y := TruncatedTree(p, indices[..Pow2(r - 1)], r - 1).indices, TruncatedTree(p, indices[Pow2(r - 1)..], r - 1).indices;
  }

  lemma LeafTruncation(p: Equihash, indices: seq<nat>)
    requires p.Valid() && |indices| == 1
    ensures TruncatedTree(p, indices, 0).indices == [Truncate(p, indices[0])]
  {
    hide Equihash.Valid, Equihash.LeafRow, Truncate, Merge;
  }

  /** The first index of a tree truncates to the first entry of its truncated row. */
  lemma {:induction false} FirstTruncation(p: Equihash, indices: seq<nat>, r: nat)
    requires p.Valid() && r <= p.K && |indices| == Pow2(r) && p.InRange(indices) && p.TreeRow(indices, r).Some?
    ensures TruncatedTree(p, indices, r).indices[0] == Truncate(p, indices[0])
    decreases r, 1
  {
    assert r == 0 ==> |indices| == 1;
    hide Equihash.TreeRow, Equihash.Valid, Pow2, Before, TruncatedTree, Truncate, Merge, DistinctIndices;
    if r == 0 { LeafTruncation(p, indices); } else { FirstTruncationNode(p, indices, r); }
  }

  lemma {:induction false} FirstTruncationNode(p: Equihash, indices: seq<nat>, r: nat)
    requires p.Valid() && 0 < r <= p.K && |indices| == Pow2(r) && p.InRange(indices) && p.TreeRow(indices, r).Some?
    ensures TruncatedTree(p, indices, r).indices[0] == Truncate(p, indices[0])
    decreases r, 0
  {
    hide Equihash.TreeRow, Equihash.Valid, Pow2, Before, TruncatedTree, Truncate, Merge, DistinctIndices;
    Doubling(r);
    var L, R := indices[..Pow2(r - 1)], indices[Pow2(r - 1)..];
    var a, b := TreeHalves(p, indices, r);
    var x, y := TruncatedHalves(p, indices, r);
    FirstTruncation(p, L, r - 1);
    FirstTruncation(p, R, r - 1);
    assert a.indices == L && b.indices == R;
    BeforeFirst(R, L);
    TruncateMonotone(p, L[0], R[0]);
    BeforeFirst(x, y);
  }

  /** The index tree has the truncation that partial gives for block q. */
  ghost predicate Matches(p: Equihash, partial: seq<nat>, q: nat, r: nat, indices: seq<nat>)
    requires p.Valid() && IsPartial(p, partial) && r <= p.K
  {
    && q < Pow2(p.K - r) && Start(q, r) + Pow2(r) <= Pow2(p.K)
    && |indices| == Pow2(r) && p.InRange(indices) && p.TreeRow(indices, r).Some?
    && TruncatedTree(p, indices, r).indices == partial[Start(q, r)..Start(q, r) + Pow2(r)]
  }

  ghost predicate Holds(p: Equihash, partial: seq<nat>, q: nat, r: nat, indices: seq<nat>)
    requires p.Valid() && IsPartial(p, partial) && r <= p.K && Matches(p, partial, q, r, indices)
  {
    Block(p, partial, q, r).Some? && p.TreeRow(indices, r).value in Block(p, partial, q, r).value
  }

  lemma LeafHolds(p: Equihash, partial: seq<nat>, q: nat, indices: seq<nat>)
    requires p.Valid() && IsPartial(p, partial) && Matches(p, partial, q, 0, indices)
    ensures Holds(p, partial, q, 0, indices)
  {
    LeafBlock(p, partial, q, indices);
  }

  lemma ListMatches(p: Equihash, partial: seq<nat>, q: nat, r: nat, indices: seq<nat>)
    requires p.Valid() && IsPartial(p, partial) && r <= p.K && q < Pow2(p.K - r) && Passing(p, indices, r)
    requires Start(q, r) + Pow2(r) <= |partial| && TruncatedTree(p, indices, r).indices == partial[Start(q, r)..Start(q, r) + Pow2(r)]
    ensures Matches(p, partial, q, r, indices)
  {}

  lemma MatchParts(p: Equihash, partial: seq<nat>, q: nat, r: nat, indices: seq<nat>)
    requires p.Valid() && IsPartial(p, partial) && r <= p.K && Matches(p, partial, q, r, indices)
    ensures q < Pow2(p.K - r) && Start(q, r) + Pow2(r) <= |partial| == Pow2(p.K) && Passing(p, indices, r)
    ensures |indices| == Pow2(r) && TruncatedTree(p, indices, r).indices == partial[Start(q, r)..Start(q, r) + Pow2(r)]
  {
    hide Equihash.Valid, Equihash.TreeRow, TruncatedTree, Pow2, Start;
  }

  ghost predicate HalvesInOrder(p: Equihash, partial: seq<nat>, q: nat, r: nat, s: seq<nat>, t: seq<nat>)
    requires p.Valid() && IsPartial(p, partial) && 0 < r <= p.K
  {
    Matches(p, partial, 2 * q, r - 1, s) && Matches(p, partial, 2 * q + 1, r - 1, t)
  }

  /** The halves of a matching tree match the two halves of the block, in one order or the other. */
  lemma HalvesMatch(p: Equihash, partial: seq<nat>, q: nat, r: nat, indices: seq<nat>)
    requires p.Valid() && IsPartial(p, partial) && 0 < r <= p.K && Matches(p, partial, q, r, indices)
    ensures |indices| == Pow2(r) == Pow2(r - 1) + Pow2(r - 1)
    ensures var L, R := indices[..Pow2(r - 1)], indices[Pow2(r - 1)..];
            HalvesInOrder(p, partial, q, r, L, R) || HalvesInOrder(p, partial, q, r, R, L)
  {
    hide Equihash.TreeRow, Equihash.Valid, Pow2, Before, TruncatedTree, Merge, Start, DistinctIndices, Matches, HalvesInOrder;
    Doubling(r);
    MatchParts(p, partial, q, r, indices);
    var L, R := indices[..Pow2(r - 1)], indices[Pow2(r - 1)..];
    var a, b := TreeHalves(p, indices, r);
    var x, y := TruncatedHalves(p, indices, r);
    if Before(x, y) { InOrder(p, partial, q, r, L, R); } else { InOrder(p, partial, q, r, R, L); }
  }

  lemma InOrder(p: Equihash, partial: seq<nat>, q: nat, r: nat, s: seq<nat>, t: seq<nat>)
    requires p.Valid() && IsPartial(p, partial) && 0 < r <= p.K && q < Pow2(p.K - r) && Passing(p, s, r - 1) && Passing(p, t, r - 1)
    requires Start(q, r) + Pow2(r) <= |partial|
    requires TruncatedTree(p, s, r - 1).indices + TruncatedTree(p, t, r - 1).indices == partial[Start(q, r)..Start(q, r) + Pow2(r)]
    ensures HalvesInOrder(p, partial, q, r, s, t)
  {
    hide Equihash.TreeRow, Equihash.Valid, Pow2, TruncatedTree, Start, Matches;
    SplitBlock(partial, p.K, q, r, partial[Start(q, r)..Start(q, r) + Pow2(r)],
               TruncatedTree(p, s, r - 1).indices, TruncatedTree(p, t, r - 1).indices);
    ListMatches(p, partial, 2 * q, r - 1, s);
    ListMatches(p, partial, 2 * q + 1, r - 1, t);
  }

  /** The block holds the tree with these indices, which has the truncation given for it. */
  ghost predicate HoldsMatch(p: Equihash, partial: seq<nat>, q: nat, r: nat, indices: seq<nat>)
    requires p.Valid() && IsPartial(p, partial) && r <= p.K
  {
    Matches(p, partial, q, r, indices) && Holds(p, partial, q, r, indices)
  }

  /** Trees held by the two halves of a block are joined in the block. */
  lemma HalvesJoined(p: Equihash, partial: seq<nat>, q: nat, r: nat, indices: seq<nat>, s: seq<nat>, t: seq<nat>)
    requires p.Valid() && IsPartial(p, partial) && 0 < r <= p.K && Matches(p, partial, q, r, indices)
    requires HoldsMatch(p, partial, 2 * q, r - 1, s) && HoldsMatch(p, partial, 2 * q + 1, r - 1, t)
    requires indices == s + t || indices == t + s
    ensures Holds(p, partial, q, r, indices)
  {
    hide Equihash.TreeRow, Equihash.Valid, Pow2, Before, Block, TruncatedTree, Merge, Start, Truncate, DistinctIndices;
    var a, b := TreeHalves(p, indices, r);
    FirstTruncation(p, s, r - 1);
    FirstTruncation(p, t, r - 1);
    HalvesMerged(p, partial, q, r - 1, a, b);
  }

  /** An index tree with this truncation is among the rows of its block. */
  lemma {:induction false} BlockComplete(p: Equihash, partial: seq<nat>, q: nat, r: nat, indices: seq<nat>)
    requires p.Valid() && IsPartial(p, partial) && r <= p.K && Matches(p, partial, q, r, indices)
    ensures Holds(p, partial, q, r, indices)
    decreases r
  {
    hide Matches, Holds, Equihash.Valid, IsPartial, Pow2;
    if r == 0 {
      LeafHolds(p, partial, q, indices);
    } else {
      HalvesMatch(p, partial, q, r, indices);
      var L, R := indices[..Pow2(r - 1)], indices[Pow2(r - 1)..];
      var (s, t) := if HalvesInOrder(p, partial, q, r, L, R) then (L, R) else (R, L);
      BlockComplete(p, partial, 2 * q, r - 1, s);
      BlockComplete(p, partial, 2 * q + 1, r - 1, t);
      HalvesJoined(p, partial, q, r, indices, s, t);
    }
  }

  lemma LeafBlock(p: Equihash, partial: seq<nat>, q: nat, indices: seq<nat>)
    requires p.Valid() && IsPartial(p, partial) && q < Pow2(p.K) && |indices| == 1 && p.InRange(indices)
    requires Start(q, 0) < |partial| && TruncatedTree(p, indices, 0).indices == partial[Start(q, 0)..Start(q, 0) + 1]
    ensures Block(p, partial, q, 0).Some? && p.TreeRow(indices, 0).value in Block(p, partial, q, 0).value
  {
    hide Equihash.Valid, Equihash.LeafRow, Truncate;
    LeafTruncation(p, indices);
    assert partial[q..q + 1][0] == partial[q];
    LeafComplete(p, partial[q], indices[0]);
  }

  /** The leaves of a block are those of its two halves. */
  lemma SplitBlock(partial: seq<nat>, k: nat, q: nat, r: nat, whole: seq<nat>, x: seq<nat>, y: seq<nat>)
    requires 0 < r <= k && q < Pow2(k - r) && |partial| == Pow2(k)
    requires Start(q, r) + Pow2(r) <= |partial| && whole == partial[Start(q, r)..Start(q, r) + Pow2(r)]
    requires |x| == |y| == Pow2(r - 1) && whole == x + y
    ensures 2 * q + 1 < Pow2(k - (r - 1))
    ensures var i, j, half := Start(2 * q, r - 1), Start(2 * q + 1, r - 1), Pow2(r - 1);
            i + half <= j && j + half <= |partial| && x == partial[i..i + half] && y == partial[j..j + half]
            && x[0] == partial[i] && y[0] == partial[j]
  {
    StartNext(2 * q, r - 1);
    hide Start, Pow2;
    Doubling(r);
    Doubling(k - r + 1);
    StartHalf(q, r);
    CutSlice(partial, Start(q, r), Pow2(r - 1), x, y);
  }

  lemma StartHalf(q: nat, r: nat)
    requires r > 0
    ensures Start(q, r) == Start(2 * q, r - 1)
  {}

  lemma CutSlice(s: seq<nat>, i: nat, half: nat, x: seq<nat>, y: seq<nat>)
    requires half > 0 && i + half + half <= |s| && |x| == |y| == half && s[i..i + half + half] == x + y
    ensures s[i..i + half] == x && s[i + half..i + half + half] == y && x[0] == s[i] && y[0] == s[i + half]
  {
    var whole := s[i..i + half + half];
    assert s[i..i + half] == whole[..half] == x;
    assert s[i + half..i + half + half] == whole[half..] == y;
  }

  lemma LeafComplete(p: Equihash, t: nat, i: nat)
    requires p.Valid() && i < p.InitSize() && t == Truncate(p, i) < 256
    ensures p.LeafRow(i) in Candidates(p, t, RecreateSize(p))
  {
    var n := p.IndexBits();
    TruncationFibre(t, Low(i, n - 8), i, n);
    RecreateSizeIs(p);
    CandidatesHave(p, t, RecreateSize(p), Low(i, n - 8));
  }

  // ---------- exactly what a block holds ----------

  /** The indices of a tree that passes the per-level checks. */
  ghost predicate Passing(p: Equihash, indices: seq<nat>, r: nat)
    requires p.Valid() && r <= p.K
  {
    |indices| == Pow2(r) && p.InRange(indices) && p.TreeRow(indices, r).Some?
  }

  /** The trees that are merged in block q of 2^r leaves. Both halves of a block must hold a tree,
      and a pair of trees is merged if their first indices truncate to where the two halves of the
      list start; if these are equal, both trees of a pair may come from the same half. */
  ghost predicate Buildable(p: Equihash, partial: seq<nat>, q: nat, r: nat, indices: seq<nat>)
    requires p.Valid() && IsPartial(p, partial) && r <= p.K && q < Pow2(p.K - r)
    decreases r, 0
  {
    Passing(p, indices, r) && if r == 0 then FromLeaf(p, partial[q], indices) else FromHalves(p, partial, q, r, indices)
  }

  predicate FromLeaf(p: Equihash, t: nat, indices: seq<nat>)
    requires p.Valid()
  {
    |indices| == 1 && Truncate(p, indices[0]) == t
  }

  ghost predicate FromHalves(p: Equihash, partial: seq<nat>, q: nat, r: nat, indices: seq<nat>)
    requires p.Valid() && IsPartial(p, partial) && 0 < r <= p.K && q < Pow2(p.K - r) && |indices| == Pow2(r)
    decreases r - 1, 2
  {
    && Filled(p, partial, 2 * q, r - 1) && Filled(p, partial, 2 * q + 1, r - 1)
    && InEither(p, partial, q, r - 1, indices[..Pow2(r - 1)]) && InEither(p, partial, q, r - 1, indices[Pow2(r - 1)..])
    && Branching(p, BranchRound(p, partial, q, r - 1).rule, indices[0], indices[Pow2(r - 1)])
  }

  ghost predicate Filled(p: Equihash, partial: seq<nat>, q: nat, r: nat)
    requires p.Valid() && IsPartial(p, partial) && r <= p.K && q < Pow2(p.K - r)
    decreases r, 1
  {
    exists ix {:trigger Buildable(p, partial, q, r, ix)} :: Buildable(p, partial, q, r, ix)
  }

  ghost predicate InEither(p: Equihash, partial: seq<nat>, q: nat, r: nat, indices: seq<nat>)
    requires p.Valid() && IsPartial(p, partial) && r < p.K && q < Pow2(p.K - r - 1)
    decreases r, 1
  {
    Buildable(p, partial, 2 * q, r, indices) || Buildable(p, partial, 2 * q + 1, r, indices)
  }

  /** Indices i and j truncate to the two branch starts, in one order or the other. */
  predicate Branching(p: Equihash, rule: Rule, i: nat, j: nat)
    requires p.Valid() && rule.Branches?
  {
    (Truncate(p, i) == rule.lt && Truncate(p, j) == rule.rt) || (Truncate(p, j) == rule.lt && Truncate(p, i) == rule.rt)
  }

  ghost predicate BlockHas(p: Equihash, partial: seq<nat>, q: nat, r: nat, x: Row)
    requires p.Valid() && IsPartial(p, partial) && r <= p.K && q < Pow2(p.K - r)
  {
    Block(p, partial, q, r).Some? && x in Block(p, partial, q, r).value
  }

  /** A row is in a block exactly if it is the row of a tree that can be built there. */
  lemma {:induction false} BlockHolds(p: Equihash, partial: seq<nat>, q: nat, r: nat, x: Row)
    requires p.Valid() && IsPartial(p, partial) && r <= p.K && q < Pow2(p.K - r)
    ensures BlockHas(p, partial, q, r, x) <==> Buildable(p, partial, q, r, x.indices) && p.TreeRow(x.indices, r) == Some(x)
    decreases r, 1
  {
    hide *;
    if r == 0 { LeafBlockHolds(p, partial, q, x); } else { NodeBlockHolds(p, partial, q, r - 1, x); }
  }

  lemma LeafBlockHolds(p: Equihash, partial: seq<nat>, q: nat, x: Row)
    requires p.Valid() && IsPartial(p, partial) && q < Pow2(p.K)
    ensures BlockHas(p, partial, q, 0, x) <==> Buildable(p, partial, q, 0, x.indices) && p.TreeRow(x.indices, 0) == Some(x)
  {
    hide Equihash.Valid, Equihash.LeafRow;
    var t := partial[q];
    RecreateSizeIs(p);
    if x in Candidates(p, t, RecreateSize(p)) {
      CandidateIsLeaf(p, t, RecreateSize(p), x);
      CandidateTruncates(p, t, RecreateSize(p), x);
    }
    if Buildable(p, partial, q, 0, x.indices) { LeafComplete(p, t, x.indices[0]); }
  }

  lemma {:induction false} CandidateTruncates(p: Equihash, t: nat, n: nat, row: Row)
    requires p.Valid() && t < 256 && n <= Pow2(p.IndexBits() - 8) && row in Candidates(p, t, n)
    ensures FromLeaf(p, t, row.indices)
  {
    hide Equihash.LeafRow;
    if row in Candidates(p, t, n - 1) {
      CandidateTruncates(p, t, n - 1, row);
    } else {
      Untruncated(t, n - 1, p.IndexBits());
      Truncated(t, n - 1, p.IndexBits());
    }
  }

  lemma {:induction false} NodeBlockHolds(p: Equihash, partial: seq<nat>, q: nat, r: nat, x: Row)
    requires p.Valid() && IsPartial(p, partial) && r < p.K && q < Pow2(p.K - r - 1)
    ensures BlockHas(p, partial, q, r + 1, x) <==> Buildable(p, partial, q, r + 1, x.indices) && p.TreeRow(x.indices, r + 1) == Some(x)
    decreases r, 4
  {
    hide BlockHas, Buildable, Equihash.Valid, Equihash.TreeRow, IsPartial, Pow2;
    if BlockHas(p, partial, q, r + 1, x) { NodeSound(p, partial, q, r, x); }
    if Buildable(p, partial, q, r + 1, x.indices) {
      BuildablePasses(p, partial, q, r + 1, x.indices);
      if p.TreeRow(x.indices, r + 1) == Some(x) { NodeComplete(p, partial, q, r, x); }
    }
  }

  /** Some pair of rows of the two halves gives row x of a block. */
  lemma NodePair(p: Equihash, partial: seq<nat>, q: nat, r: nat, x: Row) returns (a: Row, b: Row)
    requires p.Valid() && IsPartial(p, partial) && r < p.K && q < Pow2(p.K - r - 1) && BlockHas(p, partial, q, r + 1, x)
    ensures Block(p, partial, 2 * q, r).Some? && Block(p, partial, 2 * q + 1, r).Some?
    ensures BlockHas(p, partial, 2 * q, r, a) || BlockHas(p, partial, 2 * q + 1, r, a)
    ensures BlockHas(p, partial, 2 * q, r, b) || BlockHas(p, partial, 2 * q + 1, r, b)
    ensures Alike(a, b) && |a.hash| == p.HashLen(r) && |a.indices| == Pow2(r) && p.CollisionByteLength() <= |a.hash|
    ensures HasCollision(a, b, p.CollisionByteLength()) && DistinctIndices(a, b) && x == Merge(a, b, p.CollisionByteLength())
    ensures Branching(p, BranchRound(p, partial, q, r).rule, a.indices[0], b.indices[0])
  {
    hide Equihash.Valid, Round.Pairs, Round.Emit, Merge, Start, TruncateIndex, DistinctIndices, Equihash.HashLen, Pow2;
    Doubling(p.K - r);
    var s := BranchRound(p, partial, q, r);
    var X := Block(p, partial, 2 * q + 1, r).value + Block(p, partial, 2 * q, r).value;
    var l, m := PairsFrom(s, X, x);
    a, b := X[l], X[m];
    BranchPair(p, s, a, b, x);
  }

  lemma BranchPair(p: Equihash, s: Round, a: Row, b: Row, x: Row)
    requires p.Valid() && s.Ok() && s.rule.Branches? && s.rule.ilen == p.IndexBits() && s.Fits(a) && s.Fits(b) && x in s.Emit(a, b)
    ensures DistinctIndices(a, b) && x == Merge(a, b, s.trim) && Branching(p, s.rule, a.indices[0], b.indices[0])
  {
    hide Merge, TruncateIndex, DistinctIndices;
    MergeSymmetric(a, b, s.trim);
  }

  /** The row of a tree that can be built in the block. */
  ghost predicate BuiltRow(p: Equihash, partial: seq<nat>, q: nat, r: nat, x: Row)
    requires p.Valid() && IsPartial(p, partial) && r <= p.K && q < Pow2(p.K - r)
  {
    Buildable(p, partial, q, r, x.indices) && p.TreeRow(x.indices, r) == Some(x)
  }

  lemma {:induction false} NodeSound(p: Equihash, partial: seq<nat>, q: nat, r: nat, x: Row)
    requires p.Valid() && IsPartial(p, partial) && r < p.K && q < Pow2(p.K - r - 1) && BlockHas(p, partial, q, r + 1, x)
    ensures BuiltRow(p, partial, q, r + 1, x)
    decreases r, 3
  {
    hide Buildable, Equihash.Valid, Block, Equihash.TreeRow, BlockHas, Pow2, IsPartial, BranchRound, Merge, DistinctIndices, Branching;
    Doubling(p.K - r);
    var a, b := NodePair(p, partial, q, r, x);
    BlockHolds(p, partial, 2 * q, r, a);
    BlockHolds(p, partial, 2 * q + 1, r, a);
    BlockHolds(p, partial, 2 * q, r, b);
    BlockHolds(p, partial, 2 * q + 1, r, b);
    SomeFilled(p, partial, 2 * q, r);
    SomeFilled(p, partial, 2 * q + 1, r);
    PairBuilt(p, partial, q, r, a, b, x);
  }

  lemma {:induction false} SomeFilled(p: Equihash, partial: seq<nat>, q: nat, r: nat)
    requires p.Valid() && IsPartial(p, partial) && r <= p.K && q < Pow2(p.K - r) && Block(p, partial, q, r).Some?
    ensures Filled(p, partial, q, r)
    decreases r, 2
  {
    hide Buildable, Equihash.Valid, Block, Equihash.TreeRow;
    var x := SomeRow(p, partial, q, r);
    BlockHolds(p, partial, q, r, x);
  }

  /** A block that is there is not empty. */
  lemma SomeRow(p: Equihash, partial: seq<nat>, q: nat, r: nat) returns (x: Row)
    requires p.Valid() && IsPartial(p, partial) && r <= p.K && q < Pow2(p.K - r) && Block(p, partial, q, r).Some?
    ensures BlockHas(p, partial, q, r, x)
  {
    hide Round.Pairs, Equihash.LeafRow, Equihash.Valid;
    RecreateSizeIs(p);
    x := Block(p, partial, q, r).value[0];
  }

  lemma PairBuilt(p: Equihash, partial: seq<nat>, q: nat, r: nat, a: Row, b: Row, x: Row)
    requires p.Valid() && IsPartial(p, partial) && r < p.K && q < Pow2(p.K - r - 1)
    requires Filled(p, partial, 2 * q, r) && Filled(p, partial, 2 * q + 1, r)
    requires InEither(p, partial, q, r, a.indices) && InEither(p, partial, q, r, b.indices)
    requires Alike(a, b) && p.CollisionByteLength() <= |a.hash| && |a.indices| == Pow2(r)
    requires p.TreeRow(a.indices, r) == Some(a) && p.TreeRow(b.indices, r) == Some(b)
    requires HasCollision(a, b, p.CollisionByteLength()) && DistinctIndices(a, b) && x == Merge(a, b, p.CollisionByteLength())
    requires Branching(p, BranchRound(p, partial, q, r).rule, a.indices[0], b.indices[0])
    ensures Buildable(p, partial, q, r + 1, x.indices) && p.TreeRow(x.indices, r + 1) == Some(x)
  {
    hide Filled, Buildable, FromHalves, InEither, Branching, InTree;
    hide Equihash.TreeRow, Equihash.Valid, BranchRound, Truncate, Pow2, DistinctIndices, HasCollision, Merge;
    EitherPasses(p, partial, q, r, a);
    EitherPasses(p, partial, q, r, b);
    PairIsTree(p, r, a, b);
    MergedHalves(a, b, x, p.CollisionByteLength());
    PairFromHalves(p, partial, q, r, a.indices, b.indices, x.indices);
    TreePasses(p, x, r + 1);
    BuiltNode(p, partial, q, r + 1, x.indices);
  }

  lemma TreePasses(p: Equihash, x: Row, r: nat)
    requires p.Valid() && r <= p.K && InTree(p, x, r)
    ensures Passing(p, x.indices, r) && |x.indices| == Pow2(r) && p.TreeRow(x.indices, r) == Some(x)
  {
    hide Equihash.TreeRow, Equihash.Valid;
  }

  lemma PairFromHalves(p: Equihash, partial: seq<nat>, q: nat, r: nat, a: seq<nat>, b: seq<nat>, x: seq<nat>)
    requires p.Valid() && IsPartial(p, partial) && r < p.K && q < Pow2(p.K - r - 1)
    requires Filled(p, partial, 2 * q, r) && Filled(p, partial, 2 * q + 1, r)
    requires InEither(p, partial, q, r, a) && InEither(p, partial, q, r, b) && |a| == |b| == Pow2(r) && |x| == |a| + |b|
    requires (x[..|a|] == a && x[|a|..] == b) || (x[..|a|] == b && x[|a|..] == a)
    requires x[0] == x[..|a|][0] && x[|a|] == x[|a|..][0]
    requires Branching(p, BranchRound(p, partial, q, r).rule, a[0], b[0])
    ensures |x| == Pow2(r + 1) && FromHalves(p, partial, q, r + 1, x)
  {
    hide Filled, InEither, Equihash.Valid, BranchRound, Truncate, Pow2;
    Doubling(r + 1);
  }

  lemma EitherPasses(p: Equihash, partial: seq<nat>, q: nat, r: nat, a: Row)
    requires p.Valid() && IsPartial(p, partial) && r < p.K && q < Pow2(p.K - r - 1) && |a.indices| == Pow2(r)
    requires InEither(p, partial, q, r, a.indices) && p.TreeRow(a.indices, r) == Some(a)
    ensures InTree(p, a, r)
  {
    hide FromHalves, Equihash.TreeRow, Equihash.Valid;
  }

  /** A merged list begins with one of the two lists and ends with the other. */
  lemma MergedHalves(a: Row, b: Row, x: Row, trim: nat)
    requires Alike(a, b) && |a.indices| > 0 && trim <= |a.hash| && x == Merge(a, b, trim)
    ensures var n := |a.indices|;
            |x.indices| == n + n && x.indices[0] == x.indices[..n][0] && x.indices[n] == x.indices[n..][0] &&
            ((x.indices[..n] == a.indices && x.indices[n..] == b.indices) || (x.indices[..n] == b.indices && x.indices[n..] == a.indices))
  {}

  lemma BuiltNode(p: Equihash, partial: seq<nat>, q: nat, r: nat, indices: seq<nat>)
    requires p.Valid() && IsPartial(p, partial) && 0 < r <= p.K && q < Pow2(p.K - r)
    requires Passing(p, indices, r) && FromHalves(p, partial, q, r, indices)
    ensures Buildable(p, partial, q, r, indices)
  {
    hide FromHalves, Equihash.TreeRow, Equihash.Valid;
  }

  lemma {:induction false} NodeComplete(p: Equihash, partial: seq<nat>, q: nat, r: nat, x: Row)
    requires p.Valid() && IsPartial(p, partial) && r < p.K && q < Pow2(p.K - r - 1)
    requires Buildable(p, partial, q, r + 1, x.indices) && p.TreeRow(x.indices, r + 1) == Some(x)
    ensures BlockHas(p, partial, q, r + 1, x)
    decreases r, 3
  {
    hide Buildable, Equihash.Valid, Equihash.TreeRow, Equihash.HashLen, BlockHas, Pow2, IsPartial, BranchRound, Merge, DistinctIndices, Block;
    hide Branching, HasCollision, Filled, Before, EitherHas;
    Doubling(p.K - r);
    Doubling(r + 1);
    BuiltFromHalves(p, partial, q, r, x.indices);
    var a, b := TreeHalves(p, x.indices, r + 1);
    FilledBlock(p, partial, 2 * q, r);
    FilledBlock(p, partial, 2 * q + 1, r);
    BlockHolds(p, partial, 2 * q, r, a);
    BlockHolds(p, partial, 2 * q + 1, r, a);
    BlockHolds(p, partial, 2 * q, r, b);
    BlockHolds(p, partial, 2 * q + 1, r, b);
    OneHas(p, partial, q, r, a);
    OneHas(p, partial, q, r, b);
    HalvesMerged(p, partial, q, r, a, b);
  }

  lemma OneHas(p: Equihash, partial: seq<nat>, q: nat, r: nat, x: Row)
    requires p.Valid() && IsPartial(p, partial) && r < p.K && q < Pow2(p.K - r - 1) && 2 * q + 1 < Pow2(p.K - r)
    requires Block(p, partial, 2 * q, r).Some? && Block(p, partial, 2 * q + 1, r).Some?
    requires BlockHas(p, partial, 2 * q, r, x) || BlockHas(p, partial, 2 * q + 1, r, x)
    ensures EitherHas(p, partial, q, r, x)
  {
    hide Equihash.Valid, Block, IsPartial;
  }

  lemma BuiltFromHalves(p: Equihash, partial: seq<nat>, q: nat, r: nat, indices: seq<nat>)
    requires p.Valid() && IsPartial(p, partial) && r < p.K && q < Pow2(p.K - r - 1) && Buildable(p, partial, q, r + 1, indices)
    ensures |indices| == Pow2(r + 1) && p.TreeRow(indices, r + 1).Some? && FromHalves(p, partial, q, r + 1, indices)
  {
    hide FromHalves, Equihash.TreeRow, Equihash.Valid;
  }

  lemma {:induction false} FilledBlock(p: Equihash, partial: seq<nat>, q: nat, r: nat)
    requires p.Valid() && IsPartial(p, partial) && r <= p.K && q < Pow2(p.K - r) && Filled(p, partial, q, r)
    ensures Block(p, partial, q, r).Some?
    decreases r, 2
  {
    hide Buildable, Equihash.Valid, Block, Equihash.TreeRow;
    var ix :| Buildable(p, partial, q, r, ix);
    BuildablePasses(p, partial, q, r, ix);
    BlockHolds(p, partial, q, r, p.TreeRow(ix, r).value);
  }

  lemma BuildablePasses(p: Equihash, partial: seq<nat>, q: nat, r: nat, indices: seq<nat>)
    requires p.Valid() && IsPartial(p, partial) && r <= p.K && q < Pow2(p.K - r) && Buildable(p, partial, q, r, indices)
    ensures |indices| == Pow2(r) && p.InRange(indices) && p.TreeRow(indices, r).Some?
    ensures p.TreeRow(indices, r).value.indices == indices
  {
    hide FromHalves, FromLeaf, Equihash.Valid;
  }

  /** Both halves of a block of level r + 1 are there, and one of them has the row. */
  predicate EitherHas(p: Equihash, partial: seq<nat>, q: nat, r: nat, x: Row)
    requires p.Valid() && IsPartial(p, partial) && r < p.K && q < Pow2(p.K - r - 1)
  {
    Doubling(p.K - r);
    var left, right := Block(p, partial, 2 * q, r), Block(p, partial, 2 * q + 1, r);
    left.Some? && right.Some? && (x in left.value || x in right.value)
  }

  /** Two rows of sibling blocks that pass the pair checks and the branch checks are merged. */
  lemma HalvesMerged(p: Equihash, partial: seq<nat>, q: nat, r: nat, a: Row, b: Row)
    requires p.Valid() && IsPartial(p, partial) && r < p.K && q < Pow2(p.K - r - 1)
    requires EitherHas(p, partial, q, r, a) && EitherHas(p, partial, q, r, b)
    requires Alike(a, b) && |a.hash| == p.HashLen(r) && |a.indices| == Pow2(r) && p.CollisionByteLength() <= |a.hash|
    requires HasCollision(a, b, p.CollisionByteLength()) && DistinctIndices(a, b)
    requires Branching(p, BranchRound(p, partial, q, r).rule, a.indices[0], b.indices[0])
    ensures BlockHas(p, partial, q, r + 1, Merge(a, b, p.CollisionByteLength()))
  {
    hide Equihash.Valid, Start, TruncateIndex;
    var s := BranchRound(p, partial, q, r);
    var X := Block(p, partial, 2 * q + 1, r).value + Block(p, partial, 2 * q, r).value;
    MergeSymmetric(a, b, s.trim);
    DistinctDiffer(a, b);
    PairPresent(s, X, a, b, Merge(a, b, s.trim));
  }
}
