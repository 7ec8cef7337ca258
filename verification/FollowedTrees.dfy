/** What the rebuild makes of a tree of rows that the truncated rounds find, said of that tree itself:
    its truncated list, which is ordered anew at every node, is not needed. */
module FollowedTrees {
  import opened Bits
  import opened Words
  import opened BitPacking
  import opened StepRows
  import opened CollisionRounds
  import opened EquihashTree
  import opened Wrappers
  import opened BasicSolver
  import opened TruncatedTables
  import opened Rebuild
  import opened OptimisedSolver
  import opened OptimisedTheorems
  import opened TruncatedLists

  /** The tree passes the checks and is followed by tree t: every half of t follows a half of it, both
      of its halves are followed by some tree, and the first indices of the halves of t truncate to
      the first entries of the lists of its own halves. */
  ghost predicate Follows(p: Equihash, tree: seq<nat>, t: seq<nat>, r: nat)
    requires p.Valid() && r <= p.K && |tree| == Pow2(r)
    decreases r, 0
  {
    Passing(p, t, r) && if r == 0 then Truncate(p, t[0]) == Truncate(p, tree[0]) else HalvesFollow(p, tree, t, r)
  }

  ghost predicate HalvesFollow(p: Equihash, tree: seq<nat>, t: seq<nat>, r: nat)
    requires p.Valid() && 0 < r <= p.K && |tree| == Pow2(r) && |t| == Pow2(r)
    decreases r - 1, 2
  {
    var L, R := tree[..Pow2(r - 1)], tree[Pow2(r - 1)..];
    && Followed(p, L, r - 1) && Followed(p, R, r - 1)
    && FollowsEither(p, tree, t[..Pow2(r - 1)], r) && FollowsEither(p, tree, t[Pow2(r - 1)..], r)
    && StartAs(p, FirstEntry(p, L, r - 1), FirstEntry(p, R, r - 1), t[0], t[Pow2(r - 1)])
  }

  ghost predicate Followed(p: Equihash, tree: seq<nat>, r: nat)
    requires p.Valid() && r <= p.K && |tree| == Pow2(r)
    decreases r, 1
  {
    exists t {:trigger Follows(p, tree, t, r)} :: Follows(p, tree, t, r)
  }

  ghost predicate FollowsEither(p: Equihash, tree: seq<nat>, t: seq<nat>, r: nat)
    requires p.Valid() && 0 < r <= p.K && |tree| == Pow2(r)
    decreases r - 1, 1
  {
    Follows(p, tree[..Pow2(r - 1)], t, r - 1) || Follows(p, tree[Pow2(r - 1)..], t, r - 1)
  }

  function FirstEntry(p: Equihash, tree: seq<nat>, r: nat): nat
    requires p.Valid() && r <= p.K && |tree| == Pow2(r)
  {
    TruncatedTree(p, tree, r).indices[0]
  }

  predicate StartAs(p: Equihash, lt: nat, rt: nat, i: nat, j: nat)
    requires p.Valid()
  {
    (Truncate(p, i) == lt && Truncate(p, j) == rt) || (Truncate(p, j) == lt && Truncate(p, i) == rt)
  }

  /** Block q of the list holds the truncated list of the tree. */
  ghost predicate Lists(p: Equihash, partial: seq<nat>, q: nat, r: nat, tree: seq<nat>)
    requires p.Valid() && IsPartial(p, partial) && r <= p.K && |tree| == Pow2(r)
  {
    q < Pow2(p.K - r) && Start(q, r) + Pow2(r) <= |partial|
    && TruncatedTree(p, tree, r).indices == partial[Start(q, r)..Start(q, r) + Pow2(r)]
  }

  /** The halves of the block hold the lists of x and y, which begin with the two branch starts. */
  ghost predicate Sides(p: Equihash, partial: seq<nat>, q: nat, r: nat, x: seq<nat>, y: seq<nat>)
    requires p.Valid() && IsPartial(p, partial) && r < p.K && q < Pow2(p.K - r - 1) && |x| == |y| == Pow2(r)
  {
    var rule := BranchRound(p, partial, q, r).rule;
    && Lists(p, partial, 2 * q, r, x) && Lists(p, partial, 2 * q + 1, r, y)
    && FirstEntry(p, x, r) == rule.lt && FirstEntry(p, y, r) == rule.rt
  }

  lemma SidesAre(p: Equihash, partial: seq<nat>, q: nat, r: nat, x: seq<nat>, y: seq<nat>)
    requires p.Valid() && IsPartial(p, partial) && r < p.K && q < Pow2(p.K - r - 1) && |x| == |y| == Pow2(r)
    requires Start(q, r + 1) + Pow2(r + 1) <= |partial|
    requires TruncatedTree(p, x, r).indices + TruncatedTree(p, y, r).indices == partial[Start(q, r + 1)..Start(q, r + 1) + Pow2(r + 1)]
    ensures Sides(p, partial, q, r, x, y)
  {
    hide Equihash.Valid, Pow2, TruncatedTree, Start;
    var whole := partial[Start(q, r + 1)..Start(q, r + 1) + Pow2(r + 1)];
    SplitBlock(partial, p.K, q, r + 1, whole, TruncatedTree(p, x, r).indices, TruncatedTree(p, y, r).indices);
  }

  /** The lists of its halves are in the halves of the block, in one order or the other. */
  lemma HalvesListed(p: Equihash, partial: seq<nat>, q: nat, r: nat, x: seq<nat>, y: seq<nat>)
    requires p.Valid() && IsPartial(p, partial) && r < p.K && |x| == |y| == Pow2(r) && |x + y| == Pow2(r + 1)
    requires Lists(p, partial, q, r + 1, x + y)
    ensures q < Pow2(p.K - r - 1) && (Sides(p, partial, q, r, x, y) || Sides(p, partial, q, r, y, x))
  {
    hide Equihash.Valid, Pow2, Before, TruncatedTree, Start, Sides;
    var tree := x + y;
    assert tree[..Pow2(r)] == x && tree[Pow2(r)..] == y;
    var v, w := TruncatedHalves(p, tree, r + 1);
    if Before(v, w) { SidesAre(p, partial, q, r, x, y); } else { SidesAre(p, partial, q, r, y, x); }
  }

  /** A tree can be built in a block exactly if it follows the tree whose list is there. */
  lemma {:induction false} BuiltFollows(p: Equihash, partial: seq<nat>, q: nat, r: nat, tree: seq<nat>, t: seq<nat>)
    requires p.Valid() && IsPartial(p, partial) && r <= p.K && |tree| == Pow2(r) && Lists(p, partial, q, r, tree)
    ensures q < Pow2(p.K - r) && (Buildable(p, partial, q, r, t) <==> Follows(p, tree, t, r))
    decreases r, 1
  {
    hide Equihash.Valid, Equihash.TreeRow, TruncatedTree, Truncate, FromHalves, HalvesFollow, Pow2, Start;
    if r == 0 {
      SinglePower();
      LeafTruncation(p, tree);
      assert Start(q, 0) == q by { StartLeaf(q); }
      assert partial[q..q + 1][0] == partial[q];
    } else if Passing(p, t, r) {
      BuiltHalves(p, partial, q, r, tree, t);
    }
  }

  lemma StartLeaf(q: nat)
    ensures Start(q, 0) == q
  {}

  lemma {:induction false} BuiltHalves(p: Equihash, partial: seq<nat>, q: nat, r: nat, tree: seq<nat>, t: seq<nat>)
    requires p.Valid() && IsPartial(p, partial) && 0 < r <= p.K && |tree| == Pow2(r) == |t| && Lists(p, partial, q, r, tree)
    requires q < Pow2(p.K - r)
    ensures FromHalves(p, partial, q, r, t) <==> HalvesFollow(p, tree, t, r)
    decreases r, 0
  {
    hide Equihash.Valid, Equihash.TreeRow, TruncatedTree, Truncate, Pow2, Start, Buildable, Follows, Sides, FirstEntry, IsPartial;
    hide Filled, Followed, Lists, BranchRound;
    Doubling(r);
    var L, R := tree[..Pow2(r - 1)], tree[Pow2(r - 1)..];
    assert tree == L + R;
    HalvesListed(p, partial, q, r - 1, L, R);
    if Sides(p, partial, q, r - 1, L, R) { SidesBuilt(p, partial, q, r - 1, L, R); } else { SidesBuilt(p, partial, q, r - 1, R, L); }
    var x, y := t[..Pow2(r - 1)], t[Pow2(r - 1)..];
    assert InEither(p, partial, q, r - 1, x) <==> FollowsEither(p, tree, x, r);
    assert InEither(p, partial, q, r - 1, y) <==> FollowsEither(p, tree, y, r);
  }

  lemma {:induction false} SidesBuilt(p: Equihash, partial: seq<nat>, q: nat, r: nat, x: seq<nat>, y: seq<nat>)
    requires p.Valid() && IsPartial(p, partial) && r < p.K && q < Pow2(p.K - r - 1) && |x| == |y| == Pow2(r)
    requires Sides(p, partial, q, r, x, y)
    ensures var rule := BranchRound(p, partial, q, r).rule; FirstEntry(p, x, r) == rule.lt && FirstEntry(p, y, r) == rule.rt
    ensures 2 * q + 1 < Pow2(p.K - r)
    ensures forall t :: (Buildable(p, partial, 2 * q, r, t) <==> Follows(p, x, t, r)) && (Buildable(p, partial, 2 * q + 1, r, t) <==> Follows(p, y, t, r))
    ensures (Filled(p, partial, 2 * q, r) <==> Followed(p, x, r)) && (Filled(p, partial, 2 * q + 1, r) <==> Followed(p, y, r))
    decreases r, 3
  {
    hide Equihash.Valid, TruncatedTree, Pow2, Start, Buildable, Follows, IsPartial, Filled, Followed;
    AllBuilt(p, partial, 2 * q, r, x);
    AllBuilt(p, partial, 2 * q + 1, r, y);
  }

  lemma {:induction false} AllBuilt(p: Equihash, partial: seq<nat>, q: nat, r: nat, tree: seq<nat>)
    requires p.Valid() && IsPartial(p, partial) && r <= p.K && |tree| == Pow2(r) && Lists(p, partial, q, r, tree)
    ensures q < Pow2(p.K - r) && forall t :: Buildable(p, partial, q, r, t) <==> Follows(p, tree, t, r)
    ensures Filled(p, partial, q, r) <==> Followed(p, tree, r)
    decreases r, 2
  {
    hide Equihash.Valid, Equihash.TreeRow, TruncatedTree, Truncate, Pow2, Start, Buildable, Follows, Passing;
    forall t ensures Buildable(p, partial, q, r, t) <==> Follows(p, tree, t, r) { BuiltFollows(p, partial, q, r, tree, t); }
  }

  /** The truncated rounds find a tree of rows that t follows. */
  ghost predicate FollowsFound(p: Equihash, found: seq<nat>, t: seq<nat>)
    requires p.Valid()
  {
    Found(p, found) && Follows(p, found, t, p.K)
  }

  /** A byte string is handed out exactly if it passes the per-level checks and its tree follows some
      tree of rows that the truncated rounds find. */
  lemma ReachedFollows(p: Equihash, soln: seq<byte>)
    requires p.Valid()
    ensures soln in Reached(p) <==> p.PassesLevels(soln) && exists found :: FollowsFound(p, found, p.IndicesOf(soln))
  {
    hide Equihash.Valid, Equihash.TreeRow, RebuiltVia, FollowsFound, Reached;
    ReachedExactly(p, soln);
    forall found | p.PassesLevels(soln) ensures RebuiltVia(p, found, p.IndicesOf(soln)) <==> FollowsFound(p, found, p.IndicesOf(soln)) {
      TopFollows(p, found, p.IndicesOf(soln));
    }
  }

  lemma TopFollows(p: Equihash, found: seq<nat>, t: seq<nat>)
    requires p.Valid()
    ensures RebuiltVia(p, found, t) <==> FollowsFound(p, found, t)
  {
    hide Equihash.Valid, Equihash.TreeRow, Follows, TruncatedTree, Buildable, Pow2, PartialRows, Survives, IsZero;
    if Found(p, found) {
      var row := FoundIsPartial(p, found);
      PartialsArePartial(p, PartialRows(p));
      var k :| 0 <= k < |PartialRows(p)| && PartialRows(p)[k] == row;
      StartZero(p.K);
      assert row.indices[0..Pow2(p.K)] == row.indices;
      SinglePower();
      BuiltFollows(p, row.indices, 0, p.K, found, t);
    }
  }
}
