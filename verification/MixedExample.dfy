/** A solution that is handed out although no tree that the truncated rounds find has its truncated
    list: where two halves of a list start alike, the rebuild also joins two trees of one half. */
module MixedExample {
  import opened Bits
  import opened Words
  import opened BitPacking
  import opened StepRows
  import opened CollisionRounds
  import opened EquihashTree
  import opened Wrappers
  import opened BasicSolver
  import opened TruncatedTables
  import opened Rebuild
  import opened OptimisedSolver
  import opened OptimisedTheorems
  import opened TruncatedLists
  import opened LeafValues
  import opened MissedExample

  // ---------- lists of two, four and eight indices ----------

  lemma Powers()
    ensures Pow2(0) == 1 && Pow2(1) == 2 && Pow2(2) == 4 && Pow2(3) == 8
  {}

  lemma TwoList(p: Equihash, ix: seq<nat>)
    requires p.Valid() && |ix| == 2 && Truncate(p, ix[0]) < Truncate(p, ix[1])
    ensures Pow2(1) == 2 && 1 <= p.K && TruncatedTree(p, ix, 1).indices == Truncations(p, ix)
  {
    hide Equihash.Valid, TruncatedTree, Truncate, Pow2;
    Powers();
    KAtLeast3(p);
    var x, y := TruncatedHalves(p, ix, 1);
    LeafTruncation(p, ix[..1]);
    LeafTruncation(p, ix[1..]);
  }

  lemma FourList(p: Equihash, ix: seq<nat>)
    requires p.Valid() && |ix| == 4
    requires Truncate(p, ix[0]) < Truncate(p, ix[1]) && Truncate(p, ix[2]) < Truncate(p, ix[3])
    requires Truncate(p, ix[0]) < Truncate(p, ix[2]) || (Truncate(p, ix[0]) == Truncate(p, ix[2]) && Truncate(p, ix[1]) <= Truncate(p, ix[3]))
    ensures Pow2(2) == 4 && 2 <= p.K && TruncatedTree(p, ix, 2).indices == Truncations(p, ix)
  {
    hide Equihash.Valid, TruncatedTree, Truncate, Pow2;
    Powers();
    KAtLeast3(p);
    var x, y := TruncatedHalves(p, ix, 2);
    TwoList(p, ix[..2]);
    TwoList(p, ix[2..]);
    assert x == [Truncate(p, ix[0]), Truncate(p, ix[1])] && y == [Truncate(p, ix[2]), Truncate(p, ix[3])];
    PairOrder(x, y);
    TruncationsSplit(p, ix, 2);
  }

  lemma PairOrder(x: seq<nat>, y: seq<nat>)
    requires |x| == |y| == 2 && (x[0] < y[0] || (x[0] == y[0] && x[1] <= y[1]))
    ensures Before(x, y) || x == y
  {
    assert x[1..] == [x[1]] && y[1..] == [y[1]];
  }

  lemma EightList(p: Equihash, ix: seq<nat>)
    requires p.Valid() && |ix| == 8 && Truncate(p, ix[0]) < Truncate(p, ix[4])
    requires |ix[..4]| == |ix[4..]| == Pow2(2) && 2 <= p.K
    requires TruncatedTree(p, ix[..4], 2).indices == Truncations(p, ix[..4])
    requires TruncatedTree(p, ix[4..], 2).indices == Truncations(p, ix[4..])
    ensures Pow2(3) == 8 && 3 <= p.K && TruncatedTree(p, ix, 3).indices == Truncations(p, ix)
  {
    hide Equihash.Valid, TruncatedTree, Truncate, Pow2;
    Powers();
    KAtLeast3(p);
    var x, y := TruncatedHalves(p, ix, 3);
    BeforeFirst(x, y);
    TruncationsSplit(p, ix, 4);
  }

  // ---------- the two trees ----------

  /** Indices that truncate to 0 1 0 2 3 4 5 6. */
  function Plain(S: nat): (ix: seq<nat>)
    ensures |ix| == 8
  {
    [0, S, 1, 2 * S, 3 * S, 4 * S, 5 * S, 6 * S]
  }

  /** The same with two trees of the first pair's truncation: 0 1 0 1 3 4 5 6. */
  function Mixed(S: nat): (ix: seq<nat>)
    ensures |ix| == 8
  {
    [0, S, 1, S + 1, 3 * S, 4 * S, 5 * S, 6 * S]
  }

  lemma TruncateTo(p: Equihash, t: nat, r: nat)
    requires p.Valid() && p.InitSize() == 256 * Stride(p) && t < 256 && r < Stride(p)
    ensures t * Stride(p) + r < p.InitSize() && Truncate(p, t * Stride(p) + r) == t
  {
    hide Equihash.Valid, Truncate;
    MulMono(t + 1, 256, Stride(p));
    TruncateBelow(p, t * Stride(p) + r);
    QuotRemUnique(t * Stride(p) + r, Stride(p), t, r);
  }

  lemma ZeroSizes(N: nat)
    requires Sizes(N, 3)
    ensures var p := AllZero(N, 3); p.Valid() && p.K == 3 && Stride(p) >= 2 && p.InitSize() == 256 * Stride(p)
  {
    Pow2Add(8, N / (3 + 1) + 1 - 8);
    Pow2Values();
  }

  lemma ListsInRange(N: nat)
    requires Sizes(N, 3)
    ensures var p := AllZero(N, 3); var S := Stride(p);
            && p.InRange(Plain(S)) && Truncations(p, Plain(S)) == [0, 1, 0, 2, 3, 4, 5, 6]
            && p.InRange(Mixed(S)) && Truncations(p, Mixed(S)) == [0, 1, 0, 1, 3, 4, 5, 6]
  {
    hide AllZero, Truncate;
    ZeroSizes(N);
    var p := AllZero(N, 3);
    var S := Stride(p);
    TruncateTo(p, 0, 0);
    TruncateTo(p, 0, 1);
    TruncateTo(p, 1, 0);
    TruncateTo(p, 1, 1);
    forall t | 2 <= t <= 6 ensures t * S < p.InitSize() && Truncate(p, t * S) == t { TruncateTo(p, t, 0); }
    assert 2 * S < p.InitSize() && 3 * S < p.InitSize() && 4 * S < p.InitSize() && 5 * S < p.InitSize() && 6 * S < p.InitSize();
  }

  lemma ListsOrdered(S: nat)
    requires S >= 2
    ensures Pow2(3) == 8 && Ordered(Plain(S), 3) && NoRepeats(Plain(S)) && Ordered(Mixed(S), 3) && NoRepeats(Mixed(S))
  {
    Powers();
    EightOrdered(Plain(S));
    EightOrdered(Mixed(S));
  }

  lemma EightOrdered(ix: seq<nat>)
    requires |ix| == 8 && ix[0] < ix[1] && ix[2] < ix[3] && ix[4] < ix[5] && ix[6] < ix[7] && ix[0] < ix[2] && ix[4] < ix[6] && ix[0] < ix[4]
    ensures Pow2(3) == 8 && Ordered(ix, 3)
  {
    Powers();
    FourOrdered(ix[..4]);
    FourOrdered(ix[4..]);
  }

  lemma FourOrdered(ix: seq<nat>)
    requires |ix| == 4 && ix[0] < ix[1] && ix[2] < ix[3] && ix[0] < ix[2]
    ensures Pow2(2) == 4 && Ordered(ix, 2)
  {
    Powers();
    TwoOrdered(ix[..2]);
    TwoOrdered(ix[2..]);
  }

  lemma TwoOrdered(ix: seq<nat>)
    requires |ix| == 2 && ix[0] < ix[1]
    ensures Pow2(1) == 2 && Ordered(ix, 1)
  {
    Powers();
    assert Ordered(ix[..1], 0) && Ordered(ix[1..], 0);
  }

  /** Over zeros a tree survives if its halves do and its list is not all paired up. */
  lemma ZeroJoinSurvives(N: nat, ix: seq<nat>, r: nat, k: nat)
    requires Sizes(N, 3) && 0 < r <= 3 && |ix| == Pow2(r) && k < |ix|
    requires Survives(AllZero(N, 3), ix[..Pow2(r - 1)], r - 1) && Survives(AllZero(N, 3), ix[Pow2(r - 1)..], r - 1)
    requires var t := Truncations(AllZero(N, 3), ix); forall i :: 0 <= i < |ix| && i != k ==> t[i] != t[k]
    ensures Survives(AllZero(N, 3), ix, r)
  {
    hide AllZero, Equihash.Valid, TruncatedTree, IsZero, Truncate, AllPaired, HasCollision, Pow2;
    var p := AllZero(N, 3);
    Doubling(r);
    ZeroTruncated(N, 3, ix[..Pow2(r - 1)], r - 1);
    ZeroTruncated(N, 3, ix[Pow2(r - 1)..], r - 1);
    var h := HalfRows(p, ix, r);
    ZeroMerge(h.0, h.1, p.CollisionByteLength());
    forall i | 0 <= i < |ix| && i != k ensures Truncate(p, ix[i]) != Truncate(p, ix[k]) {
      assert Truncations(p, ix)[i] != Truncations(p, ix)[k];
    }
    OnceNotPaired(p, ix, r, k);
  }

  lemma LeafSurvives(p: Equihash, ix: seq<nat>)
    requires p.Valid() && |ix| == Pow2(0)
    ensures Survives(p, ix, 0)
  {}

  lemma PairSurvives(N: nat, ix: seq<nat>)
    requires Sizes(N, 3) && |ix| == 2 && Truncate(AllZero(N, 3), ix[0]) != Truncate(AllZero(N, 3), ix[1])
    ensures Pow2(1) == 2 && Survives(AllZero(N, 3), ix, 1)
  {
    hide AllZero, Equihash.Valid, Truncate, Pow2, Survives;
    Powers();
    LeafSurvives(AllZero(N, 3), ix[..1]);
    LeafSurvives(AllZero(N, 3), ix[1..]);
    ZeroJoinSurvives(N, ix, 1, 0);
  }

  lemma PlainFound(N: nat)
    requires Sizes(N, 3)
    ensures Found(AllZero(N, 3), Plain(Stride(AllZero(N, 3))))
  {
    hide AllZero, Equihash.Valid, TruncatedTree, IsZero, Truncate, Pow2, Survives, Plain;
    ZeroSizes(N);
    ListsInRange(N);
    Powers();
    var p := AllZero(N, 3);
    var ix := Plain(Stride(p));
    var t := Truncations(p, ix);
    var L, R := ix[..4], ix[4..];
    forall i | 0 <= i < 8 ensures Truncate(p, ix[i]) == t[i] {}
    PairSurvives(N, L[..2]);
    PairSurvives(N, L[2..]);
    PairSurvives(N, R[..2]);
    PairSurvives(N, R[2..]);
    ZeroJoinSurvives(N, L, 2, 1);
    ZeroJoinSurvives(N, R, 2, 0);
    ZeroJoinSurvives(N, ix, 3, 1);
    ZeroTruncated(N, 3, ix, 3);
  }

  // ---------- rebuilding the mixed tree ----------

  /** Over zeros an ordered list of different indices with the truncations of a block matches it. */
  lemma ZeroMatches(N: nat, partial: seq<nat>, q: nat, r: nat, ix: seq<nat>)
    requires Sizes(N, 3) && IsPartial(AllZero(N, 3), partial) && r <= 3 && q < Pow2(3 - r) && |ix| == Pow2(r)
    requires Ordered(ix, r) && NoRepeats(ix) && AllZero(N, 3).InRange(ix)
    requires Start(q, r) + Pow2(r) <= |partial|
    requires TruncatedTree(AllZero(N, 3), ix, r).indices == partial[Start(q, r)..Start(q, r) + Pow2(r)]
    ensures Buildable(AllZero(N, 3), partial, q, r, ix)
  {
    hide AllZero, Equihash.Valid, TruncatedTree, IsZero, Pow2, Start, Ordered, Equihash.TreeRow, Buildable, IsPartial;
    ZeroTree(N, 3, ix, r);
    ListMatches(AllZero(N, 3), partial, q, r, ix);
    MatchingBuilt(AllZero(N, 3), partial, q, r, ix);
  }

  function PlainTruncations(): (t: seq<nat>)
    ensures |t| == 8
  {
    [0, 1, 0, 2, 3, 4, 5, 6]
  }

  lemma PlainList(N: nat)
    requires Sizes(N, 3)
    ensures var p := AllZero(N, 3);
            Pow2(3) == 8 && TruncatedTree(p, Plain(Stride(p)), 3).indices == PlainTruncations() && IsPartial(p, PlainTruncations())
  {
    hide AllZero, Equihash.Valid, TruncatedTree, Truncate, Plain;
    ZeroSizes(N);
    ListsInRange(N);
    Powers();
    var p := AllZero(N, 3);
    var ix := Plain(Stride(p));
    var t := Truncations(p, ix);
    forall i | 0 <= i < 8 ensures Truncate(p, ix[i]) == t[i] {}
    FourList(p, ix[..4]);
    FourList(p, ix[4..]);
    EightList(p, ix);
  }

  lemma MixedList(N: nat)
    requires Sizes(N, 3)
    ensures var p := AllZero(N, 3);
            Pow2(3) == 8 && TruncatedTree(p, Mixed(Stride(p)), 3).indices == [0, 1, 0, 1, 3, 4, 5, 6]
  {
    hide AllZero, Equihash.Valid, TruncatedTree, Truncate, Mixed;
    ZeroSizes(N);
    ListsInRange(N);
    Powers();
    var p := AllZero(N, 3);
    var ix := Mixed(Stride(p));
    var t := Truncations(p, ix);
    forall i | 0 <= i < 8 ensures Truncate(p, ix[i]) == t[i] {}
    FourList(p, ix[..4]);
    FourList(p, ix[4..]);
    EightList(p, ix);
  }

  lemma Starts()
    ensures Start(0, 0) == 0 && Start(1, 0) == 1 && Start(0, 1) == 0 && Start(1, 1) == 2 && Start(0, 2) == 0 && Start(1, 2) == 4 && Start(0, 3) == 0
  {}

  /** A pair of indices with the truncations of a pair of the list. */
  lemma PairBuildable(N: nat, q: nat, ix: seq<nat>)
    requires Sizes(N, 3) && q < 2 && |ix| == 2 && ix[0] < ix[1] && AllZero(N, 3).InRange(ix)
    requires IsPartial(AllZero(N, 3), PlainTruncations())
    requires Truncate(AllZero(N, 3), ix[0]) == 0 && Truncate(AllZero(N, 3), ix[1]) == q + 1
    ensures Pow2(3 - 1) == 4 && Buildable(AllZero(N, 3), PlainTruncations(), q, 1, ix)
  {
    hide AllZero, Equihash.Valid, TruncatedTree, Truncate, Pow2, Start, Buildable, IsPartial;
    Powers();
    Starts();
    var p := AllZero(N, 3);
    TwoList(p, ix);
    TwoOrdered(ix);
    assert Truncations(p, ix) == [0, q + 1];
    assert PlainTruncations()[2 * q..2 * q + 2] == [0, q + 1];
    ZeroMatches(N, PlainTruncations(), q, 1, ix);
  }

  lemma FourBuildable(N: nat, q: nat, ix: seq<nat>)
    requires Sizes(N, 3) && q < 2 && |ix| == 4 && AllZero(N, 3).InRange(ix) && NoRepeats(ix)
    requires ix[0] < ix[1] && ix[2] < ix[3] && ix[0] < ix[2]
    requires IsPartial(AllZero(N, 3), PlainTruncations())
    requires Truncations(AllZero(N, 3), ix) == PlainTruncations()[4 * q..4 * q + 4]
    ensures Pow2(3 - 2) == 2 && Buildable(AllZero(N, 3), PlainTruncations(), q, 2, ix)
  {
    hide AllZero, Equihash.Valid, TruncatedTree, Truncate, Pow2, Start, Buildable, IsPartial;
    Powers();
    Starts();
    var p := AllZero(N, 3);
    var t := Truncations(p, ix);
    forall i | 0 <= i < 4 ensures Truncate(p, ix[i]) == t[i] == PlainTruncations()[4 * q + i] {}
    FourList(p, ix);
    FourOrdered(ix);
    ZeroMatches(N, PlainTruncations(), q, 2, ix);
  }

  /** Two trees of the first pair make a tree of the first four leaves. */
  lemma MixedFour(N: nat)
    requires Sizes(N, 3) && IsPartial(AllZero(N, 3), PlainTruncations())
    ensures Pow2(3 - 2) == 2 && Buildable(AllZero(N, 3), PlainTruncations(), 0, 2, Mixed(Stride(AllZero(N, 3)))[..4])
  {
    hide AllZero, Equihash.Valid, Equihash.TreeRow, Truncate, Pow2, Start, Buildable, Mixed, Plain, Ordered;
    Powers();
    Starts();
    ZeroSizes(N);
    ListsInRange(N);
    MixedParts(N);
    var p, P := AllZero(N, 3), PlainTruncations();
    var S := Stride(p);
    var ix, plain := Mixed(S)[..4], Plain(S)[..4];
    PairBuildable(N, 0, ix[..2]);
    PairBuildable(N, 0, ix[2..]);
    PairBuildable(N, 1, plain[2..]);
    assert Filled(p, P, 0, 1) && Filled(p, P, 1, 1);
    FourOrdered(ix);
    ZeroTree(N, 3, ix, 2);
    assert FromHalves(p, P, 0, 2, ix);
    BuiltNode(p, P, 0, 2, ix);
  }

  lemma MixedParts(N: nat)
    requires Sizes(N, 3)
    ensures var p := AllZero(N, 3); var ix, plain := Mixed(Stride(p)), Plain(Stride(p));
            && Truncate(p, ix[0]) == 0 && Truncate(p, ix[1]) == 1 && Truncate(p, ix[2]) == 0 && Truncate(p, ix[3]) == 1 && Truncate(p, ix[4]) == 3
            && Truncate(p, plain[2]) == 0 && Truncate(p, plain[3]) == 2 && plain[2] < plain[3] && NoRepeats(ix)
            && ix[0] < ix[1] && ix[2] < ix[3] && ix[0] < ix[2] && ix[4] < ix[5] && ix[6] < ix[7] && ix[4] < ix[6] && ix[0] < ix[4]
  {
    hide AllZero, Equihash.Valid, Truncate;
    ZeroSizes(N);
    ListsInRange(N);
    var p := AllZero(N, 3);
    var ix, plain := Mixed(Stride(p)), Plain(Stride(p));
    var t, t' := Truncations(p, ix), Truncations(p, plain);
    forall i | 0 <= i < 8 ensures Truncate(p, ix[i]) == t[i] && Truncate(p, plain[i]) == t'[i] {}
  }

  lemma MixedBuildable(N: nat)
    requires Sizes(N, 3) && IsPartial(AllZero(N, 3), PlainTruncations())
    ensures Pow2(0) == 1 && Buildable(AllZero(N, 3), PlainTruncations(), 0, 3, Mixed(Stride(AllZero(N, 3))))
  {
    hide AllZero, Equihash.Valid, Equihash.TreeRow, Truncate, Pow2, Start, Buildable, Mixed, Ordered;
    Powers();
    Starts();
    ZeroSizes(N);
    ListsInRange(N);
    MixedParts(N);
    var p, P := AllZero(N, 3), PlainTruncations();
    var ix := Mixed(Stride(p));
    TruncationsSplit(p, ix, 4);
    FourBuildable(N, 1, ix[4..]);
    MixedFour(N);
    assert Filled(p, P, 0, 2) && Filled(p, P, 1, 2);
    EightOrdered(ix);
    ZeroTree(N, 3, ix, 3);
    assert FromHalves(p, P, 0, 3, ix);
    BuiltNode(p, P, 0, 3, ix);
  }

  /** For K = 3 and every N there is a valid solution that is handed out although no tree that the
      truncated rounds find has its truncated list. */
  lemma MixedReached(N: nat)
    requires Sizes(N, 3)
    ensures var p := AllZero(N, 3); var ix := Mixed(Stride(p)); var soln := Packed(ix, N / 4 + 1);
            && p.ValidSolution(soln) && p.IndicesOf(soln) == ix && soln in Reached(p)
            && forall found | Found(p, found) :: TruncatedTree(p, found, 3).indices != TruncatedTree(p, ix, 3).indices
  {
    hide AllZero, Equihash.Valid, Equihash.TreeRow, Packed, Survives, IsZero, Buildable, TruncatedTree, Reached, Ordered, Truncate, IsPartial, Mixed, Plain;
    var p := AllZero(N, 3);
    var ix, plain := Mixed(Stride(p)), Plain(Stride(p));
    ZeroSizes(N);
    ListsInRange(N);
    ListsOrdered(Stride(p));
    ZeroValid(N, 3, ix);
    PlainFound(N);
    PlainList(N);
    MixedBuildable(N);
    assert RebuiltVia(p, plain, ix);
    ViaReached(p, Packed(ix, N / 4 + 1), plain);
    MixedList(N);
    forall found | Found(p, found) ensures TruncatedTree(p, found, 3).indices != [0, 1, 0, 1, 3, 4, 5, 6] { NotPairedTwice(N, found); }
  }

  lemma NotPairedTwice(N: nat, found: seq<nat>)
    requires Sizes(N, 3) && Found(AllZero(N, 3), found)
    ensures TruncatedTree(AllZero(N, 3), found, 3).indices != [0, 1, 0, 1, 3, 4, 5, 6]
  {
    hide AllZero, Equihash.Valid, TruncatedTree, Found, AllPaired;
    Starts();
    Powers();
    ZeroPart(N, 3, found, 0, 2);
    FourPaired();
    var list: seq<nat> := [0, 1, 0, 1, 3, 4, 5, 6];
    assert list[0..4] == [0, 1, 0, 1];
  }

  lemma FourPaired()
    ensures AllPaired([0, 1, 0, 1])
  {
    assert multiset([0, 1, 0, 1]) == multiset{0, 1, 0, 1};
  }
}
