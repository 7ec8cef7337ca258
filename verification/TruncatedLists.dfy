/** The truncated list of a tree and the truncated indices of its leaves. */
module TruncatedLists {
  import opened Bits
  import opened Words
  import opened BitPacking
  import opened StepRows
  import opened CollisionRounds
  import opened EquihashTree
  import opened Wrappers
  import opened TruncatedTables
  import opened Rebuild

  // ---------- truncated lists ----------

  /** A step so large that indices below it truncate to zero. */
  function Stride(p: Equihash): nat
    requires p.Valid()
  {
    Pow2(p.IndexBits() - 8)
  }

  function Truncations(p: Equihash, ix: seq<nat>): (t: seq<nat>)
    requires p.Valid()
    ensures |t| == |ix|
  {
    seq<nat>(|ix|, i requires 0 <= i < |ix| => Truncate(p, ix[i]))
  }

  lemma TruncationsSplit(p: Equihash, ix: seq<nat>, k: nat)
    requires p.Valid() && k <= |ix|
    ensures Truncations(p, ix) == Truncations(p, ix[..k]) + Truncations(p, ix[k..])
    ensures Truncations(p, ix)[..k] == Truncations(p, ix[..k]) && Truncations(p, ix)[k..] == Truncations(p, ix[k..])
  {
    hide Truncate, Equihash.Valid;
  }

  /** The truncated row of a tree depends on the truncated indices of its leaves only, and has each
      as often as they have. */
  lemma {:induction false} TruncatedList(p: Equihash, ix: seq<nat>, iy: seq<nat>, r: nat)
    requires p.Valid() && r <= p.K && |ix| == |iy| == Pow2(r) && Truncations(p, ix) == Truncations(p, iy)
    ensures TruncatedTree(p, ix, r).indices == TruncatedTree(p, iy, r).indices
    ensures multiset(TruncatedTree(p, ix, r).indices) == multiset(Truncations(p, ix))
    decreases r
  {
    hide Truncate, Equihash.Valid, TruncatedTree, Before, Pow2;
    if r == 0 {
      assert |ix| == Pow2(0) == 1 by { SinglePower(); }
      LeafTruncation(p, ix);
      LeafTruncation(p, iy);
      assert Truncations(p, ix)[0] == Truncations(p, iy)[0];
      assert Truncations(p, ix) == [Truncate(p, ix[0])];
    } else {
      var h := Pow2(r - 1);
      Doubling(r);
      TruncationsSplit(p, ix, h);
      TruncationsSplit(p, iy, h);
      TruncatedList(p, ix[..h], iy[..h], r - 1);
      TruncatedList(p, ix[h..], iy[h..], r - 1);
      var x, y := TruncatedHalves(p, ix, r);
      var x', y' := TruncatedHalves(p, iy, r);
      assert multiset(x + y) == multiset(x) + multiset(y) == multiset(y + x);
    }
  }

  lemma SinglePower()
    ensures Pow2(0) == 1
  {}

  /** A truncated index that occurs once keeps the list from being all paired up. */
  lemma OnceNotPaired(p: Equihash, ix: seq<nat>, r: nat, k: nat)
    requires p.Valid() && r <= p.K && |ix| == Pow2(r) && k < |ix|
    requires forall i :: 0 <= i < |ix| && i != k ==> Truncate(p, ix[i]) != Truncate(p, ix[k])
    ensures !AllPaired(TruncatedTree(p, ix, r).indices)
  {
    hide Truncate, Equihash.Valid, TruncatedTree;
    TruncatedList(p, ix, ix, r);
    var v, u := Truncations(p, ix), TruncatedTree(p, ix, r).indices;
    CountOnce(v, k);
    assert multiset(u)[v[k]] == 1;
    assert v[k] in multiset(u);
  }

  lemma CountOnce(v: seq<nat>, k: nat)
    requires k < |v| && forall i :: 0 <= i < |v| && i != k ==> v[i] != v[k]
    ensures multiset(v)[v[k]] == 1
  {
    assert v == v[..k] + [v[k]] + v[k + 1..];
    assert v[k] !in v[..k] && v[k] !in v[k + 1..];
  }

  lemma TruncateBelow(p: Equihash, i: nat)
    requires p.Valid() && i < p.InitSize()
    ensures Truncate(p, i) == Quot(i, Stride(p)) && (Truncate(p, i) == 0 <==> i < Stride(p))
  {
    TruncateShr(i, p.IndexBits());
  }
}
