/** What a solution is, said of the leaf hashes alone: under every node of the index tree the hashes of
    the leaves cancel out in the bytes of as many rounds as the node is high, the left subtree begins
    with the smaller index, and no index is repeated. */
module EquihashDefinition {
  import opened Bits
  import opened StepRows
  import opened BitPacking
  import opened EquihashTree
  import opened Wrappers
  import opened BasicSolver
  import opened TruncatedTables
  import opened XorLaws

  /** The leaf hashes cancel out in their first n bytes. */
  ghost predicate CancelsIn(p: Equihash, ix: seq<nat>, n: nat)
    requires p.Valid() && n <= p.HashLen(0)
  {
    forall j, k | 0 <= j < n && 0 <= k < 8 :: Column(p, ix, j, k) % 2 == 0
  }

  /** The two index lists have no index in common. */
  predicate Apart(s: seq<nat>, t: seq<nat>)
  {
    forall i, j :: 0 <= i < |s| && 0 <= j < |t| ==> s[i] != t[j]
  }

  /** What is asked of the subtree of height r with these leaves. */
  ghost predicate Collides(p: Equihash, ix: seq<nat>, r: nat)
    requires p.Valid() && r <= p.K && |ix| == Pow2(r)
    decreases r
  {
    r > 0 ==>
      var L, R := ix[..Pow2(r - 1)], ix[Pow2(r - 1)..];
      ConsumedFits(p, r);
      Collides(p, L, r - 1) && Collides(p, R, r - 1) && L[0] < R[0] && Apart(L, R) && CancelsIn(p, ix, Consumed(p, r))
  }

  lemma ConsumedFits(p: Equihash, r: nat)
    requires p.Valid() && r <= p.K
    ensures Consumed(p, r) <= p.HashLen(0)
  {
    TimesSum(r, p.K + 1 - r, p.CollisionByteLength());
  }

  // ---------- one pair ----------

  /** Bytes are equal exactly if their bits are. */
  lemma EqualBits(x: byte, y: byte)
    ensures x == y <==> forall k :: 0 <= k < 8 ==> (Bit(x, k) + Bit(y, k)) % 2 == 0
  {
    hide Bit, Xor;
    Pow2Values();
    XorZero(x, y);
    XorBelow(x, y, 8);
    ZeroBits(Xor(x, y), 8);
    forall k | 0 <= k < 8 ensures Bit(Xor(x, y), k) == (Bit(x, k) + Bit(y, k)) % 2 { XorBits(x, y, k); }
  }

  /** Distinct lists are in the order of their first elements. */
  lemma FirstDecides(a: Row, b: Row)
    requires |a.indices| == |b.indices| > 0 && Apart(a.indices, b.indices)
    ensures !IndicesBefore(b, a) <==> a.indices[0] < b.indices[0]
  {}

  /** Two subtrees collide exactly if their leaves together cancel out in the bytes of one round more. */
  lemma CollisionIsCancelling(p: Equihash, ix: seq<nat>, r: nat, a: Row, b: Row)
    requires p.Valid() && 0 < r <= p.K && |ix| == Pow2(r) && Consumed(p, r) <= p.HashLen(0)
    requires p.TreeRow(ix[..Pow2(r - 1)], r - 1) == Some(a) && p.TreeRow(ix[Pow2(r - 1)..], r - 1) == Some(b)
    requires |a.hash| == |b.hash| == p.HashLen(r - 1) && p.CollisionByteLength() <= |a.hash|
    ensures HasCollision(a, b, p.CollisionByteLength()) <==> CancelsIn(p, ix, Consumed(p, r))
  {
    hide Equihash.Valid, Equihash.TreeRow, Equihash.HashLen, Pow2, Bit, Column, Consumed, LeftBit;
    var c, w := Consumed(p, r - 1), p.CollisionByteLength();
    Widths(p, r - 1);
    forall j, k | 0 <= j < c + w && 0 <= k < 8
      ensures Column(p, ix, j, k) % 2 == (LeftBit(p, a, r - 1, j, k) + LeftBit(p, b, r - 1, j, k)) % 2
    {
      PairParity(p, ix, r, a, b, j, k);
    }
    LeftBits(p, a, r - 1);
    LeftBits(p, b, r - 1);
    if HasCollision(a, b, w) {
      forall j, k | 0 <= j < c + w && 0 <= k < 8 ensures Column(p, ix, j, k) % 2 == 0 {
        if j >= c { assert a.hash[j - c] == a.hash[..w][j - c] == b.hash[..w][j - c] == b.hash[j - c]; }
      }
    }
    if CancelsIn(p, ix, c + w) {
      forall i | 0 <= i < w ensures a.hash[i] == b.hash[i] {
        forall k | 0 <= k < 8 ensures (Bit(a.hash[i], k) + Bit(b.hash[i], k)) % 2 == 0 {
          assert Column(p, ix, c + i, k) % 2 == 0;
        }
        EqualBits(a.hash[i], b.hash[i]);
      }
      assert a.hash[..w] == b.hash[..w];
    }
  }

  lemma LeftBits(p: Equihash, row: Row, r: nat)
    ensures forall j, k | 0 <= j < Consumed(p, r) && 0 <= k :: LeftBit(p, row, r, j, k) == 0
    ensures forall j, k | Consumed(p, r) <= j < Consumed(p, r) + |row.hash| && 0 <= k ::
              LeftBit(p, row, r, j, k) == Bit(row.hash[j - Consumed(p, r)], k)
  {
    hide Consumed, Bit;
  }

  lemma PairParity(p: Equihash, ix: seq<nat>, r: nat, a: Row, b: Row, j: nat, k: nat)
    requires p.Valid() && 0 < r <= p.K && |ix| == Pow2(r) && j < p.HashLen(0)
    requires p.TreeRow(ix[..Pow2(r - 1)], r - 1) == Some(a) && p.TreeRow(ix[Pow2(r - 1)..], r - 1) == Some(b)
    ensures Column(p, ix, j, k) % 2 == (LeftBit(p, a, r - 1, j, k) + LeftBit(p, b, r - 1, j, k)) % 2
  {
    hide Equihash.Valid, Equihash.TreeRow, Equihash.HashLen, Bit, Column, LeftBit, Pow2;
    Doubling(r);
    var L, R := ix[..Pow2(r - 1)], ix[Pow2(r - 1)..];
    TreeParity(p, L, r - 1, j, k);
    TreeParity(p, R, r - 1, j, k);
    assert ix == L + R;
    ColumnJoin(p, L, R, j, k);
  }

  // ---------- trees and solutions ----------

  lemma {:induction false} TreeIsDefinition(p: Equihash, ix: seq<nat>, r: nat)
    requires p.Valid() && r <= p.K && |ix| == Pow2(r)
    ensures p.TreeRow(ix, r).Some? <==> Collides(p, ix, r)
    decreases r
  {
    hide Equihash.Valid, Equihash.HashLen, Pow2, CancelsIn, Consumed, IndicesBefore, HasCollision, DistinctIndices, Merge;
    if r > 0 {
      Doubling(r);
      ConsumedFits(p, r);
      var L, R := ix[..Pow2(r - 1)], ix[Pow2(r - 1)..];
      TreeIsDefinition(p, L, r - 1);
      TreeIsDefinition(p, R, r - 1);
      if Collides(p, L, r - 1) && Collides(p, R, r - 1) {
        var a, b := p.TreeRow(L, r - 1).value, p.TreeRow(R, r - 1).value;
        PairIsDefinition(p, ix, r, a, b);
      }
    }
  }

  lemma PairIsDefinition(p: Equihash, ix: seq<nat>, r: nat, a: Row, b: Row)
    requires p.Valid() && 0 < r <= p.K && |ix| == Pow2(r) == 2 * Pow2(r - 1) && Consumed(p, r) <= p.HashLen(0)
    requires p.TreeRow(ix[..Pow2(r - 1)], r - 1) == Some(a) && p.TreeRow(ix[Pow2(r - 1)..], r - 1) == Some(b)
    ensures var L, R := ix[..Pow2(r - 1)], ix[Pow2(r - 1)..];
            p.TreeRow(ix, r).Some? <==> L[0] < R[0] && Apart(L, R) && CancelsIn(p, ix, Consumed(p, r))
  {
    hide Equihash.Valid, Equihash.TreeRow, Equihash.HashLen, Pow2, CancelsIn, Consumed, HasCollision, IndicesBefore;
    PairChecks(p, ix, r, a, b);
    CollisionIsCancelling(p, ix, r, a, b);
    assert DistinctIndices(a, b) <==> Apart(a.indices, b.indices);
    if Apart(a.indices, b.indices) { FirstDecides(a, b); }
  }

  lemma PairChecks(p: Equihash, ix: seq<nat>, r: nat, a: Row, b: Row)
    requires p.Valid() && 0 < r <= p.K && |ix| == Pow2(r) == 2 * Pow2(r - 1)
    requires p.TreeRow(ix[..Pow2(r - 1)], r - 1) == Some(a) && p.TreeRow(ix[Pow2(r - 1)..], r - 1) == Some(b)
    ensures a.indices == ix[..Pow2(r - 1)] && b.indices == ix[Pow2(r - 1)..]
    ensures |a.hash| == |b.hash| == p.HashLen(r - 1) && p.CollisionByteLength() <= |a.hash|
    ensures p.TreeRow(ix, r).Some? <==>
            HasCollision(a, b, p.CollisionByteLength()) && !IndicesBefore(b, a) && DistinctIndices(a, b)
  {
    hide Equihash.Valid, Equihash.TreeRow, Equihash.HashLen, Pow2, HasCollision, IndicesBefore, DistinctIndices, Merge;
    RowShape(p, ix[..Pow2(r - 1)], r - 1);
    RowShape(p, ix[Pow2(r - 1)..], r - 1);
    Widths(p, r - 1);
    if p.TreeRow(ix, r).Some? { var _, _ := TreeHalves(p, ix, r); }
    if HasCollision(a, b, p.CollisionByteLength()) && !IndicesBefore(b, a) && DistinctIndices(a, b) { HalvesMakeTree(p, ix, r, a, b); }
  }

  lemma RowShape(p: Equihash, ix: seq<nat>, r: nat)
    requires p.Valid() && r <= p.K && |ix| == Pow2(r) && p.TreeRow(ix, r).Some?
    ensures p.TreeRow(ix, r).value.indices == ix && |p.TreeRow(ix, r).value.hash| == p.HashLen(r)
  {}

  /** The verifier accepts a string exactly if its indices are a solution by this definition. */
  lemma ValidIsDefinition(p: Equihash, soln: seq<byte>)
    requires p.Valid()
    ensures p.ValidSolution(soln) <==>
            |soln| == p.SolutionWidth() && Collides(p, p.IndicesOf(soln), p.K) && Cancel(p, p.IndicesOf(soln))
  {
    hide Equihash.TreeRow, Equihash.Valid, Equihash.ValidSolution, Cancel, Collides, Elements;
    LeavesCancel(p, soln);
    if |soln| == p.SolutionWidth() { TreeIsDefinition(p, p.IndicesOf(soln), p.K); }
  }
}
