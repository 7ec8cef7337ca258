/** IsValidSolution: the verifier works level by level over a list of rows; it accepts exactly
    the solutions whose index tree is valid. */
module EquihashVerifier {
  import opened Bits
  import opened BitPacking
  import opened StepRows
  import opened EquihashTree
  import opened Wrappers

  predicate AtLevel(p: Equihash, X: seq<Row>, r: nat)
    requires p.Valid() && r <= p.K
  {
    forall i :: 0 <= i < |X| ==> |X[i].hash| == p.HashLen(r) && |X[i].indices| == Pow2(r)
  }

  /** The tree over a list of 2^n rows at level r. */
  function Fold(p: Equihash, X: seq<Row>, r: nat, n: nat): (t: Option<Row>)
    requires p.Valid() && r + n <= p.K && |X| == Pow2(n) && AtLevel(p, X, r)
    ensures t.Some? ==> |t.value.hash| == p.HashLen(r + n) && |t.value.indices| == Pow2(r + n)
    decreases n
  {
    if n == 0 then Some(X[0])
    else
      var half := Pow2(n - 1);
      match (Fold(p, X[..half], r, n - 1), Fold(p, X[half..], r, n - 1))
      case (Some(a), Some(b)) => p.Join(a, b, r + n - 1)
      case _ => None
  }

  function Prepend(front: seq<Row>, t: Option<seq<Row>>): Option<seq<Row>>
  {
    if t.None? then None else Some(front + t.value)
  }

  lemma PrependPrepend(a: seq<Row>, b: seq<Row>, t: Option<seq<Row>>)
    ensures Prepend(a, Prepend(b, t)) == Prepend(a + b, t)
    ensures Prepend([], t) == t
  {
    if t.Some? {
      assert a + (b + t.value) == (a + b) + t.value;
      assert [] + t.value == t.value;
    }
  }

  /** One level: neighbours are joined, and one failure fails the level. */
  function JoinLevel(p: Equihash, X: seq<Row>, n: nat, r: nat): (Y: Option<seq<Row>>)
    requires p.Valid() && r < p.K && |X| == 2 * n && AtLevel(p, X, r)
    ensures Y.Some? ==> |Y.value| == n && AtLevel(p, Y.value, r + 1)
  {
    if X == [] then Some([])
    else
      var t := p.Join(X[0], X[1], r);
      if t.None? then None else Prepend([t.value], JoinLevel(p, X[2..], n - 1, r))
  }

  lemma {:induction false} JoinLevelAppend(p: Equihash, X: seq<Row>, m: nat, Y: seq<Row>, n: nat, r: nat)
    requires p.Valid() && r < p.K && |X| == 2 * m && |Y| == 2 * n && AtLevel(p, X, r) && AtLevel(p, Y, r)
    ensures var a := JoinLevel(p, X, m, r);
            JoinLevel(p, X + Y, m + n, r) == if a.None? then None else Prepend(a.value, JoinLevel(p, Y, n, r))
  {
    hide Equihash.Join, Equihash.Valid, Equihash.HashLen;
    if X == [] {
      assert X + Y == Y;
      PrependPrepend([], [], JoinLevel(p, Y, n, r));
    } else {
      JoinLevelAppend(p, X[2..], m - 1, Y, n, r);
      assert (X + Y)[2..] == X[2..] + Y;
      var t, a := p.Join(X[0], X[1], r), JoinLevel(p, X[2..], m - 1, r);
      if t.Some? && a.Some? { PrependPrepend([t.value], a.value, JoinLevel(p, Y, n, r)); }
    }
  }

  lemma {:induction false} JoinOne(p: Equihash, X: seq<Row>, r: nat)
    requires p.Valid() && r < p.K && |X| == 2 && AtLevel(p, X, r)
    ensures var t := p.Join(X[0], X[1], r);
            JoinLevel(p, X, 1, r) == if t.None? then None else Some([t.value])
  {
    assert X[2..] == [];
    var t := p.Join(X[0], X[1], r);
    if t.Some? { assert [t.value] + [] == [t.value]; }
  }

  lemma FoldPair(p: Equihash, X: seq<Row>, r: nat)
    requires p.Valid() && r < p.K && |X| == 2 && AtLevel(p, X, r)
    ensures var Y := JoinLevel(p, X, 1, r);
            Fold(p, X, r, 1) == if Y.None? then None else Fold(p, Y.value, r + 1, 0)
  {
    hide Equihash.Join, Equihash.Valid, Equihash.HashLen, JoinLevel;
    assert X[..Pow2(0)] == [X[0]] && X[Pow2(0)..] == [X[1]];
    JoinOne(p, X, r);
  }

  /** The tree over what joining the bottom level gives. */
  function FoldJoined(p: Equihash, X: seq<Row>, r: nat, n: nat): Option<Row>
    requires p.Valid() && r + n + 1 <= p.K && |X| == 2 * Pow2(n) && AtLevel(p, X, r)
  {
    var Y := JoinLevel(p, X, Pow2(n), r);
    if Y.None? then None else Fold(p, Y.value, r + 1, n)
  }

  /** Joining the bottom level first does not change the tree. */
  lemma {:induction false} FoldFromBottom(p: Equihash, X: seq<Row>, r: nat, n: nat)
    requires p.Valid() && r + n + 1 <= p.K && |X| == 2 * Pow2(n) && AtLevel(p, X, r)
    ensures Pow2(n + 1) == 2 * Pow2(n) && Fold(p, X, r, n + 1) == FoldJoined(p, X, r, n)
    decreases n
  {
    hide Equihash.Join, Equihash.Valid, Equihash.HashLen, JoinLevel, Fold;
    if n == 0 {
      FoldPair(p, X, r);
    } else {
      hide FoldJoined;
      FoldFromBottom(p, X[..Pow2(n)], r, n - 1);
      FoldFromBottom(p, X[Pow2(n)..], r, n - 1);
      FoldHalves(p, X, r, n);
      JoinedHalves(p, X, r, n);
    }
  }

  lemma FoldHalves(p: Equihash, X: seq<Row>, r: nat, n: nat)
    requires p.Valid() && r + n + 1 <= p.K && |X| == 2 * Pow2(n) && AtLevel(p, X, r)
    ensures Pow2(n + 1) == 2 * Pow2(n)
    ensures var a, b := Fold(p, X[..Pow2(n)], r, n), Fold(p, X[Pow2(n)..], r, n);
            Fold(p, X, r, n + 1) == if a.Some? && b.Some? then p.Join(a.value, b.value, r + n) else None
  {
    hide Equihash.Join, Equihash.Valid, Equihash.HashLen;
  }

  lemma JoinedHalves(p: Equihash, X: seq<Row>, r: nat, n: nat)
    requires p.Valid() && 0 < n && r + n + 1 <= p.K && |X| == 2 * Pow2(n) && AtLevel(p, X, r)
    ensures Pow2(n) == 2 * Pow2(n - 1)
    ensures var a, b := FoldJoined(p, X[..Pow2(n)], r, n - 1), FoldJoined(p, X[Pow2(n)..], r, n - 1);
            FoldJoined(p, X, r, n) == if a.Some? && b.Some? then p.Join(a.value, b.value, r + n) else None
  {
    hide Equihash.Join, Equihash.Valid, Equihash.HashLen, JoinLevel;
    var A, B, q := X[..Pow2(n)], X[Pow2(n)..], Pow2(n - 1);
    SplitAt(X, Pow2(n));
    JoinLevelAppend(p, A, q, B, q, r);
    var a, b := JoinLevel(p, A, q, r), JoinLevel(p, B, q, r);
    if a.Some? && b.Some? {
      assert (a.value + b.value)[..q] == a.value && (a.value + b.value)[q..] == b.value;
      FoldHalves(p, a.value + b.value, r + 1, n - 1);
    }
  }

  function Leaves(p: Equihash, indices: seq<nat>): (X: seq<Row>)
    requires p.Valid()
    ensures |X| == |indices| && AtLevel(p, X, 0)
  {
    if indices == [] then [] else Leaves(p, indices[..|indices| - 1]) + [p.LeafRow(indices[|indices| - 1])]
  }

  lemma {:induction false} LeavesAppend(p: Equihash, s: seq<nat>, t: seq<nat>)
    requires p.Valid()
    ensures Leaves(p, s + t) == Leaves(p, s) + Leaves(p, t)
    decreases |t|
  {
    hide Equihash.Valid, Equihash.LeafRow, Equihash.HashLen;
    if t == [] {
      assert s + t == s && Leaves(p, s) + [] == Leaves(p, s);
    } else {
      var n := |t| - 1;
      LeavesAppend(p, s, t[..n]);
      assert (s + t)[..|s + t| - 1] == s + t[..n];
    }
  }

  lemma {:induction false} TreeIsFold(p: Equihash, indices: seq<nat>, r: nat)
    requires p.Valid() && r <= p.K && |indices| == Pow2(r)
    ensures p.TreeRow(indices, r) == Fold(p, Leaves(p, indices), 0, r)
    decreases r
  {
    hide Equihash.Join, Equihash.Valid, Equihash.HashLen, Equihash.LeafRow;
    if r == 0 {
      assert Leaves(p, indices) == [p.LeafRow(indices[0])];
    } else {
      var half := Pow2(r - 1);
      TreeIsFold(p, indices[..half], r - 1);
      TreeIsFold(p, indices[half..], r - 1);
      LeavesAppend(p, indices[..half], indices[half..]);
      SplitAt(indices, half);
      var X, A, B := Leaves(p, indices), Leaves(p, indices[..half]), Leaves(p, indices[half..]);
      assert X[..half] == A && X[half..] == B;
    }
  }

  /** One pass of the while loop over a level. */
  method CheckLevel(p: Equihash, X: seq<Row>, ghost n: nat, ghost r: nat) returns (Y: Option<seq<Row>>)
    requires p.Valid() && r < p.K && |X| == 2 * n && AtLevel(p, X, r)
    ensures Y == JoinLevel(p, X, n, r)
  {
    hide Equihash.Valid, Equihash.HashLen, Equihash.Join, Merge, DistinctIndices, JoinLevel, HasCollision, Before;
    var Xc: seq<Row> := [];
    var i := 0;
    assert X[0..] == X;
    PrependPrepend([], [], JoinLevel(p, X, n, r));
    while i < |X|
      invariant i == 2 * |Xc| && |Xc| <= n
      invariant JoinLevel(p, X, n, r) == Prepend(Xc, JoinLevel(p, X[i..], n - |Xc|, r))
    {
      NextPair(p, X, n - |Xc|, r, i);
      if !HasCollision(X[i], X[i + 1], p.CollisionByteLength()) { return None; }
      if IndicesBefore(X[i + 1], X[i]) { return None; }
      if !DistinctIndices(X[i], X[i + 1]) { return None; }
      var t := Merge(X[i], X[i + 1], p.CollisionByteLength());
      PrependPrepend(Xc, [t], JoinLevel(p, X[i + 2..], n - |Xc| - 1, r));
      Xc := Xc + [t];
      i := i + 2;
    }
    assert X[i..] == [] && Xc + [] == Xc;
    NothingJoined(p, r);
    return Some(Xc);
  }

  lemma NothingJoined(p: Equihash, r: nat)
    requires p.Valid() && r < p.K
    ensures JoinLevel(p, [], 0, r) == Some([])
  {}

  lemma NextPair(p: Equihash, X: seq<Row>, n: nat, r: nat, i: nat)
    requires p.Valid() && r < p.K && AtLevel(p, X, r) && i < |X| == i + 2 * n
    ensures p.CollisionByteLength() <= p.HashLen(r)
    ensures n > 0 && |X[i].hash| == |X[i + 1].hash| == p.HashLen(r) && |X[i].indices| == |X[i + 1].indices|
    ensures var c := p.CollisionByteLength();
            JoinLevel(p, X[i..], n, r) ==
              if HasCollision(X[i], X[i + 1], c) && !IndicesBefore(X[i + 1], X[i]) && DistinctIndices(X[i], X[i + 1])
              then Prepend([Merge(X[i], X[i + 1], c)], JoinLevel(p, X[i + 2..], n - 1, r))
              else None
  {
    assert X[i..][2..] == X[i + 2..];
  }

  method IsValidSolution(p: Equihash, soln: seq<byte>) returns (ok: bool)
    requires p.Valid()
    ensures ok == p.ValidSolution(soln)
  {
    if |soln| != p.SolutionWidth() { return false; }
    SolutionIndices(p, soln);
    var indices := GetIndicesFromMinimal(soln, p.CollisionBitLength());
    var X := LeafRows(p, indices);
    TreeIsFold(p, indices, p.K);
    ok := CheckTree(p, X);
  }

  /** The first loop: a row for every index. */
  method LeafRows(p: Equihash, indices: seq<nat>) returns (X: seq<Row>)
    requires p.Valid()
    ensures X == Leaves(p, indices)
  {
    hide Equihash.LeafRow;
    X := [];
    var k := 0;
    while k < |indices|
      invariant 0 <= k <= |indices| && X == Leaves(p, indices[..k])
    {
      assert indices[..k + 1][..k] == indices[..k];
      X := X + [p.LeafRow(indices[k])];
      k := k + 1;
    }
    assert indices[..k] == indices;
  }

  method CheckTree(p: Equihash, leaves: seq<Row>) returns (ok: bool)
    requires p.Valid() && |leaves| == Pow2(p.K) && AtLevel(p, leaves, 0)
    ensures var t := Fold(p, leaves, 0, p.K); ok == (t.Some? && IsZero(t.value))
  {
    hide Equihash.Valid, Equihash.Join, JoinLevel;
    var X := leaves;
    ghost var r := 0;
    while |X| > 1
      invariant 0 <= r <= p.K && |X| == Pow2(p.K - r) && AtLevel(p, X, r)
      invariant Fold(p, X, r, p.K - r) == Fold(p, leaves, 0, p.K)
      decreases p.K - r
    {
      FoldFromBottom(p, X, r, p.K - r - 1);
      var Y := CheckLevel(p, X, Pow2(p.K - r - 1), r);
      if Y.None? { return false; }
      X := Y.value;
      r := r + 1;
    }
    ok := IsZero(X[0]);
  }
}
