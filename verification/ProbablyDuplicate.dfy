/** IsProbablyDuplicate: pairs up equal truncated indices with a table of flags. It answers true
    exactly when every value occurs an even number of times. */
module ProbablyDuplicate {
  import opened CollisionRounds

  /** Occurrences of x among the flagged positions. */
  ghost function Count(v: seq<nat>, f: seq<bool>, x: nat): nat
    requires |v| == |f|
  {
    if v == [] then 0
    else var n := |v| - 1; Count(v[..n], f[..n], x) + (if f[n] && v[n] == x then 1 else 0)
  }

  ghost function Trues(f: seq<bool>): nat
  {
    if f == [] then 0 else Trues(f[..|f| - 1]) + (if f[|f| - 1] then 1 else 0)
  }

  lemma {:induction false} FlagOne(v: seq<nat>, f: seq<bool>, i: nat, x: nat)
    requires i < |v| == |f| && !f[i]
    ensures Count(v, f[i := true], x) == Count(v, f, x) + (if v[i] == x then 1 else 0)
    ensures Trues(f[i := true]) == Trues(f) + 1
  {
    var n := |v| - 1;
    if i < n {
      FlagOne(v[..n], f[..n], i, x);
      assert f[i := true][..n] == f[..n][i := true];
    } else {
      assert f[i := true][..n] == f[..n];
    }
  }

  /** With no unflagged x, all its occurrences are flagged. */
  lemma {:induction false} NoneLeft(v: seq<nat>, f: seq<bool>, x: nat)
    requires |v| == |f| && forall i :: 0 <= i < |v| && !f[i] ==> v[i] != x
    ensures multiset(v)[x] == Count(v, f, x)
  {
    if v != [] {
      var n := |v| - 1;
      NoneLeft(v[..n], f[..n], x);
      assert v == v[..n] + [v[n]];
    }
  }

  lemma {:induction false} AllTrue(f: seq<bool>)
    ensures Trues(f) <= |f|
    ensures Trues(f) == |f| <==> forall i :: 0 <= i < |f| ==> f[i]
  {
    if f != [] {
      var n := |f| - 1;
      AllTrue(f[..n]);
      assert forall i :: 0 <= i < n ==> f[..n][i] == f[i];
    }
  }

  ghost predicate Even(v: seq<nat>, f: seq<bool>)
    requires |v| == |f|
  {
    forall x :: Count(v, f, x) % 2 == 0
  }

  lemma PairFlagged(v: seq<nat>, f: seq<bool>, z: nat, y: nat)
    requires z < y < |v| == |f| && !f[z] && !f[y] && v[z] == v[y] && Even(v, f)
    ensures Even(v, f[z := true][y := true]) && Trues(f[z := true][y := true]) == Trues(f) + 2
  {
    var g := f[z := true][y := true];
    forall x ensures Count(v, g, x) % 2 == 0 {
      FlagOne(v, f, z, x);
      FlagOne(v, f[z := true], y, x);
      assert Count(v, f, x) % 2 == 0;
    }
    FlagOne(v, f, z, 0);
    FlagOne(v, f[z := true], y, 0);
  }

  /** An unflagged position whose value occurs at no other unflagged position spoils the pairing. */
  lemma LeftoverOdd(v: seq<nat>, f: seq<bool>, z: nat)
    requires z < |v| == |f| && !f[z] && Even(v, f) && Alone(v, f, z)
    ensures !AllPaired(v)
  {
    FlagOne(v, f, z, v[z]);
    NoneLeft(v, f[z := true], v[z]);
    assert Count(v, f, v[z]) % 2 == 0;
    assert v[z] in v;
  }

  lemma AllFlaggedPaired(v: seq<nat>, f: seq<bool>)
    requires |v| == |f| && Even(v, f) && forall i :: 0 <= i < |f| ==> f[i]
    ensures AllPaired(v)
  {
    forall x | x in v ensures multiset(v)[x] % 2 == 0 {
      NoneLeft(v, f, x);
      assert Count(v, f, x) % 2 == 0;
    }
  }

  ghost predicate Alone(v: seq<nat>, f: seq<bool>, z: nat)
    requires z < |v| == |f|
  {
    forall y :: 0 <= y < |v| && y != z && !f[y] ==> v[y] != v[z]
  }

  /** checked marks the second of each pair found below z; f marks both. */
  ghost predicate Pairing(v: seq<nat>, checked: seq<bool>, f: seq<bool>, z: nat)
    requires |checked| == |v| == |f|
  {
    && Even(v, f)
    && (forall i :: 0 <= i < |v| && checked[i] ==> f[i])
    && (forall i :: z <= i < |v| ==> f[i] == checked[i])
    && (forall i :: 0 <= i < z && i < |v| && !f[i] ==> Alone(v, f, i))
  }

  lemma NothingPaired(v: seq<nat>, f: seq<bool>)
    requires |v| == |f| && forall i :: 0 <= i < |f| ==> !f[i]
    ensures Pairing(v, f, f, 0) && Trues(f) == 0
    decreases |v|
  {
    if v != [] {
      var n := |v| - 1;
      NothingPaired(v[..n], f[..n]);
      forall x ensures Count(v, f, x) % 2 == 0 { assert Count(v[..n], f[..n], x) % 2 == 0; }
    } else {
      assert forall x :: Count(v, f, x) == 0;
    }
  }

  lemma PairFound(v: seq<nat>, checked: seq<bool>, f: seq<bool>, z: nat, y: nat)
    requires z < y < |v| == |checked| == |f| && Pairing(v, checked, f, z)
    requires !checked[z] && !checked[y] && v[z] == v[y]
    ensures Pairing(v, checked[y := true], f[z := true][y := true], z + 1)
    ensures Trues(f[z := true][y := true]) == Trues(f) + 2
  {
    PairFlagged(v, f, z, y);
  }

  method IsProbablyDuplicate(indices: seq<nat>) returns (all: bool)
    ensures all == AllPaired(indices)
  {
    hide Even, Count, Trues, AllPaired;
    var lenIndices := |indices|;
    var checkedIndex := new bool[lenIndices](_ => false);
    var countChecked := 0;
    ghost var f := checkedIndex[..];
    NothingPaired(indices, f);
    var z := 0;
    while z < lenIndices
      invariant 0 <= z <= lenIndices && |f| == lenIndices && countChecked == Trues(f)
      invariant Pairing(indices, checkedIndex[..], f, z)
    {
      if !checkedIndex[z] {
        var y := z + 1;
        while y < lenIndices && (checkedIndex[y] || indices[z] != indices[y])
          invariant z < y <= lenIndices
          invariant forall k :: z < k < y ==> checkedIndex[k] || indices[z] != indices[k]
        {
          y := y + 1;
        }
        if y < lenIndices {
          PairFound(indices, checkedIndex[..], f, z, y);
          f := f[z := true][y := true];
          checkedIndex[y] := true;
          countChecked := countChecked + 2;
        }
      }
      z := z + 1;
    }
    AllTrue(f);
    if countChecked == lenIndices {
      AllFlaggedPaired(indices, f);
    } else {
      ghost var i :| 0 <= i < lenIndices && !f[i];
      LeftoverOdd(indices, f, i);
    }
    return countChecked == lenIndices;
  }
}
