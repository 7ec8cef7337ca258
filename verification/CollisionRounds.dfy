/** One collision round over a table of rows: what it must produce (the rows of all colliding
    pairs), and the sort-and-scan that produces it in the table's own storage. */
module CollisionRounds {
  import opened Bits
  import opened BitPacking
  import opened StepRows

  /** Which colliding pairs are kept: those with no index in common (BasicSolve), those that also
      continue two given branches (CollideBranches), or those whose truncated indices are not
      all paired up (OptimisedSolve). */
  datatype Rule = Distinct | Branches(ilen: nat, lt: nat, rt: nat) | NotDuplicate

  /** The parameters of a round: row shape, bytes compared, bytes trimmed. */
  datatype Round = Round(hashLen: nat, nIndices: nat, clen: nat, trim: nat, rule: Rule)
  {
    predicate Ok()
    {
      clen <= hashLen && trim <= hashLen && nIndices > 0 && (rule.Branches? ==> rule.ilen >= 8)
    }

    predicate Fits(a: Row) { |a.hash| == hashLen && |a.indices| == nIndices }

    predicate Shaped(X: seq<Row>) { forall i :: 0 <= i < |X| ==> Fits(X[i]) }

    predicate Collide(a: Row, b: Row)
      requires Ok() && Fits(a) && Fits(b)
    {
      HasCollision(a, b, clen)
    }

    /** What a colliding pair contributes. */
    function Emit(a: Row, b: Row): (out: seq<Row>)
      requires Ok() && Fits(a) && Fits(b)
    {
      match rule
      case Distinct =>
        if DistinctIndices(a, b) then [Merge(a, b, trim)] else []
      case Branches(ilen, lt, rt) =>
        if !DistinctIndices(a, b) then []
        else if IsValidBranch(a, ilen, lt) && IsValidBranch(b, ilen, rt) then [Merge(a, b, trim)]
        else if IsValidBranch(b, ilen, lt) && IsValidBranch(a, ilen, rt) then [Merge(b, a, trim)]
        else []
      case NotDuplicate =>
        var x := Merge(a, b, trim);
        if IsZero(x) && AllPaired(x.indices) then [] else [x]
    }

    /** What row a contributes with each row of rest. */
    function WithEach(a: Row, rest: seq<Row>): seq<Row>
      requires Ok() && Fits(a) && Shaped(rest)
    {
      if rest == [] then []
      else (if Collide(a, rest[0]) then Emit(a, rest[0]) else []) + WithEach(a, rest[1..])
    }

    /** The rows of all colliding pairs, by a nested loop over the whole table. */
    function Pairs(X: seq<Row>): seq<Row>
      requires Ok() && Shaped(X)
    {
      if X == [] then [] else WithEach(X[0], X[1..]) + Pairs(X[1..])
    }
  }

  predicate IsValidBranch(a: Row, ilen: nat, t: nat)
    requires a.indices != [] && ilen >= 8
  {
    TruncateIndex(a.indices[0], ilen) == t
  }

  /** Every value occurs an even number of times. */
  predicate AllPaired(v: seq<nat>)
  {
    forall x | x in v :: multiset(v)[x] % 2 == 0
  }

  lemma EmitSymmetric(r: Round, a: Row, b: Row)
    requires r.Ok() && r.Fits(a) && r.Fits(b)
    ensures r.Emit(a, b) == r.Emit(b, a)
  {
    MergeSymmetric(a, b, r.trim);
    DistinctSymmetric(a, b);
  }

  // ---------- splitting and permuting the nested loop ----------

  lemma {:induction false} WithEachAppend(r: Round, a: Row, s: seq<Row>, t: seq<Row>)
    requires r.Ok() && r.Fits(a) && r.Shaped(s) && r.Shaped(t)
    ensures r.WithEach(a, s + t) == r.WithEach(a, s) + r.WithEach(a, t)
  {
    hide Round.Collide, Round.Emit;
    if s == [] {
      assert s + t == t;
    } else {
      WithEachAppend(r, a, s[1..], t);
      assert (s + t)[1..] == s[1..] + t;
    }
  }

  lemma {:induction false} WithEachNone(r: Round, a: Row, t: seq<Row>)
    requires r.Ok() && r.Fits(a) && r.Shaped(t)
    requires forall i :: 0 <= i < |t| ==> !r.Collide(a, t[i])
    ensures r.WithEach(a, t) == []
  {
    if t != [] { WithEachNone(r, a, t[1..]); }
  }

  /** Two parts of a table with no collision across contribute separately. */
  lemma {:induction false} PairsSplit(r: Round, s: seq<Row>, t: seq<Row>)
    requires r.Ok() && r.Shaped(s) && r.Shaped(t)
    requires forall i, j :: 0 <= i < |s| && 0 <= j < |t| ==> !r.Collide(s[i], t[j])
    ensures r.Pairs(s + t) == r.Pairs(s) + r.Pairs(t)
  {
    hide Round.Collide, Round.Emit, Round.WithEach;
    if s == [] {
      assert s + t == t;
    } else {
      PairsSplit(r, s[1..], t);
      WithEachAppend(r, s[0], s[1..], t);
      WithEachNone(r, s[0], t);
      assert (s + t)[1..] == s[1..] + t;
    }
  }

  function Without(s: seq<Row>, k: nat): (t: seq<Row>)
    requires k < |s|
    ensures |t| == |s| - 1
  {
    s[..k] + s[k + 1..]
  }

  lemma WithoutMultiset(s: seq<Row>, k: nat)
    requires k < |s|
    ensures multiset(s) == multiset(Without(s, k)) + multiset{s[k]}
  {
    assert s == s[..k] + [s[k]] + s[k + 1..];
  }

  lemma SameRest(s: seq<Row>, t: seq<Row>, k: nat)
    requires s != [] && k < |t| && t[k] == s[0] && multiset(s) == multiset(t)
    ensures multiset(s[1..]) == multiset(Without(t, k))
  {
    WithoutMultiset(t, k);
    WithoutMultiset(s, 0);
    assert Without(s, 0) == s[1..];
    assert multiset(s[1..]) == multiset(s) - multiset{s[0]};
    assert multiset(Without(t, k)) == multiset(t) - multiset{t[k]};
  }

  /** A row's contribution with a set of rows does not depend on their order. */
  lemma {:induction false} WithEachMoved(r: Round, a: Row, s: seq<Row>, k: nat)
    requires r.Ok() && r.Fits(a) && r.Shaped(s) && k < |s|
    ensures multiset(r.WithEach(a, s)) == multiset(r.WithEach(a, [s[k]])) + multiset(r.WithEach(a, Without(s, k)))
  {
    assert s == s[..k] + ([s[k]] + s[k + 1..]);
    WithEachAppend(r, a, s[..k], [s[k]] + s[k + 1..]);
    WithEachAppend(r, a, [s[k]], s[k + 1..]);
    WithEachAppend(r, a, s[..k], s[k + 1..]);
  }

  lemma {:induction false} WithEachPermuted(r: Round, a: Row, s: seq<Row>, t: seq<Row>)
    requires r.Ok() && r.Fits(a) && r.Shaped(s) && r.Shaped(t) && multiset(s) == multiset(t)
    ensures multiset(r.WithEach(a, s)) == multiset(r.WithEach(a, t))
    decreases |s|
  {
    if s == [] {
      assert |t| == |multiset(t)| == |multiset(s)| == 0;
    } else {
      assert s[0] in multiset(t);
      var k :| 0 <= k < |t| && t[k] == s[0];
      SameRest(s, t, k);
      WithEachPermuted(r, a, s[1..], Without(t, k));
      WithEachMoved(r, a, t, k);
      WithEachMoved(r, a, s, 0);
      assert Without(s, 0) == s[1..];
    }
  }

  lemma SwapPair(r: Round, a: Row, b: Row)
    requires r.Ok() && r.Fits(a) && r.Fits(b)
    ensures r.WithEach(a, [b]) == r.WithEach(b, [a])
  {
    EmitSymmetric(r, a, b);
    assert r.WithEach(a, []) == [] == r.WithEach(b, []);
  }

  /** Any row of the table can be taken first. */
  lemma {:induction false} PairsMoved(r: Round, s: seq<Row>, k: nat)
    requires r.Ok() && r.Shaped(s) && k < |s|
    ensures multiset(r.Pairs(s)) == multiset(r.WithEach(s[k], Without(s, k))) + multiset(r.Pairs(Without(s, k)))
    decreases |s|
  {
    hide Round.Collide, Round.Emit, Round.WithEach;
    if k == 0 {
      assert Without(s, 0) == s[1..];
    } else {
      var a, b, rest, t := s[0], s[k], s[1..], Without(s[1..], k - 1);
      PairsMoved(r, rest, k - 1);
      WithEachMoved(r, a, rest, k - 1);
      assert Without(s, k) == [a] + t;
      WithEachAppend(r, b, [a], t);
      SwapPair(r, a, b);
      assert ([a] + t)[1..] == t;
    }
  }

  /** The nested loop's result, as a multiset, does not depend on the order of the table. */
  lemma {:induction false} PairsPermuted(r: Round, s: seq<Row>, t: seq<Row>)
    requires r.Ok() && r.Shaped(s) && r.Shaped(t) && multiset(s) == multiset(t)
    ensures multiset(r.Pairs(s)) == multiset(r.Pairs(t))
    decreases |s|
  {
    if s == [] {
      assert |t| == |multiset(t)| == |multiset(s)| == 0;
    } else {
      assert s[0] in multiset(t);
      var k :| 0 <= k < |t| && t[k] == s[0];
      SameRest(s, t, k);
      PairsPermuted(r, s[1..], Without(t, k));
      WithEachPermuted(r, s[0], s[1..], Without(t, k));
      PairsMoved(r, t, k);
    }
  }

  // ---------- sorting ----------

  /** CompareSR(len) */
  predicate Less(a: Row, b: Row, len: nat)
    requires len <= |a.hash| && len <= |b.hash|
  {
    Before(a.hash[..len], b.hash[..len])
  }

  predicate LongEnough(X: seq<Row>, len: nat) { forall i :: 0 <= i < |X| ==> len <= |X[i].hash| }

  predicate Sorted(X: seq<Row>, len: nat)
    requires LongEnough(X, len)
  {
    forall i, j :: 0 <= i < j < |X| ==> !Less(X[j], X[i], len)
  }

  lemma NotLessTransitive(a: Row, b: Row, c: Row, len: nat)
    requires len <= |a.hash| && len <= |b.hash| && len <= |c.hash|
    requires !Less(b, a, len) && !Less(c, b, len)
    ensures !Less(c, a, len)
    ensures HasCollision(a, c, len) ==> HasCollision(a, b, len)
  {
    var x, y, z := a.hash[..len], b.hash[..len], c.hash[..len];
    BeforeTotal(x, y);
    BeforeTotal(y, z);
    BeforeTotal(x, z);
    if Before(z, x) {
      if y != z { BeforeTransitive(y, z, x); }
    }
  }

  lemma LessAsymmetric(a: Row, b: Row, len: nat)
    requires len <= |a.hash| && len <= |b.hash| && Less(a, b, len)
    ensures !Less(b, a, len)
  {
    BeforeTotal(a.hash[..len], b.hash[..len]);
  }

  /** std::sort with CompareSR(len): some permutation in that order. Only the contract is used. */
  method SortRows(X: seq<Row>, len: nat) returns (Y: seq<Row>)
    requires LongEnough(X, len)
    ensures multiset(Y) == multiset(X) && |Y| == |X|
    ensures LongEnough(Y, len) && Sorted(Y, len)
  {
    hide Less;
    Y := [];
    var n := 0;
    while n < |X|
      invariant 0 <= n <= |X| && |Y| == n
      invariant multiset(Y) == multiset(X[..n])
      invariant LongEnough(Y, len) && Sorted(Y, len)
    {
      var p := n;
      while p > 0 && Less(X[n], Y[p - 1], len)
        invariant 0 <= p <= n
        invariant forall i :: p <= i < n ==> Less(X[n], Y[i], len)
      {
        p := p - 1;
      }
      InsertSorted(Y, X[n], p, len);
      InsertMultiset(Y, X[n], p);
      assert X[..n + 1] == X[..n] + [X[n]];
      Y := Y[..p] + [X[n]] + Y[p..];
      n := n + 1;
    }
    assert X[..n] == X;
  }

  lemma InsertSorted(Y: seq<Row>, x: Row, p: nat, len: nat)
    requires p <= |Y| && len <= |x.hash| && LongEnough(Y, len) && Sorted(Y, len)
    requires p > 0 ==> !Less(x, Y[p - 1], len)
    requires forall i :: p <= i < |Y| ==> Less(x, Y[i], len)
    ensures var Z := Y[..p] + [x] + Y[p..]; LongEnough(Z, len) && Sorted(Z, len)
  {
    hide Less;
    forall i | p <= i < |Y| ensures !Less(Y[i], x, len) {
      LessAsymmetric(x, Y[i], len);
    }
    forall i | 0 <= i < p ensures !Less(x, Y[i], len) {
      if i < p - 1 { NotLessTransitive(Y[i], Y[p - 1], x, len); }
    }
  }

  lemma InsertMultiset(Y: seq<Row>, x: Row, p: nat)
    requires p <= |Y|
    ensures multiset(Y[..p] + [x] + Y[p..]) == multiset(Y) + multiset{x}
  {
    assert Y == Y[..p] + Y[p..];
  }

  // ---------- the scan ----------

  /** No row before i collides with one from i on. */
  ghost predicate Closed(r: Round, X: seq<Row>, i: nat)
    requires r.Ok() && r.Shaped(X)
  {
    forall a, b :: 0 <= a < i <= b < |X| ==> !r.Collide(X[a], X[b])
  }

  ghost predicate AllCollide(r: Round, G: seq<Row>)
    requires r.Ok() && r.Shaped(G)
  {
    forall l, m :: 0 <= l < m < |G| ==> r.Collide(G[l], G[m])
  }

  /** Finds the end of the group of rows that collide with row i. */
  method FindGroup(r: Round, X: seq<Row>, i: nat, ghost X0: seq<Row>) returns (j: nat)
    requires r.Ok() && r.Shaped(X0) && LongEnough(X0, r.clen) && Sorted(X0, r.clen) && Closed(r, X0, i)
    requires |X| == |X0| && i < |X| && X[i..] == X0[i..]
    ensures 1 <= j && i + j <= |X| && Closed(r, X0, i + j)
    ensures AllCollide(r, X0[i..i + j])
  {
    assert forall b :: i <= b < |X| ==> X[b] == X[i..][b - i] == X0[b];
    j := 1;
    while i + j < |X| && HasCollision(X[i], X[i + j], r.clen)
      invariant 1 <= j && i + j <= |X|
      invariant forall l :: i <= l < i + j ==> r.Collide(X0[i], X0[l])
    {
      j := j + 1;
    }
    GroupClosed(r, X0, i, j);
  }

  lemma GroupClosed(r: Round, X: seq<Row>, i: nat, j: nat)
    requires r.Ok() && r.Shaped(X) && LongEnough(X, r.clen) && Sorted(X, r.clen) && Closed(r, X, i)
    requires 1 <= j && i + j <= |X|
    requires forall l :: i <= l < i + j ==> r.Collide(X[i], X[l])
    requires i + j < |X| ==> !r.Collide(X[i], X[i + j])
    ensures Closed(r, X, i + j)
  {
    hide Less;
    forall a, b | 0 <= a < i + j <= b < |X| ensures !r.Collide(X[a], X[b]) {
      if a >= i && b > i + j { NotLessTransitive(X[a], X[i + j], X[b], r.clen); }
    }
  }

  /** The innermost loop: what a contributes with each later row t of its group. */
  method AppendWithEach(r: Round, a: Row, t: seq<Row>, Xc: seq<Row>) returns (out: seq<Row>)
    requires r.Ok() && r.Fits(a) && r.Shaped(t) && forall k :: 0 <= k < |t| ==> r.Collide(a, t[k])
    ensures out == Xc + r.WithEach(a, t)
  {
    hide Round.Collide, Round.Emit;
    out := Xc;
    var m := 0;
    assert t[0..] == t;
    while m < |t|
      invariant 0 <= m <= |t| && out + r.WithEach(a, t[m..]) == Xc + r.WithEach(a, t)
    {
      assert t[m..][1..] == t[m + 1..];
      assert out + (r.Emit(a, t[m]) + r.WithEach(a, t[m + 1..])) == (out + r.Emit(a, t[m])) + r.WithEach(a, t[m + 1..]);
      out := out + r.Emit(a, t[m]);
      m := m + 1;
    }
    assert t[m..] == [] && out + [] == out;
  }

  /** Appends what the pairs of a group contribute. */
  method AppendGroup(r: Round, X: seq<Row>, i: nat, j: nat, Xc: seq<Row>) returns (out: seq<Row>)
    requires r.Ok() && 1 <= j && i + j <= |X| && r.Shaped(X[i..i + j])
    requires AllCollide(r, X[i..i + j])
    ensures out == Xc + r.Pairs(X[i..i + j])
  {
    hide Round.Collide, Round.WithEach;
    ghost var G := X[i..i + j];
    out := Xc;
    assert G[0..] == G;
    var l := 0;
    while l < j - 1
      invariant 0 <= l <= j - 1
      invariant out + r.Pairs(G[l..]) == Xc + r.Pairs(G)
    {
      assert G[l..][1..] == G[l + 1..] && X[i + l + 1..i + j] == G[l + 1..];
      assert out + (r.WithEach(G[l], G[l + 1..]) + r.Pairs(G[l + 1..]))
          == (out + r.WithEach(G[l], G[l + 1..])) + r.Pairs(G[l + 1..]);
      out := AppendWithEach(r, X[i + l], X[i + l + 1..i + j], out);
      l := l + 1;
    }
    LastRow(r, G, l);
    assert out + [] == out;
  }

  lemma Popped(X: seq<Row>, p: nat, Xc: seq<Row>)
    requires p < |X| && Xc != []
    ensures var n := |Xc| - 1;
            multiset(X[p := Xc[n]][..p + 1]) + multiset(Xc[..n]) == multiset(X[..p]) + multiset(Xc)
  {
    var n := |Xc| - 1;
    assert X[p := Xc[n]][..p + 1] == X[..p] + [Xc[n]];
    assert Xc == Xc[..n] + [Xc[n]];
  }

  /** Stores rows from the back of Xc into the table, up to position limit. */
  method StoreFreed(X: seq<Row>, posFree: nat, limit: nat, Xc: seq<Row>)
    returns (X': seq<Row>, posFree': nat, Xc': seq<Row>)
    requires posFree <= limit <= |X|
    ensures posFree <= posFree' <= limit && |X'| == |X| && X'[limit..] == X[limit..]
    ensures multiset(X'[..posFree']) + multiset(Xc') == multiset(X[..posFree]) + multiset(Xc)
    ensures posFree' == limit || Xc' == []
  {
    X', posFree', Xc' := X, posFree, Xc;
    while posFree' < limit && |Xc'| > 0
      invariant posFree <= posFree' <= limit && |X'| == |X| && X'[limit..] == X[limit..]
      invariant multiset(X'[..posFree']) + multiset(Xc') == multiset(X[..posFree]) + multiset(Xc)
    {
      Popped(X', posFree', Xc');
      X', posFree', Xc' := X'[posFree' := Xc'[|Xc'| - 1]], posFree' + 1, Xc'[..|Xc'| - 1];
    }
  }

  /** A round in place: the result replaces the sorted table. No row is overwritten before the
      scan has passed it, and what is left is exactly the rows of the nested loop. */
  method CollideInPlace(r: Round, X0: seq<Row>) returns (X: seq<Row>)
    requires r.Ok() && r.Shaped(X0) && LongEnough(X0, r.clen) && Sorted(X0, r.clen)
    requires |X0| > 0
    ensures multiset(X) == multiset(r.Pairs(X0))
  {
    hide Round.Collide, Round.Pairs, Sorted;
    X := X0;
    var i, posFree := 0, 0;
    var Xc: seq<Row> := [];
    NoPairs(r, X0);
    while i < |X| - 1
      invariant 0 <= posFree <= i <= |X| == |X0|
      invariant X[i..] == X0[i..] && Closed(r, X0, i)
      invariant multiset(X[..posFree]) + multiset(Xc) == multiset(r.Pairs(X0[..i]))
    {
      var j := FindGroup(r, X, i, X0);
      assert X[i..i + j] == X0[i..i + j] by { SliceOfSuffix(X, X0, i, j); }
      ghost var Xc0 := Xc;
      Xc := AppendGroup(r, X, i, j, Xc);
      GroupPairs(r, X0, i, j);
      assert X[i + j..] == X0[i + j..] by { SuffixOfSuffix(X, X0, i, j); }
      X, posFree, Xc := StoreFreed(X, posFree, i + j, Xc);
      i := i + j;
    }
    GroupPairs(r, X0, i, |X0| - i);
    LastRow(r, X0, i);
    assert X0[..i + (|X0| - i)] == X0 && X0[i..i + (|X0| - i)] == X0[i..];
    X, posFree, Xc := StoreFreed(X, posFree, |X|, Xc);
    if |Xc| > 0 {
      assert X[..posFree] == X;
      X := X + Xc;
    } else if posFree < |X| {
      X := X[..posFree];
    } else {
      assert X[..posFree] == X;
    }
  }

  lemma SliceOfSuffix(X: seq<Row>, Y: seq<Row>, i: nat, j: nat)
    requires i + j <= |X| == |Y| && X[i..] == Y[i..]
    ensures X[i..i + j] == Y[i..i + j]
  {
    assert X[i..i + j] == X[i..][..j];
    assert Y[i..i + j] == Y[i..][..j];
  }

  lemma SuffixOfSuffix(X: seq<Row>, Y: seq<Row>, i: nat, j: nat)
    requires i + j <= |X| == |Y| && X[i..] == Y[i..]
    ensures X[i + j..] == Y[i + j..]
  {
    assert X[i + j..] == X[i..][j..];
    assert Y[i + j..] == Y[i..][j..];
  }

  lemma NoPairs(r: Round, X: seq<Row>)
    requires r.Ok() && r.Shaped(X)
    ensures r.Pairs(X[..0]) == []
    ensures Closed(r, X, 0)
  {}

  lemma LastRow(r: Round, X: seq<Row>, i: nat)
    requires r.Ok() && r.Shaped(X) && i <= |X| <= i + 1
    ensures r.Pairs(X[i..]) == []
  {
    if i < |X| { assert X[i..] == [X[i]]; }
  }

  lemma GroupPairs(r: Round, X: seq<Row>, i: nat, j: nat)
    requires r.Ok() && r.Shaped(X) && i + j <= |X| && Closed(r, X, i)
    ensures r.Pairs(X[..i + j]) == r.Pairs(X[..i]) + r.Pairs(X[i..i + j])
  {
    var s, t := X[..i], X[i..i + j];
    assert X[..i + j] == s + t;
    PairsSplit(r, s, t);
  }
}
