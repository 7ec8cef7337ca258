/** BasicSolve: rounds of sort-and-collide over the table of all indices, then one round on the
    whole remaining hash. It hands out exactly the solutions the verifier accepts, each once. */
module BasicSolver {
  import opened Bits
  import opened BitPacking
  import opened StepRows
  import opened CollisionRounds
  import opened EquihashTree
  import opened Wrappers

  // ---------- membership in the nested loop ----------

  lemma {:induction false} WithEachContains(r: Round, a: Row, s: seq<Row>, k: nat, row: Row)
    requires r.Ok() && r.Fits(a) && r.Shaped(s) && k < |s| && r.Collide(a, s[k]) && row in r.Emit(a, s[k])
    ensures row in r.WithEach(a, s)
  {
    hide Round.Collide, Round.Emit;
    if k > 0 { WithEachContains(r, a, s[1..], k - 1, row); }
  }

  lemma {:induction false} WithEachFrom(r: Round, a: Row, s: seq<Row>, row: Row) returns (k: nat)
    requires r.Ok() && r.Fits(a) && r.Shaped(s) && row in r.WithEach(a, s)
    ensures k < |s| && r.Collide(a, s[k]) && row in r.Emit(a, s[k])
  {
    hide Round.Collide, Round.Emit;
    if r.Collide(a, s[0]) && row in r.Emit(a, s[0]) {
      k := 0;
    } else {
      k := WithEachFrom(r, a, s[1..], row);
      k := k + 1;
    }
  }

  /** A colliding pair of positions contributes its row. */
  lemma {:induction false} PairsContain(r: Round, X: seq<Row>, l: nat, m: nat, row: Row)
    requires r.Ok() && r.Shaped(X) && l < m < |X| && r.Collide(X[l], X[m]) && row in r.Emit(X[l], X[m])
    ensures row in r.Pairs(X)
  {
    hide Round.Collide, Round.Emit;
    if l == 0 {
      WithEachContains(r, X[0], X[1..], m - 1, row);
    } else {
      PairsContain(r, X[1..], l - 1, m - 1, row);
    }
  }

  /** Every row of the result comes from a colliding pair of positions. */
  lemma {:induction false} PairsFrom(r: Round, X: seq<Row>, row: Row) returns (l: nat, m: nat)
    requires r.Ok() && r.Shaped(X) && row in r.Pairs(X)
    ensures l < m < |X| && r.Collide(X[l], X[m]) && row in r.Emit(X[l], X[m])
  {
    hide Round.Collide, Round.Emit;
    if row in r.WithEach(X[0], X[1..]) {
      m := WithEachFrom(r, X[0], X[1..], row);
      l, m := 0, m + 1;
    } else {
      l, m := PairsFrom(r, X[1..], row);
      l, m := l + 1, m + 1;
    }
  }

  // ---------- no row twice ----------

  /** No two rows have the same index list. */
  ghost predicate Separate(X: seq<Row>)
  {
    forall i, j :: 0 <= i < j < |X| ==> X[i].indices != X[j].indices
  }

  lemma SeparateAppend(s: seq<Row>, t: seq<Row>)
    requires Separate(s) && Separate(t)
    requires forall a, b | a in s && b in t :: a.indices != b.indices
    ensures Separate(s + t)
  {}

  /** A merged index list tells which two lists were merged. */
  lemma MergedFrom(a: Row, b: Row, c: Row, d: Row, trim: nat)
    requires Alike(a, b) && Alike(a, c) && Alike(a, d) && trim <= |a.hash|
    requires Merge(a, b, trim).indices == Merge(c, d, trim).indices
    ensures (a.indices == c.indices && b.indices == d.indices) || (a.indices == d.indices && b.indices == c.indices)
  {
    var n, m := |a.indices|, Merge(a, b, trim).indices;
    assert (m[..n] == a.indices && m[n..] == b.indices) || (m[..n] == b.indices && m[n..] == a.indices);
    assert (m[..n] == c.indices && m[n..] == d.indices) || (m[..n] == d.indices && m[n..] == c.indices);
  }

  lemma {:induction false} WithEachSeparate(r: Round, a: Row, s: seq<Row>)
    requires r.Ok() && r.rule.Distinct? && r.Fits(a) && r.Shaped(s) && Separate(s)
    ensures Separate(r.WithEach(a, s))
  {
    if s != [] {
      WithEachSeparate(r, a, s[1..]);
      var first := if r.Collide(a, s[0]) then r.Emit(a, s[0]) else [];
      forall x, y | x in first && y in r.WithEach(a, s[1..]) ensures x.indices != y.indices {
        var k := WithEachFrom(r, a, s[1..], y);
        DistinctDiffer(a, s[0]);
        assert s[0].indices != s[1 + k].indices;
        if x.indices == y.indices { MergedFrom(a, s[0], a, s[1 + k], r.trim); }
      }
      SeparateAppend(first, r.WithEach(a, s[1..]));
    }
  }

  lemma {:induction false} PairsSeparate(r: Round, X: seq<Row>)
    requires r.Ok() && r.rule.Distinct? && r.Shaped(X) && Separate(X)
    ensures Separate(r.Pairs(X))
  {
    if X != [] {
      var rest := X[1..];
      PairsSeparate(r, rest);
      WithEachSeparate(r, X[0], rest);
      forall x, y | x in r.WithEach(X[0], rest) && y in r.Pairs(rest) ensures x.indices != y.indices {
        var k := WithEachFrom(r, X[0], rest, x);
        var l, m := PairsFrom(r, rest, y);
        if x.indices == y.indices { MergedFrom(X[0], rest[k], rest[l], rest[m], r.trim); }
      }
      SeparateAppend(r.WithEach(X[0], rest), r.Pairs(rest));
    }
  }

  ghost predicate NoDuplicates(X: seq<Row>)
  {
    forall x :: multiset(X)[x] <= 1
  }

  lemma {:induction false} SeparateNoDuplicates(X: seq<Row>)
    requires Separate(X)
    ensures NoDuplicates(X)
  {
    if X != [] {
      var n := |X| - 1;
      SeparateNoDuplicates(X[..n]);
      assert X == X[..n] + [X[n]];
      forall x ensures multiset(X)[x] <= 1 {
        if x == X[n] { assert x !in X[..n]; }
      }
    }
  }

  lemma TwoPlaces(X: seq<Row>, i: nat, j: nat)
    requires i < j < |X| && NoDuplicates(X)
    ensures X[i] != X[j]
  {
    assert X == X[..i] + [X[i]] + X[i + 1..j] + [X[j]] + X[j + 1..];
    assert multiset(X)[X[i]] >= 1 + (if X[j] == X[i] then 1 else 0);
  }

  // ---------- the table after r rounds ----------

  /** The row of a valid index tree of height r. */
  ghost predicate InTree(p: Equihash, row: Row, r: nat)
    requires p.Valid() && r <= p.K
  {
    |row.indices| == Pow2(r) && p.InRange(row.indices) && p.TreeRow(row.indices, r) == Some(row)
  }

  /** The table holds the row of every valid index tree of height r, once, and nothing else. */
  ghost predicate TableAt(p: Equihash, X: seq<Row>, r: nat)
    requires p.Valid() && r <= p.K
  {
    NoDuplicates(X) && forall row :: row in X <==> InTree(p, row, r)
  }

  /** The parameters of round r+1, and of the last one. */
  function RoundAt(p: Equihash, r: nat): (s: Round)
    requires p.Valid() && r < p.K
    ensures s.Ok()
  {
    Round(p.HashLen(r), Pow2(r), p.CollisionByteLength(), p.CollisionByteLength(), Distinct)
  }

  function FinalRound(p: Equihash): (s: Round)
    requires p.Valid()
    ensures s.Ok()
  {
    Round(p.HashLen(p.K - 1), Pow2(p.K - 1), p.HashLen(p.K - 1), 0, Distinct)
  }

  lemma TableShaped(p: Equihash, X: seq<Row>, r: nat)
    requires p.Valid() && r < p.K && TableAt(p, X, r)
    ensures RoundAt(p, r).Shaped(X) && Separate(X)
  {
    forall i | 0 <= i < |X| ensures RoundAt(p, r).Fits(X[i]) && InTree(p, X[i], r) {
      assert X[i] in X;
    }
    forall i, j | 0 <= i < j < |X| ensures X[i].indices != X[j].indices {
      TwoPlaces(X, i, j);
    }
  }

  /** A colliding, distinct pair of trees is a tree, whichever comes first. */
  lemma PairIsTree(p: Equihash, r: nat, a: Row, b: Row)
    requires p.Valid() && r < p.K && InTree(p, a, r) && InTree(p, b, r)
    requires HasCollision(a, b, p.CollisionByteLength()) && DistinctIndices(a, b)
    ensures InTree(p, Merge(a, b, p.CollisionByteLength()), r + 1)
  {
    DistinctDiffer(a, b);
    MergeSymmetric(a, b, p.CollisionByteLength());
    var (x, y) := if IndicesBefore(a, b) then (a, b) else (b, a);
    DistinctDiffer(x, y);
    var ix := x.indices + y.indices;
    assert ix[..Pow2(r)] == x.indices && ix[Pow2(r)..] == y.indices;
  }

  /** A tree is a colliding, distinct pair of trees. */
  lemma TreeIsPair(p: Equihash, r: nat, row: Row) returns (a: Row, b: Row)
    requires p.Valid() && r < p.K && InTree(p, row, r + 1)
    ensures InTree(p, a, r) && InTree(p, b, r) && a != b
    ensures HasCollision(a, b, p.CollisionByteLength()) && DistinctIndices(a, b)
    ensures row == Merge(a, b, p.CollisionByteLength())
  {
    var ix, half := row.indices, Pow2(r);
    a, b := p.TreeRow(ix[..half], r).value, p.TreeRow(ix[half..], r).value;
    DistinctDiffer(a, b);
  }

  /** One round takes the table of height r to the table of height r+1. */
  lemma RoundStep(p: Equihash, X: seq<Row>, Y: seq<Row>, r: nat)
    requires p.Valid() && r < p.K && TableAt(p, X, r)
    requires RoundAt(p, r).Shaped(X) && multiset(Y) == multiset(RoundAt(p, r).Pairs(X))
    ensures TableAt(p, Y, r + 1)
  {
    var s := RoundAt(p, r);
    TableShaped(p, X, r);
    PairsSeparate(s, X);
    SeparateNoDuplicates(s.Pairs(X));
    forall row ensures row in Y <==> InTree(p, row, r + 1) {
      assert row in Y <==> row in multiset(Y);
      assert row in s.Pairs(X) <==> row in multiset(s.Pairs(X));
      if row in s.Pairs(X) {
        var l, m := PairsFrom(s, X, row);
        assert X[l] in X && X[m] in X;
        PairIsTree(p, r, X[l], X[m]);
      }
      if InTree(p, row, r + 1) {
        var a, b := TreeIsPair(p, r, row);
        PairPresent(s, X, a, b, row);
      }
    }
  }

  /** A pair of rows of the table contributes, whatever their positions. */
  lemma PairPresent(s: Round, X: seq<Row>, a: Row, b: Row, row: Row)
    requires s.Ok() && s.Shaped(X) && a in X && b in X && a != b
    requires s.Fits(a) && s.Fits(b) && s.Collide(a, b) && row in s.Emit(a, b)
    ensures row in s.Pairs(X)
  {
    var l :| 0 <= l < |X| && X[l] == a;
    var m :| 0 <= m < |X| && X[m] == b;
    EmitSymmetric(s, a, b);
    if l < m { PairsContain(s, X, l, m, row); } else { PairsContain(s, X, m, l, row); }
  }

  /** No tree of a height, no tree of a greater one. */
  lemma EmptyStaysEmpty(p: Equihash, r: nat)
    requires p.Valid() && r < p.K && TableAt(p, [], r)
    ensures TableAt(p, [], r + 1)
  {
    var none: seq<Row> := [];
    forall row ensures row in none <==> InTree(p, row, r + 1) {
      if InTree(p, row, r + 1) { var a, b := TreeIsPair(p, r, row); }
    }
  }

  // ---------- the first table ----------

  ghost predicate FirstRows(p: Equihash, X: seq<Row>)
    requires p.Valid()
  {
    forall k :: 0 <= k < |X| ==> X[k] == p.LeafRow(k)
  }

  lemma FirstTable(p: Equihash, X: seq<Row>)
    requires p.Valid() && |X| == p.InitSize() && FirstRows(p, X)
    ensures TableAt(p, X, 0)
  {
    hide Equihash.Valid, Equihash.StepRow, Equihash.LeafRow;
    forall i, j | 0 <= i < j < |X| ensures X[i].indices != X[j].indices {
      assert X[i].indices[0] == i && X[j].indices[0] == j;
    }
    SeparateNoDuplicates(X);
    forall row ensures row in X <==> InTree(p, row, 0) {
      if row in X {
        var k :| 0 <= k < |X| && X[k] == row;
        assert row.indices == [k];
      }
      if InTree(p, row, 0) {
        assert row == p.LeafRow(row.indices[0]) == X[row.indices[0]];
      }
    }
  }

  /** Index g * perHash + i lies at position i of hash output g. */
  lemma LeafAt(p: Equihash, g: nat, i: nat)
    requires p.Valid() && i < p.IndicesPerHashOutput()
    ensures p.StepRow(p.gen(g), i, g * p.IndicesPerHashOutput() + i) == p.LeafRow(g * p.IndicesPerHashOutput() + i)
  {
    var n := p.IndicesPerHashOutput();
    QuotIsDiv(g * n + i, n);
    QuotRemUnique(g * n + i, n, g, i);
  }

  /** Step 1: rows for all indices, several from each hash output. */
  method GenerateList(p: Equihash) returns (X: seq<Row>)
    requires p.Valid()
    ensures |X| == p.InitSize() && FirstRows(p, X)
  {
    hide Equihash.StepRow, Equihash.LeafRow, Pow2;
    var initSize := Pow2(p.CollisionBitLength() + 1);
    var perHash := p.IndicesPerHashOutput();
    X := [];
    var g := 0;
    while |X| < initSize
      invariant |X| <= initSize && FirstRows(p, X)
      invariant |X| == initSize || |X| == g * perHash
      decreases initSize - |X|
    {
      var tmpHash := p.gen(g);
      ghost var base := |X|;
      var i := 0;
      while i < perHash && |X| < initSize
        invariant 0 <= i <= perHash && |X| <= initSize && FirstRows(p, X)
        invariant |X| == base + i
      {
        LeafAt(p, g, i);
        X := X + [p.StepRow(tmpHash, i, g * perHash + i)];
        i := i + 1;
      }
      assert (g + 1) * perHash == g * perHash + perHash;
      g := g + 1;
    }
  }

  // ---------- the last round ----------

  function Solution(p: Equihash, row: Row): seq<byte> { Packed(row.indices, p.IndexBits()) }

  /** GetIndices of every row. */
  function Solutions(p: Equihash, rows: seq<Row>): seq<seq<byte>>
  {
    seq(|rows|, k requires 0 <= k < |rows| => Solution(p, rows[k]))
  }

  /** The rows of the last round are those of the full trees whose remaining hash is zero. */
  lemma FinalRows(p: Equihash, X: seq<Row>, row: Row)
    requires p.Valid() && TableAt(p, X, p.K - 1)
    ensures FinalRound(p).Shaped(X)
    ensures (exists r :: r in FinalRound(p).Pairs(X) && r.indices == row.indices) <==>
            |row.indices| == Pow2(p.K) && p.InRange(row.indices)
            && var t := p.TreeRow(row.indices, p.K); t.Some? && IsZero(t.value)
  {
    var s, r := FinalRound(p), p.K - 1;
    TableShaped(p, X, r);
    assert s.Shaped(X) by {
      forall i | 0 <= i < |X| ensures s.Fits(X[i]) { assert RoundAt(p, r).Fits(X[i]); }
    }
    if x :| x in s.Pairs(X) && x.indices == row.indices {
      var l, m := PairsFrom(s, X, x);
      assert X[l] in X && X[m] in X;
      FinalPair(p, X[l], X[m]);
    }
    if |row.indices| == Pow2(p.K) && p.InRange(row.indices) {
      var t := p.TreeRow(row.indices, p.K);
      if t.Some? && IsZero(t.value) {
        var a, b := TreeIsPair(p, r, t.value);
        FinalPair(p, a, b);
        PairPresent(s, X, a, b, Merge(a, b, 0));
        assert Merge(a, b, 0) in s.Pairs(X) && Merge(a, b, 0).indices == row.indices;
      }
    }
  }

  /** Agreeing on the whole remaining hash is colliding and combining to zero. */
  lemma FinalPair(p: Equihash, a: Row, b: Row)
    requires p.Valid() && InTree(p, a, p.K - 1) && InTree(p, b, p.K - 1) && DistinctIndices(a, b)
    ensures var m := Merge(a, b, p.CollisionByteLength());
            m.indices == Merge(a, b, 0).indices &&
            (HasCollision(a, b, p.HashLen(p.K - 1)) <==>
             HasCollision(a, b, p.CollisionByteLength()) && InTree(p, m, p.K) && IsZero(m))
  {
    var c, m := p.CollisionByteLength(), Merge(a, b, p.CollisionByteLength());
    assert m.indices == Merge(a, b, 0).indices;
    hide Merge, Equihash.TreeRow;
    WholeHash(a, b, p.HashLen(p.K - 1), c);
    if HasCollision(a, b, c) { PairIsTree(p, p.K - 1, a, b); }
  }

  lemma WholeHash(a: Row, b: Row, len: nat, c: nat)
    requires Alike(a, b) && c <= |a.hash| == len
    ensures HasCollision(a, b, len) <==> HasCollision(a, b, c) && IsZero(Merge(a, b, c))
  {
    hide Merge;
    MergeZero(a, b, c);
    SplitAt(a.hash, c);
    SplitAt(b.hash, c);
    assert a.hash[..len] == a.hash && b.hash[..len] == b.hash;
  }

  lemma SolutionsAppend(p: Equihash, s: seq<Row>, t: seq<Row>)
    ensures Solutions(p, s + t) == Solutions(p, s) + Solutions(p, t)
  {
    hide Solution;
  }

  /** What a run of offers to validBlock leaves: either all were offered and refused, or the last
      one offered was taken. */
  ghost predicate Offered(all: seq<seq<byte>>, handed: seq<seq<byte>>, validBlock: seq<byte> -> bool, found: bool)
  {
    && handed <= all
    && (!found ==> handed == all && forall k :: 0 <= k < |handed| ==> !validBlock(handed[k]))
    && (found ==> handed != [] && validBlock(handed[|handed| - 1])
                  && forall k :: 0 <= k < |handed| - 1 ==> !validBlock(handed[k]))
  }

  lemma OfferedMore(all: seq<seq<byte>>, more: seq<seq<byte>>, handed: seq<seq<byte>>, validBlock: seq<byte> -> bool)
    requires Offered(all, handed, validBlock, true)
    ensures Offered(all + more, handed, validBlock, true)
  {}

  lemma OfferOne(all: seq<seq<byte>>, x: seq<byte>, validBlock: seq<byte> -> bool)
    requires Offered(all, all, validBlock, false)
    ensures Offered(all + [x], all + [x], validBlock, validBlock(x))
  {}

  /** The innermost loop of the last round: a against the later rows t of its group. */
  method OfferWithEach(p: Equihash, s: Round, a: Row, t: seq<Row>, before: seq<seq<byte>>, validBlock: seq<byte> -> bool)
    returns (found: bool, handed: seq<seq<byte>>)
    requires p.Valid() && s.Ok() && s.rule.Distinct? && s.Fits(a) && s.Shaped(t)
    requires forall k :: 0 <= k < |t| ==> s.Collide(a, t[k])
    requires Offered(before, before, validBlock, false)
    ensures Offered(before + Solutions(p, s.WithEach(a, t)), handed, validBlock, found)
  {
    hide Round.WithEach, Round.Collide, Offered, Solution, Solutions, Equihash.Valid;
    handed := before;
    NoneYet(p, s, a, before);
    var m := 0;
    assert t[..0] == [];
    while m < |t|
      invariant 0 <= m <= |t|
      invariant handed == before + Solutions(p, s.WithEach(a, t[..m])) && Offered(handed, handed, validBlock, false)
    {
      OneMore(p, s, a, t, m, before);
      if DistinctIndices(a, t[m]) {
        var res := Merge(a, t[m], s.trim);
        var soln := Solution(p, res);
        OfferOne(handed, soln, validBlock);
        handed := handed + [soln];
        if validBlock(soln) {
          OfferedMore(handed, Solutions(p, s.WithEach(a, t[m + 1..])), handed, validBlock);
          return true, handed;
        }
      }
      m := m + 1;
    }
    assert t[..m] == t;
    found := false;
  }

  lemma NoneYet(p: Equihash, s: Round, a: Row, before: seq<seq<byte>>)
    requires s.Ok() && s.Fits(a)
    ensures before + Solutions(p, s.WithEach(a, [])) == before
  {}

  lemma Associate<T>(a: seq<T>, b: seq<T>, c: seq<T>)
    ensures a + (b + c) == (a + b) + c
  {}

  lemma OneMore(p: Equihash, s: Round, a: Row, t: seq<Row>, m: nat, before: seq<seq<byte>>)
    requires s.Ok() && s.rule.Distinct? && s.Fits(a) && s.Shaped(t) && m < |t| && s.Collide(a, t[m])
    ensures before + Solutions(p, s.WithEach(a, t[..m + 1])) == (before + Solutions(p, s.WithEach(a, t[..m])))
              + (if DistinctIndices(a, t[m]) then [Solution(p, Merge(a, t[m], s.trim))] else [])
    ensures before + Solutions(p, s.WithEach(a, t))
         == (before + Solutions(p, s.WithEach(a, t[..m + 1]))) + Solutions(p, s.WithEach(a, t[m + 1..]))
  {
    hide Solution, Solutions, Round.WithEach, Round.Collide;
    SingleSolution(p, s, a, t[m]);
    Associate(before, Solutions(p, s.WithEach(a, t[..m])), Solutions(p, s.WithEach(a, [t[m]])));
    Associate(before, Solutions(p, s.WithEach(a, t[..m + 1])), Solutions(p, s.WithEach(a, t[m + 1..])));
    SliceSnoc(t, m);
    WithEachAppend(s, a, t[..m], [t[m]]);
    SolutionsAppend(p, s.WithEach(a, t[..m]), s.WithEach(a, [t[m]]));
    assert t == t[..m + 1] + t[m + 1..];
    WithEachAppend(s, a, t[..m + 1], t[m + 1..]);
    SolutionsAppend(p, s.WithEach(a, t[..m + 1]), s.WithEach(a, t[m + 1..]));
  }

  lemma SingleSolution(p: Equihash, s: Round, a: Row, b: Row)
    requires s.Ok() && s.rule.Distinct? && s.Fits(a) && s.Fits(b) && s.Collide(a, b)
    ensures Solutions(p, s.WithEach(a, [b])) == if DistinctIndices(a, b) then [Solution(p, Merge(a, b, s.trim))] else []
  {
    assert s.WithEach(a, [b]) == s.Emit(a, b) + s.WithEach(a, []);
  }

  /** The two inner loops of the last round over one group. */
  method OfferGroup(p: Equihash, s: Round, G: seq<Row>, before: seq<seq<byte>>, validBlock: seq<byte> -> bool)
    returns (found: bool, handed: seq<seq<byte>>)
    requires p.Valid() && s.Ok() && s.rule.Distinct? && s.Shaped(G) && AllCollide(s, G) && G != []
    requires Offered(before, before, validBlock, false)
    ensures Offered(before + Solutions(p, s.Pairs(G)), handed, validBlock, found)
  {
    hide Round.WithEach, Round.Pairs, Round.Collide, Offered, Solutions, Equihash.Valid;
    handed := before;
    ghost var done: seq<Row> := [];
    FirstRow(p, s, G, before);
    var l := 0;
    while l < |G| - 1
      invariant 0 <= l <= |G| - 1
      invariant done + s.Pairs(G[l..]) == s.Pairs(G)
      invariant handed == before + Solutions(p, done) && Offered(handed, handed, validBlock, false)
    {
      NextRow(p, s, G, l, done, before);
      found, handed := OfferWithEach(p, s, G[l], G[l + 1..], handed, validBlock);
      done := done + s.WithEach(G[l], G[l + 1..]);
      if found {
        OfferedMore(before + Solutions(p, done), Solutions(p, s.Pairs(G[l + 1..])), handed, validBlock);
        return;
      }
      AllOffered(before + Solutions(p, done), handed, validBlock);
      l := l + 1;
    }
    LastRow(s, G, l);
    assert done + [] == done;
    found := false;
  }

  lemma FirstRow(p: Equihash, s: Round, G: seq<Row>, before: seq<seq<byte>>)
    requires s.Ok() && s.Shaped(G)
    ensures [] + s.Pairs(G[0..]) == s.Pairs(G) && before + Solutions(p, []) == before
  {
    assert G[0..] == G;
  }

  lemma NextRow(p: Equihash, s: Round, G: seq<Row>, l: nat, done: seq<Row>, before: seq<seq<byte>>)
    requires s.Ok() && s.Shaped(G) && l < |G| && done + s.Pairs(G[l..]) == s.Pairs(G)
    ensures var now := done + s.WithEach(G[l], G[l + 1..]);
            now + s.Pairs(G[l + 1..]) == s.Pairs(G) &&
            before + Solutions(p, now) == (before + Solutions(p, done)) + Solutions(p, s.WithEach(G[l], G[l + 1..])) &&
            before + Solutions(p, s.Pairs(G)) == (before + Solutions(p, now)) + Solutions(p, s.Pairs(G[l + 1..]))
  {
    hide Round.WithEach, Solutions;
    assert G[l..][1..] == G[l + 1..];
    var w, rest := s.WithEach(G[l], G[l + 1..]), s.Pairs(G[l + 1..]);
    assert done + (w + rest) == (done + w) + rest;
    SolutionsAppend(p, done, w);
    SolutionsAppend(p, done + w, rest);
    Associate(before, Solutions(p, done), Solutions(p, w));
    Associate(before, Solutions(p, done + w), Solutions(p, rest));
  }

  /** The last round: solutions are offered as they are found. */
  method OfferPairs(p: Equihash, s: Round, X: seq<Row>, validBlock: seq<byte> -> bool)
    returns (found: bool, handed: seq<seq<byte>>)
    requires p.Valid() && s.Ok() && s.rule.Distinct? && s.Shaped(X)
    requires LongEnough(X, s.clen) && Sorted(X, s.clen) && |X| > 1
    ensures Offered(Solutions(p, s.Pairs(X)), handed, validBlock, found)
  {
    hide Round.Collide, Round.Pairs, Sorted, Offered, Equihash.Valid, Solutions;
    handed := [];
    var i := 0;
    NoPairs(s, X);
    NothingOffered(p, validBlock);
    while i < |X| - 1
      invariant 0 <= i <= |X| && Closed(s, X, i)
      invariant handed == Solutions(p, s.Pairs(X[..i])) && Offered(handed, handed, validBlock, false)
    {
      var j := FindGroup(s, X, i, X);
      GroupPairs(s, X, i, j);
      SolutionsAppend(p, s.Pairs(X[..i]), s.Pairs(X[i..i + j]));
      found, handed := OfferGroup(p, s, X[i..i + j], handed, validBlock);
      if found {
        RestOfPairs(s, X, i + j);
        SolutionsAppend(p, s.Pairs(X[..i + j]), s.Pairs(X[i + j..]));
        OfferedMore(Solutions(p, s.Pairs(X[..i + j])), Solutions(p, s.Pairs(X[i + j..])), handed, validBlock);
        return;
      }
      AllOffered(Solutions(p, s.Pairs(X[..i + j])), handed, validBlock);
      i := i + j;
    }
    RestOfPairs(s, X, i);
    LastRow(s, X, i);
    assert s.Pairs(X[..i]) + [] == s.Pairs(X[..i]);
    found := false;
  }

  lemma NothingOffered(p: Equihash, validBlock: seq<byte> -> bool)
    ensures Solutions(p, []) == [] && Offered([], [], validBlock, false)
  {}

  lemma AllOffered(all: seq<seq<byte>>, handed: seq<seq<byte>>, validBlock: seq<byte> -> bool)
    requires Offered(all, handed, validBlock, false)
    ensures handed == all
  {}

  lemma RestOfPairs(s: Round, X: seq<Row>, i: nat)
    requires s.Ok() && s.Shaped(X) && i <= |X| && Closed(s, X, i)
    ensures s.Pairs(X) == s.Pairs(X[..i]) + s.Pairs(X[i..])
  {
    GroupPairs(s, X, i, |X| - i);
    assert X[..i + (|X| - i)] == X && X[i..i + (|X| - i)] == X[i..];
  }

  // ---------- BasicSolve ----------

  /** What BasicSolve promises about the byte strings it hands to validBlock: they are accepted by
      the verifier, no two are equal, and every accepted one is reached unless the run stopped. */
  ghost predicate SoundAndComplete(p: Equihash, handed: seq<seq<byte>>, validBlock: seq<byte> -> bool, found: bool)
    requires p.Valid()
  {
    && (forall k :: 0 <= k < |handed| ==> p.ValidSolution(handed[k]))
    && (forall i, j :: 0 <= i < j < |handed| ==> handed[i] != handed[j])
    && (!found ==> forall soln :: p.ValidSolution(soln) ==> soln in handed)
    && (found <==> exists soln :: p.ValidSolution(soln) && validBlock(soln))
    && (forall k :: 0 <= k < |handed| ==> (validBlock(handed[k]) <==> found && k == |handed| - 1))
  }

  lemma PermutedShape(s: Round, X: seq<Row>, Y: seq<Row>)
    requires s.Ok() && s.Shaped(X) && multiset(X) == multiset(Y)
    ensures s.Shaped(Y) && LongEnough(Y, s.clen)
  {
    forall i | 0 <= i < |Y| ensures s.Fits(Y[i]) {
      assert Y[i] in multiset(Y);
      assert Y[i] in X;
    }
  }

  lemma {:induction false} EmptyToEnd(p: Equihash, X: seq<Row>, r: nat)
    requires p.Valid() && r < p.K && TableAt(p, X, r) && (r == p.K - 1 || X == [])
    ensures TableAt(p, X, p.K - 1)
    decreases p.K - r
  {
    if r < p.K - 1 {
      EmptyStaysEmpty(p, r);
      EmptyToEnd(p, X, r + 1);
    }
  }

  method LastRound(p: Equihash, X0: seq<Row>, validBlock: seq<byte> -> bool)
    returns (found: bool, handed: seq<seq<byte>>)
    requires p.Valid() && TableAt(p, X0, p.K - 1)
    ensures SoundAndComplete(p, handed, validBlock, found)
  {
    var s := FinalRound(p);
    ShapedFinal(p, X0);
    var X := X0;
    if |X| > 1 {
      X := SortRows(X, p.HashLen(p.K - 1));
      PermutedShape(s, X0, X);
      SameTable(p, X0, X, p.K - 1);
      found, handed := OfferPairs(p, s, X, validBlock);
    } else {
      LastRow(s, X, 0);
      assert X[0..] == X;
      NothingOffered(p, validBlock);
      found, handed := false, [];
    }
    FinalSolutions(p, X, handed, validBlock, found);
  }

  lemma ShapedFinal(p: Equihash, X: seq<Row>)
    requires p.Valid() && TableAt(p, X, p.K - 1)
    ensures FinalRound(p).Shaped(X) && Separate(X)
  {
    TableShaped(p, X, p.K - 1);
    forall i | 0 <= i < |X| ensures FinalRound(p).Fits(X[i]) { assert RoundAt(p, p.K - 1).Fits(X[i]); }
  }

  lemma SameTable(p: Equihash, X: seq<Row>, Y: seq<Row>, r: nat)
    requires p.Valid() && r <= p.K && TableAt(p, X, r) && multiset(X) == multiset(Y)
    ensures TableAt(p, Y, r)
  {
    forall row ensures row in Y <==> InTree(p, row, r) {
      assert row in Y <==> row in multiset(Y);
      assert row in X <==> row in multiset(X);
    }
  }

  /** A byte string is accepted exactly when it packs the indices of a row of the last round. */
  lemma AcceptedIsHanded(p: Equihash, X: seq<Row>, soln: seq<byte>)
    requires p.Valid() && TableAt(p, X, p.K - 1) && FinalRound(p).Shaped(X)
    ensures p.ValidSolution(soln) <==> soln in Solutions(p, FinalRound(p).Pairs(X))
  {
    var rows := FinalRound(p).Pairs(X);
    if p.ValidSolution(soln) {
      SolutionIndices(p, soln);
      var ix := Elements(soln, p.IndexBits());
      FinalRows(p, X, Row([], ix));
      var x :| x in rows && x.indices == ix;
      var k :| 0 <= k < |rows| && rows[k] == x;
      ExpandThenCompress(soln, p.IndexBits());
      assert Solutions(p, rows)[k] == soln;
    }
    if soln in Solutions(p, rows) {
      var k :| 0 <= k < |rows| && Solutions(p, rows)[k] == soln;
      assert rows[k] in rows;
      FinalRows(p, X, rows[k]);
      PackedIsValid(p, rows[k].indices);
    }
  }

  lemma PackedIsValid(p: Equihash, ix: seq<nat>)
    requires p.Valid() && |ix| == Pow2(p.K) && p.InRange(ix)
    ensures |Packed(ix, p.IndexBits())| == p.SolutionWidth()
    ensures Elements(Packed(ix, p.IndexBits()), p.IndexBits()) == ix
  {
    EightDivides(p.K, p.IndexBits());
    Commute(p.IndexBits(), Pow2(p.K));
    CompressThenExpand(ix, p.IndexBits());
  }

  lemma SolutionsDiffer(p: Equihash, X: seq<Row>, i: nat, j: nat)
    requires p.Valid() && TableAt(p, X, p.K - 1) && FinalRound(p).Shaped(X)
    requires i < j < |FinalRound(p).Pairs(X)|
    ensures var s := Solutions(p, FinalRound(p).Pairs(X)); s[i] != s[j]
  {
    var rows := FinalRound(p).Pairs(X);
    ShapedFinal(p, X);
    PairsSeparate(FinalRound(p), X);
    assert rows[i] in rows && rows[j] in rows;
    FinalRows(p, X, rows[i]);
    FinalRows(p, X, rows[j]);
    PackedIsValid(p, rows[i].indices);
    PackedIsValid(p, rows[j].indices);
  }

  lemma FinalSolutions(p: Equihash, X: seq<Row>, handed: seq<seq<byte>>, validBlock: seq<byte> -> bool, found: bool)
    requires p.Valid() && TableAt(p, X, p.K - 1) && FinalRound(p).Shaped(X)
    requires Offered(Solutions(p, FinalRound(p).Pairs(X)), handed, validBlock, found)
    ensures SoundAndComplete(p, handed, validBlock, found)
  {
    var all := Solutions(p, FinalRound(p).Pairs(X));
    forall soln ensures p.ValidSolution(soln) <==> soln in all { AcceptedIsHanded(p, X, soln); }
    forall k | 0 <= k < |handed| ensures p.ValidSolution(handed[k]) { assert handed[k] == all[k]; }
    forall i, j | 0 <= i < j < |handed| ensures handed[i] != handed[j] { SolutionsDiffer(p, X, i, j); }
    if found { assert p.ValidSolution(handed[|handed| - 1]); }
  }

  /** One pass of the main loop: sort the table, then collide it in place. */
  method SortAndCollide(p: Equihash, X0: seq<Row>, r: nat) returns (X: seq<Row>)
    requires p.Valid() && r < p.K && TableAt(p, X0, r) && |X0| > 0
    ensures TableAt(p, X, r + 1)
  {
    hide TableAt, Equihash.Valid, Round.Pairs, Sorted;
    var s := RoundAt(p, r);
    TableShaped(p, X0, r);
    X := SortRows(X0, p.CollisionByteLength());
    PermutedShape(s, X0, X);
    PairsPermuted(s, X0, X);
    X := CollideInPlace(s, X);
    RoundStep(p, X0, X, r);
  }

  method BasicSolve(p: Equihash, validBlock: seq<byte> -> bool)
    returns (found: bool, handed: seq<seq<byte>>)
    requires p.Valid()
    ensures SoundAndComplete(p, handed, validBlock, found)
  {
    assert p.K >= 3;
    hide TableAt, Equihash.Valid, SoundAndComplete;
    var X := GenerateList(p);
    FirstTable(p, X);
    var r := 1;
    while r < p.K && |X| > 0
      invariant 1 <= r <= p.K && TableAt(p, X, r - 1)
    {
      X := SortAndCollide(p, X, r - 1);
      r := r + 1;
    }
    EmptyToEnd(p, X, r - 1);
    found, handed := LastRound(p, X, validBlock);
  }
}
