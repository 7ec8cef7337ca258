/** Trees whose leaves are marked so that all neighbours collide at every level. */
module MarkedTrees {
  import opened Bits
  import opened Words
  import opened BitPacking
  import opened StepRows
  import opened CollisionRounds
  import opened EquihashTree
  import opened Wrappers
  import opened BasicSolver
  import opened TruncatedTables
  import opened Rebuild
  import opened OptimisedSolver
  import opened OptimisedTheorems
  import opened LeafValues
  import opened TruncatedLists

  /** A value of zero or one. */
  type bit = x: nat | x < 2

  function XorBit(l: bit, r: bit): bit { if l == r then 0 else 1 }

  /** Whether 2^t divides q + 1. */
  predicate Mark(t: nat, q: nat) { t == 0 || (q % 2 == 1 && Mark(t - 1, q / 2)) }

  /** A one for each of the first m powers of two that divide q + 1, then the last value. */
  function Marks(m: nat, q: nat, last: bit): (v: seq<byte>)
    ensures |v| == m + 1 && v[m] == last && (m > 0 ==> v[0] == 1)
  {
    seq<byte>(m + 1, t requires 0 <= t <= m => if t == m then last else if Mark(t, q) then 1 else 0)
  }

  /** Neighbours agree on the first value, and the rest combines to the marks of their parent. */
  lemma MarksJoin(m: nat, q: nat, l: bit, r: bit)
    requires m > 0
    ensures var s, t := Marks(m, 2 * q, l)[1..], Marks(m, 2 * q + 1, r)[1..];
            Marks(m, 2 * q, l) == [1] + s && Marks(m, 2 * q + 1, r) == [1] + t && IsXor(s, t, Marks(m - 1, q, XorBit(l, r)))
  {
    hide XorByte, Mark;
    XorValues();
    forall k: nat ensures !Mark(k + 1, 2 * q) && (Mark(k + 1, 2 * q + 1) <==> Mark(k, q)) { MarkStep(k, q); }
    MarkZero(2 * q);
    MarkZero(2 * q + 1);
    var s, t, u := Marks(m, 2 * q, l)[1..], Marks(m, 2 * q + 1, r)[1..], Marks(m - 1, q, XorBit(l, r));
    forall k | 0 <= k < m ensures u[k] == XorByte(s[k], t[k]) {
      assert s[k] == Marks(m, 2 * q, l)[k + 1] && t[k] == Marks(m, 2 * q + 1, r)[k + 1];
    }
  }

  lemma MarkStep(t: nat, q: nat)
    ensures !Mark(t + 1, 2 * q) && (Mark(t + 1, 2 * q + 1) <==> Mark(t, q))
  {}

  lemma MarkZero(q: nat)
    ensures Mark(0, q)
  {}

  // ---------- trees over places ----------

  /** The indices at the places of block q of 2^r places. */
  function Places(order: nat -> nat, q: nat, r: nat): (ix: seq<nat>)
    ensures |ix| == Pow2(r)
  {
    seq<nat>(Pow2(r), i requires 0 <= i < Pow2(r) => order(Start(q, r) + i))
  }

  lemma PlaceAt(order: nat -> nat, q: nat, r: nat, i: nat)
    requires i < Pow2(r)
    ensures Places(order, q, r)[i] == order(Start(q, r) + i)
  {}

  lemma TopPlace(order: nat -> nat, k: nat, i: nat)
    requires i < Pow2(k)
    ensures Places(order, 0, k)[i] == order(i)
  {
    StartZero(k);
  }

  lemma PlacesHalves(order: nat -> nat, q: nat, r: nat)
    ensures Places(order, q, r + 1) == Places(order, 2 * q, r) + Places(order, 2 * q + 1, r)
  {
    Doubling(r + 1);
    StartNext(2 * q, r);
    StartHalf(q, r + 1);
    hide Pow2, Start;
    var ix, R, h := Places(order, q, r + 1), Places(order, 2 * q + 1, r), Pow2(r);
    forall i | 0 <= i < h ensures ix[h + i] == R[i] {
      assert Start(q, r + 1) + (h + i) == Start(2 * q + 1, r) + i;
      assert ix[h + i] == order(Start(q, r + 1) + (h + i));
    }
  }

  /** The exclusive or of the last values of a block. */
  function End(ends: nat -> bit, q: nat, r: nat): bit
    decreases r
  {
    if r == 0 then ends(q) else XorBit(End(ends, 2 * q, r - 1), End(ends, 2 * q + 1, r - 1))
  }

  /** The index at every place has the marks of the place, and the last value given. */
  ghost predicate Laid(p: Equihash, order: nat -> nat, ends: nat -> bit)
    requires p.Valid()
  {
    forall q: nat | q < Pow2(p.K) ::
      order(q) < p.InitSize() && p.LeafRow(order(q)).hash == Spell(Marks(p.K, q, ends(q)), p.CollisionByteLength())
  }

  lemma LeavesLaid(N: nat, K: nat, leaf: nat -> seq<nat>, order: nat -> nat, ends: nat -> bit)
    requires Sizes(N, K) && Fitting(leaf, K + 1, N / (K + 1)) && WithLeaves(N, K, leaf).Valid()
    requires forall q: nat | q < Pow2(K) :: order(q) < WithLeaves(N, K, leaf).InitSize() && leaf(order(q)) == Marks(K, q, ends(q))
    ensures Laid(WithLeaves(N, K, leaf), order, ends)
  {
    hide Equihash.Valid, Equihash.LeafRow, Marks, Cells, Spell, Pow2, Fitting, WithLeaves;
    var p := WithLeaves(N, K, leaf);
    LeavesWidth(N, K, leaf);
    forall q: nat | q < Pow2(K) ensures p.LeafRow(order(q)).hash == Spell(Marks(K, q, ends(q)), p.CollisionByteLength()) {
      LeafHash(N, K, leaf, order(q));
      CellsSpell(Marks(K, q, ends(q)), N / (K + 1));
    }
  }

  lemma LeavesWidth(N: nat, K: nat, leaf: nat -> seq<nat>)
    requires Sizes(N, K)
    ensures var p := WithLeaves(N, K, leaf); p.K == K && p.CollisionByteLength() == ElementBytes(N / (K + 1)) && N / (K + 1) > 0
  {}

  lemma LaidInRange(p: Equihash, order: nat -> nat, ends: nat -> bit, q: nat, r: nat)
    requires p.Valid() && Laid(p, order, ends) && r <= p.K && q < Pow2(p.K - r)
    ensures p.InRange(Places(order, q, r))
  {
    hide Equihash.Valid, Equihash.LeafRow, Spell, Marks, Pow2, Start;
    BlockFits(q, r, p.K);
    var ix := Places(order, q, r);
    forall i | 0 <= i < |ix| ensures ix[i] < p.InitSize() { PlaceAt(order, q, r, i); }
  }

  lemma WidthPositive(p: Equihash)
    requires p.Valid()
    ensures p.CollisionByteLength() > 0
  {}

  /** Two neighbouring rows collide, and their merged row has the marks of the place above. */
  lemma MarksMerge(p: Equihash, a: Row, b: Row, m: nat, q: nat, l: bit, r: bit)
    requires p.Valid() && Alike(a, b) && a.hash == Spell(Marks(m + 1, 2 * q, l), p.CollisionByteLength())
    requires b.hash == Spell(Marks(m + 1, 2 * q + 1, r), p.CollisionByteLength())
    ensures p.CollisionByteLength() <= |a.hash| && HasCollision(a, b, p.CollisionByteLength())
    ensures Merge(a, b, p.CollisionByteLength()).hash == Spell(Marks(m, q, XorBit(l, r)), p.CollisionByteLength())
  {
    hide Equihash.Valid, Spell, Marks, Merge, HasCollision, IsXor, XorBit;
    WidthPositive(p);
    var w := p.CollisionByteLength();
    MarksJoin(m + 1, q, l, r);
    SpellMerge(a, b, 1, Marks(m + 1, 2 * q, l)[1..], Marks(m + 1, 2 * q + 1, r)[1..], Marks(m, q, XorBit(l, r)), w);
  }

  /** The truncated row of every block has the marks of the block. */
  lemma {:induction false} BlockHash(p: Equihash, order: nat -> nat, ends: nat -> bit, q: nat, r: nat)
    requires p.Valid() && Laid(p, order, ends) && r <= p.K && q < Pow2(p.K - r)
    ensures TruncatedTree(p, Places(order, q, r), r).hash == Spell(Marks(p.K - r, q, End(ends, q, r)), p.CollisionByteLength())
    decreases r
  {
    hide Equihash.Valid, Spell, Marks, Pow2, Merge, HasCollision, Laid, TruncatedTree;
    if r == 0 {
      LeafBlockHash(p, order, ends, q);
    } else {
      var a, b := BlockHalves(p, order, ends, q, r - 1);
    }
  }

  lemma LeafBlockHash(p: Equihash, order: nat -> nat, ends: nat -> bit, q: nat)
    requires p.Valid() && Laid(p, order, ends) && q < Pow2(p.K)
    ensures TruncatedTree(p, Places(order, q, 0), 0).hash == Spell(Marks(p.K, q, ends(q)), p.CollisionByteLength())
  {
    hide Equihash.Valid, Spell, Marks, Equihash.LeafRow, Truncate;
    assert Start(q, 0) == q;
    PlaceAt(order, q, 0, 0);
  }

  lemma {:induction false} BlockHalves(p: Equihash, order: nat -> nat, ends: nat -> bit, q: nat, r: nat) returns (a: Row, b: Row)
    requires p.Valid() && Laid(p, order, ends) && r < p.K && q < Pow2(p.K - r - 1)
    ensures var L, R, ix := Places(order, 2 * q, r), Places(order, 2 * q + 1, r), Places(order, q, r + 1);
            && a == TruncatedTree(p, L, r) && b == TruncatedTree(p, R, r) && ix[..Pow2(r)] == L && ix[Pow2(r)..] == R
            && Alike(a, b) && p.CollisionByteLength() <= |a.hash| && HasCollision(a, b, p.CollisionByteLength())
            && TruncatedTree(p, ix, r + 1) == Merge(a, b, p.CollisionByteLength())
            && TruncatedTree(p, ix, r + 1).hash == Spell(Marks(p.K - r - 1, q, End(ends, q, r + 1)), p.CollisionByteLength())
    decreases r + 1, 0
  {
    hide Equihash.Valid, Spell, Marks, Pow2, Merge, HasCollision, Laid, TruncatedTree, Places, Start;
    Doubling(p.K - r);
    PlacesHalves(order, q, r);
    var L, R, ix := Places(order, 2 * q, r), Places(order, 2 * q + 1, r), Places(order, q, r + 1);
    assert ix[..Pow2(r)] == L && ix[Pow2(r)..] == R;
    BlockHash(p, order, ends, 2 * q, r);
    BlockHash(p, order, ends, 2 * q + 1, r);
    a, b := TruncatedTree(p, L, r), TruncatedTree(p, R, r);
    TruncatedNode(p, ix, r + 1);
    MarksMerge(p, a, b, p.K - r - 1, q, End(ends, 2 * q, r), End(ends, 2 * q + 1, r));
  }

  /** Below the top no row has a zero hash, so that every block survives. */
  lemma {:induction false} BlockSurvives(p: Equihash, order: nat -> nat, ends: nat -> bit, q: nat, r: nat)
    requires p.Valid() && Laid(p, order, ends) && r < p.K && q < Pow2(p.K - r)
    ensures Survives(p, Places(order, q, r), r)
    decreases r
  {
    hide Equihash.Valid, Spell, Marks, Pow2, Merge, HasCollision, Laid, TruncatedTree, Places, IsZero;
    if r > 0 {
      Doubling(p.K - r + 1);
      BlockSurvives(p, order, ends, 2 * q, r - 1);
      BlockSurvives(p, order, ends, 2 * q + 1, r - 1);
      var a, b := BlockHalves(p, order, ends, q, r - 1);
      HalfRowsAre(p, Places(order, q, r), r);
      MarkNotZero(p, TruncatedTree(p, Places(order, q, r), r), p.K - r, q, End(ends, q, r));
    }
  }

  lemma MarkNotZero(p: Equihash, row: Row, m: nat, q: nat, last: bit)
    requires p.Valid() && m > 0 && row.hash == Spell(Marks(m, q, last), p.CollisionByteLength())
    ensures !IsZero(row)
  {
    hide Equihash.Valid, Marks;
    assert row.hash[p.CollisionByteLength() - 1] == 1;
  }

  /** The whole tree is found if its last values cancel out and its truncated list is not all paired up. */
  lemma PlacesFound(p: Equihash, order: nat -> nat, ends: nat -> bit)
    requires p.Valid() && Laid(p, order, ends) && End(ends, 0, p.K) == 0
    requires !AllPaired(TruncatedTree(p, Places(order, 0, p.K), p.K).indices)
    ensures Found(p, Places(order, 0, p.K))
  {
    hide Equihash.Valid, Spell, Marks, Merge, HasCollision, Laid, TruncatedTree, Places, IsZero, AllPaired;
    KAtLeast3(p);
    OnePower();
    hide Pow2;
    BlockSurvives(p, order, ends, 0, p.K - 1);
    BlockSurvives(p, order, ends, 1, p.K - 1);
    var a, b := BlockHalves(p, order, ends, 0, p.K - 1);
    HalfRowsAre(p, Places(order, 0, p.K), p.K);
    LastMark(p, TruncatedTree(p, Places(order, 0, p.K), p.K), 0);
    LaidInRange(p, order, ends, 0, p.K);
  }

  lemma OnePower()
    ensures Pow2(0) == 1 && Pow2(1) == 2
  {}

  lemma LastMark(p: Equihash, row: Row, last: bit)
    requires p.Valid() && row.hash == Spell(Marks(0, 0, last), p.CollisionByteLength())
    ensures IsZero(row) <==> last == 0
  {
    hide Equihash.Valid;
    var w := p.CollisionByteLength();
    assert Marks(0, 0, last) == [last];
    assert row.hash == Zeros(w - 1) + [last] + Spell([], w);
    assert row.hash[w - 1] == last;
  }

  // ---------- trees that pass the checks ----------

  /** Different places have different indices, and the first half of every block begins with the
      smaller index. */
  ghost predicate Ascending(order: nat -> nat, k: nat)
  {
    && (forall i, j :: 0 <= i < j < Pow2(k) ==> order(i) != order(j))
    && (forall q: nat, r: nat :: r < k && q < Pow2(k - r - 1) ==> order(Start(2 * q, r)) < order(Start(2 * q + 1, r)))
  }

  /** The one list begins with a smaller index than the other, and they have none in common. */
  predicate Apart(L: seq<nat>, R: seq<nat>)
  {
    |L| > 0 && |R| > 0 && L[0] < R[0] && forall i, j :: 0 <= i < |L| && 0 <= j < |R| ==> L[i] != R[j]
  }

  /** Every block is a tree. */
  lemma {:induction false} BlockTree(p: Equihash, order: nat -> nat, ends: nat -> bit, q: nat, r: nat)
    requires p.Valid() && Laid(p, order, ends) && Ascending(order, p.K) && r <= p.K && q < Pow2(p.K - r)
    ensures Passing(p, Places(order, q, r), r)
    ensures p.TreeRow(Places(order, q, r), r).value.hash == Spell(Marks(p.K - r, q, End(ends, q, r)), p.CollisionByteLength())
    decreases r
  {
    hide Equihash.Valid, Equihash.TreeRow, Spell, Marks, Pow2, Merge, HasCollision, Laid, TruncatedTree, Places, Ascending;
    LaidInRange(p, order, ends, q, r);
    if r == 0 {
      LeafPasses(p, Places(order, q, 0));
    } else {
      Doubling(p.K - r + 1);
      BlockTree(p, order, ends, 2 * q, r - 1);
      BlockTree(p, order, ends, 2 * q + 1, r - 1);
      HalvesAscend(order, p.K, q, r - 1);
      NodePasses(p, order, ends, q, r - 1);
    }
    TruncatedHash(p, Places(order, q, r), r);
    BlockHash(p, order, ends, q, r);
  }

  lemma LeafPasses(p: Equihash, ix: seq<nat>)
    requires p.Valid() && |ix| == Pow2(0)
    ensures p.TreeRow(ix, 0).Some?
  {
    hide Equihash.Valid;
  }

  lemma NodePasses(p: Equihash, order: nat -> nat, ends: nat -> bit, q: nat, r: nat)
    requires p.Valid() && Laid(p, order, ends) && r < p.K && q < Pow2(p.K - r - 1)
    requires Passing(p, Places(order, 2 * q, r), r) && Passing(p, Places(order, 2 * q + 1, r), r)
    requires Apart(Places(order, 2 * q, r), Places(order, 2 * q + 1, r))
    ensures p.TreeRow(Places(order, q, r + 1), r + 1).Some?
  {
    hide Equihash.Valid, Equihash.TreeRow, Pow2, Merge, HasCollision, Laid, TruncatedTree, Places, DistinctIndices, Spell, Marks;
    Doubling(p.K - r);
    var L, R := Places(order, 2 * q, r), Places(order, 2 * q + 1, r);
    var c, d := BlockHalves(p, order, ends, q, r);
    var a, b := p.TreeRow(L, r).value, p.TreeRow(R, r).value;
    TruncatedHash(p, L, r);
    TruncatedHash(p, R, r);
    SameCollision(c, d, a, b, p.CollisionByteLength());
    BeforeFirst(R, L);
    assert a.indices == L && b.indices == R;
    HalvesMakeTree(p, Places(order, q, r + 1), r + 1, a, b);
  }

  lemma SameCollision(a: Row, b: Row, c: Row, d: Row, len: nat)
    requires a.hash == c.hash && b.hash == d.hash && Alike(a, b) && len <= |a.hash| && HasCollision(a, b, len)
    ensures |c.hash| == |d.hash| && HasCollision(c, d, len)
  {}

  lemma HalvesAscend(order: nat -> nat, k: nat, q: nat, r: nat)
    requires Ascending(order, k) && r < k && q < Pow2(k - r - 1)
    ensures Apart(Places(order, 2 * q, r), Places(order, 2 * q + 1, r))
  {
    hide Pow2, Start;
    Doubling(k - r);
    StartNext(2 * q, r);
    BlockFits(2 * q + 1, r, k);
    var L, R := Places(order, 2 * q, r), Places(order, 2 * q + 1, r);
    PlaceAt(order, 2 * q, r, 0);
    PlaceAt(order, 2 * q + 1, r, 0);
    forall i, j | 0 <= i < |L| && 0 <= j < |R| ensures L[i] != R[j] {
      PlaceAt(order, 2 * q, r, i);
      PlaceAt(order, 2 * q + 1, r, j);
    }
  }
}
