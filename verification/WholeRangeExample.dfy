/** A rejected byte string that is handed out where a solution uses every index once, so that its own
    truncated list is all paired up: it is rebuilt by joining two trees of one half of a block. */
module WholeRangeExample {
  import opened Bits
  import opened Words
  import opened BitPacking
  import opened StepRows
  import opened CollisionRounds
  import opened EquihashTree
  import opened Wrappers
  import opened BasicSolver
  import opened TruncatedTables
  import opened Rebuild
  import opened OptimisedSolver
  import opened OptimisedTheorems
  import opened LeafValues
  import opened TruncatedLists
  import opened MarkedTrees
  import opened FollowedTrees
  import opened InvalidExample
  import opened MissedExample

  // ---------- all indices, in an order ----------

  /** The places begin with the indices 0, S, 1, S + 1, and the others follow as they come. */
  function IndexAt(S: nat, q: nat): nat
  {
    if q == 0 then 0 else if q == 1 then S else if q == 2 then 1 else if q == 3 then S + 1 else if q < S + 2 then q - 2 else q
  }

  function Indices(S: nat): nat -> nat { (q: nat) => IndexAt(S, q) }

  function PlaceOf(S: nat, i: nat): nat
  {
    if i == 0 then 0 else if i == S then 1 else if i == 1 then 2 else if i == S + 1 then 3 else if i < S then i + 2 else i
  }

  /** The same with another index at place 3, which has its marks. */
  function OtherAt(S: nat, q: nat): nat { if q == 3 then 8 * S + 3 else IndexAt(S, q) }

  function Replaced(S: nat): nat -> nat { (q: nat) => OtherAt(S, q) }

  function ThirdEnd(): nat -> bit { q => if q == 3 then 1 else 0 }

  function WholeLeaf(K: nat, S: nat, i: nat): (v: seq<nat>)
    ensures |v| == K + 1 && forall k :: 0 <= k < |v| ==> v[k] < 2
  {
    Marks(K, PlaceOf(S, i), if i == S + 1 then 1 else 0)
  }

  function WholeLeaves(N: nat, K: nat): nat -> seq<nat>
    requires Sizes(N, K)
  {
    (i: nat) => WholeLeaf(K, MarkedStride(N, K), i)
  }

  /** The marks of the places; only index S + 1 has a last value other than zero. */
  function Whole(N: nat, K: nat): (p: Equihash)
    requires Sizes(N, K)
    ensures p.Valid() && p.N == N && p.K == K && Stride(p) == MarkedStride(N, K) >= 2
  {
    assert Pow2(N / (K + 1)) >= 2;
    LeavesValid(N, K, WholeLeaves(N, K));
    WithLeaves(N, K, WholeLeaves(N, K))
  }

  /** A solution uses every index. */
  predicate UsesAll(N: nat, K: nat) { Sizes(N, K) && K == N / (K + 1) + 1 }

  lemma WholeStride(N: nat, K: nat)
    requires UsesAll(N, K)
    ensures var S := MarkedStride(N, K); S >= 2 && S % 2 == 0 && Stride(Whole(N, K)) == S && Whole(N, K).InitSize() == Pow2(K) == 256 * S
  {
    WholePowers(N, K);
    hide Pow2, Equihash.Valid, Whole, MarkedStride;
    WholeSize(N, K);
  }

  lemma WholePowers(N: nat, K: nat)
    requires UsesAll(N, K)
    ensures var S := MarkedStride(N, K); S >= 2 && S % 2 == 0 && Pow2(K) == 256 * S
  {
    hide Pow2;
    Times256(K - 8);
    assert N / (K + 1) + 1 - 8 == K - 8;
  }

  lemma Times256(k: nat)
    requires k > 0
    ensures Pow2(k) >= 2 && Pow2(k) % 2 == 0 && Pow2(k + 8) == 256 * Pow2(k)
  {
    Pow2Add(8, k);
    Pow2Values();
    Doubling(k);
  }

  lemma WholeSize(N: nat, K: nat)
    requires UsesAll(N, K)
    ensures Whole(N, K).InitSize() == Pow2(K)
  {
    hide Pow2, WithLeaves, MarkedStride, Equihash.Valid;
  }

  lemma SameMarks(m: nat, S: nat)
    ensures Marks(m, 8 * S + 3, 0) == Marks(m, 3, 0)
  {
    forall t: nat ensures Mark(t, 8 * S + 3) <==> Mark(t, 3) { SameMark(t, S); }
  }

  lemma SameMark(t: nat, S: nat)
    ensures Mark(t, 8 * S + 3) <==> Mark(t, 3)
  {
    MarkZero(8 * S + 3);
    MarkZero(3);
    hide Mark;
    if t > 0 {
      MarkStep(t - 1, 4 * S + 1);
      MarkStep(t - 1, 1);
      MarkZero(4 * S + 1);
      MarkZero(1);
      if t > 1 {
        MarkStep(t - 2, 2 * S);
        MarkStep(t - 2, 0);
        MarkZero(2 * S);
        MarkZero(0);
        if t > 2 {
          MarkStep(t - 3, S);
          MarkStep(t - 3, 0);
        }
      }
    }
  }

  lemma PlacesBack(S: nat, q: nat)
    requires S >= 2
    ensures PlaceOf(S, Indices(S)(q)) == q && (Indices(S)(q) == S + 1 <==> q == 3)
  {}

  lemma WholeIs(N: nat, K: nat)
    requires UsesAll(N, K)
    ensures Whole(N, K) == WithLeaves(N, K, WholeLeaves(N, K)) && Fitting(WholeLeaves(N, K), K + 1, N / (K + 1))
    ensures Whole(N, K).InitSize() == 256 * MarkedStride(N, K) == Pow2(K) && MarkedStride(N, K) >= 2
  {
    WholeStride(N, K);
    assert Pow2(N / (K + 1)) >= 2;
  }

  lemma WholeLaid(N: nat, K: nat)
    requires UsesAll(N, K)
    ensures Laid(Whole(N, K), Indices(MarkedStride(N, K)), ThirdEnd()) && Laid(Whole(N, K), Replaced(MarkedStride(N, K)), FirstEnd(0))
  {
    hide Equihash.Valid, Marks, WithLeaves, Pow2, Whole, MarkedStride, IndexAt, PlaceOf, Fitting;
    WholeIs(N, K);
    var S := MarkedStride(N, K);
    forall q: nat | q < Pow2(K)
      ensures Indices(S)(q) < Whole(N, K).InitSize() && WholeLeaves(N, K)(Indices(S)(q)) == Marks(K, q, ThirdEnd()(q))
    {
      PlacesBack(S, q);
      IndexBelow(S, q, Pow2(K));
    }
    LeavesLaid(N, K, WholeLeaves(N, K), Indices(S), ThirdEnd());
    ReplacedLaid(N, K);
  }

  lemma ReplacedLaid(N: nat, K: nat)
    requires UsesAll(N, K)
    ensures Laid(Whole(N, K), Replaced(MarkedStride(N, K)), FirstEnd(0))
  {
    hide Equihash.Valid, Marks, WithLeaves, Pow2, Whole, MarkedStride, IndexAt, PlaceOf, Fitting;
    WholeIs(N, K);
    var S := MarkedStride(N, K);
    SameMarks(K, S);
    OwnPlace(S);
    forall q: nat | q < Pow2(K)
      ensures Replaced(S)(q) < Whole(N, K).InitSize() && WholeLeaves(N, K)(Replaced(S)(q)) == Marks(K, q, FirstEnd(0)(q))
    {
      PlacesBack(S, q);
      IndexBelow(S, q, Pow2(K));
    }
    LeavesLaid(N, K, WholeLeaves(N, K), Replaced(S), FirstEnd(0));
  }

  lemma IndexBelow(S: nat, q: nat, n: nat)
    requires q < n == 256 * S && S >= 2
    ensures Indices(S)(q) < n
  {}

  lemma OwnPlace(S: nat)
    requires S >= 2
    ensures PlaceOf(S, 8 * S + 3) == 8 * S + 3
  {}

  // ---------- the tree of all indices ----------

  lemma {:induction false} ThirdEndIs(q: nat, r: nat)
    ensures End(ThirdEnd(), q, r) == if (r == 0 && q == 3) || (r == 1 && q == 1) || (r >= 2 && q == 0) then 1 else 0
    decreases r
  {
    if r > 0 {
      ThirdEndIs(2 * q, r - 1);
      ThirdEndIs(2 * q + 1, r - 1);
    }
  }

  /** The second half of a block begins at place 3, or the first at 0 or behind 3. */
  lemma {:induction false} HalfStarts(q: nat, r: nat)
    ensures var a, b := Start(2 * q, r), Start(2 * q + 1, r); a < b && a % 2 == 0 && (r > 0 ==> a % 4 == 0) && (r == 0 ==> a == 2 * q && b == a + 1)
    decreases r
  {
    StartNext(2 * q, r);
    if r > 0 {
      StartHalf(2 * q, r);
      HalfStarts(2 * q, r - 1);
      if r == 1 { HalfStarts(2 * (2 * q), 0); }
    }
  }

  lemma StartsInOrder(S: nat, q: nat, r: nat)
    requires S >= 2
    ensures var a, b := Start(2 * q, r), Start(2 * q + 1, r); Indices(S)(a) < Indices(S)(b) && Replaced(S)(a) < Replaced(S)(b)
  {
    hide Start;
    HalfStarts(q, r);
  }

  lemma IndicesAscend(S: nat, k: nat)
    requires S >= 2
    ensures Ascending(Indices(S), k)
  {
    hide Pow2, Start, Indices, PlaceOf;
    forall i, j | 0 <= i < j < Pow2(k) ensures Indices(S)(i) != Indices(S)(j) {
      PlacesBack(S, i);
      PlacesBack(S, j);
    }
    forall q: nat, r: nat | r < k && q < Pow2(k - r - 1) ensures Indices(S)(Start(2 * q, r)) < Indices(S)(Start(2 * q + 1, r)) {
      StartsInOrder(S, q, r);
    }
  }

  function All(N: nat, K: nat): (ix: seq<nat>)
    requires Sizes(N, K)
    ensures |ix| == Pow2(K)
  {
    Places(Indices(MarkedStride(N, K)), 0, K)
  }

  /** Every block of the list of all indices is a tree. */
  lemma AllPass(N: nat, K: nat, q: nat, r: nat)
    requires UsesAll(N, K) && r <= K && q < Pow2(K - r)
    ensures Passing(Whole(N, K), Places(Indices(MarkedStride(N, K)), q, r), r)
  {
    hide Whole, MarkedStride, Equihash.Valid, Equihash.TreeRow, Laid, Ascending, Places, Pow2, Spell, Marks;
    WholeStride(N, K);
    WholeLaid(N, K);
    IndicesAscend(MarkedStride(N, K), K);
    BlockTree(Whole(N, K), Indices(MarkedStride(N, K)), ThirdEnd(), q, r);
  }

  /** The whole tree passes the per-level checks, but its hash is not zero. */
  lemma AllTree(N: nat, K: nat)
    requires UsesAll(N, K)
    ensures Passing(Whole(N, K), All(N, K), K) && !IsZero(Whole(N, K).TreeRow(All(N, K), K).value)
  {
    hide Whole, MarkedStride, Equihash.Valid, Equihash.TreeRow, Laid, Ascending, Places, Spell, Marks, IsZero;
    WholeStride(N, K);
    WholeLaid(N, K);
    IndicesAscend(MarkedStride(N, K), K);
    ThirdEndIs(0, K);
    SinglePower();
    BlockTree(Whole(N, K), Indices(MarkedStride(N, K)), ThirdEnd(), 0, K);
    LastMark(Whole(N, K), Whole(N, K).TreeRow(All(N, K), K).value, 1);
  }

  // ---------- the tree that is found ----------

  function Plain(N: nat, K: nat): (ix: seq<nat>)
    requires Sizes(N, K)
    ensures |ix| == Pow2(K)
  {
    Places(Replaced(MarkedStride(N, K)), 0, K)
  }

  lemma {:induction false} CountSame(v: seq<nat>, x: nat)
    requires forall i :: 0 <= i < |v| ==> v[i] == x
    ensures multiset(v)[x] == |v|
  {
    if v != [] {
      CountSame(v[1..], x);
      assert v == [v[0]] + v[1..];
    }
  }

  lemma CountNone(v: seq<nat>, x: nat)
    requires forall i :: 0 <= i < |v| ==> v[i] != x
    ensures multiset(v)[x] == 0
  {
    assert x !in v;
  }

  /** A value that is at place 1 and at those from a to b. */
  lemma CountRange(v: seq<nat>, x: nat, a: nat, b: nat)
    requires 2 <= a <= b <= |v| && forall i :: 0 <= i < |v| ==> (v[i] == x <==> i == 1 || a <= i < b)
    ensures multiset(v)[x] == 1 + b - a
  {
    assert v == ([v[0]] + [v[1]] + v[2..a]) + v[a..b] + v[b..];
    CountSame(v[a..b], x);
    CountNone(v[2..a], x);
    CountNone(v[b..], x);
  }

  lemma TruncatesToOne(p: Equihash, i: nat)
    requires p.Valid() && i < p.InitSize()
    ensures Truncate(p, i) == 1 <==> Stride(p) <= i < 2 * Stride(p)
  {
    hide Equihash.Valid, Truncate;
    var S := Stride(p);
    TruncateBelow(p, i);
    StrideAbove(p);
    QuotRem(i, S);
    if Quot(i, S) == 1 { assert 1 * S == S; }
    if S <= i < 2 * S { QuotRemUnique(i, S, 1, i - S); }
  }

  lemma StrideAbove(p: Equihash)
    requires p.Valid()
    ensures Stride(p) > 0
  {}

  lemma OneAt(S: nat, q: nat)
    requires S >= 2
    ensures S <= Replaced(S)(q) < 2 * S <==> q == 1 || S + 2 <= q < 2 * S
  {}

  /** One truncated index occurs an odd number of times. */
  lemma PlainNotPaired(N: nat, K: nat)
    requires UsesAll(N, K)
    ensures !AllPaired(TruncatedTree(Whole(N, K), Plain(N, K), K).indices)
  {
    hide Whole, MarkedStride, Equihash.Valid, TruncatedTree, Truncate, Pow2, Replaced, Laid, Places;
    var p, S, ix := Whole(N, K), MarkedStride(N, K), Plain(N, K);
    WholeStride(N, K);
    var v := Truncations(p, ix);
    forall i | 0 <= i < |v| ensures v[i] == 1 <==> i == 1 || S + 2 <= i < 2 * S {
      PlainAt(N, K, i);
      TruncatesToOne(p, ix[i]);
      OneAt(S, i);
    }
    CountRange(v, 1, S + 2, 2 * S);
    TruncatedList(p, ix, ix, K);
    var u := TruncatedTree(p, ix, K).indices;
    assert multiset(u)[1] == S - 1;
    assert 1 in u;
  }

  lemma PlainAt(N: nat, K: nat, i: nat)
    requires UsesAll(N, K) && i < Pow2(K)
    ensures Plain(N, K)[i] == Replaced(MarkedStride(N, K))(i) < Whole(N, K).InitSize()
  {
    hide Whole, MarkedStride, Equihash.Valid, Pow2, Laid, Places;
    WholeStride(N, K);
    WholeLaid(N, K);
    SinglePower();
    TopPlace(Replaced(MarkedStride(N, K)), K, i);
    LaidInRange(Whole(N, K), Replaced(MarkedStride(N, K)), FirstEnd(0), 0, K);
  }

  lemma PlainFound(N: nat, K: nat)
    requires UsesAll(N, K)
    ensures Found(Whole(N, K), Plain(N, K))
  {
    hide Whole, MarkedStride, Equihash.Valid, TruncatedTree, Laid, Places, AllPaired, Found;
    WholeStride(N, K);
    WholeLaid(N, K);
    FirstEndIs(0, 0, K);
    PlainNotPaired(N, K);
    PlacesFound(Whole(N, K), Replaced(MarkedStride(N, K)), FirstEnd(0));
  }

  // ---------- the one follows the other ----------

  /** The list of a block begins with what its first index truncates to. */
  lemma {:induction false} FirstIs(N: nat, K: nat, q: nat, r: nat)
    requires UsesAll(N, K) && r <= K && q < Pow2(K - r)
    ensures var p, order := Whole(N, K), Replaced(MarkedStride(N, K)); FirstEntry(p, Places(order, q, r), r) == Truncate(p, order(Start(q, r)))
    decreases r
  {
    hide Whole, MarkedStride, Equihash.Valid, TruncatedTree, Truncate, Pow2, Places, Replaced, Before, Start, Laid;
    var p, order := Whole(N, K), Replaced(MarkedStride(N, K));
    WholeStride(N, K);
    WholeLaid(N, K);
    LaidInRange(p, order, FirstEnd(0), q, r);
    if r == 0 {
      SinglePower();
      PlaceAt(order, q, 0, 0);
      LeafTruncation(p, Places(order, q, 0));
    } else {
      Doubling(K - r + 1);
      FirstIs(N, K, 2 * q, r - 1);
      FirstIs(N, K, 2 * q + 1, r - 1);
      PlacesHalves(order, q, r - 1);
      StartHalf(q, r);
      var L, R := Places(order, 2 * q, r - 1), Places(order, 2 * q + 1, r - 1);
      assert (L + R)[..Pow2(r - 1)] == L && (L + R)[Pow2(r - 1)..] == R;
      var x, y := TruncatedHalves(p, Places(order, q, r), r);
      BeforeFirst(x, y);
      StartsInOrder(MarkedStride(N, K), q, r - 1);
      LaidInRange(p, order, FirstEnd(0), 2 * q + 1, r - 1);
      PlaceAt(order, 2 * q + 1, r - 1, 0);
      TruncateMonotone(p, order(Start(2 * q, r - 1)), order(Start(2 * q + 1, r - 1)));
    }
  }

  /** A tree follows a tree whose halves it follows half by half, or whose first half both its halves
      follow. */
  lemma JoinFollows(p: Equihash, tree: seq<nat>, t: seq<nat>, r: nat, x: seq<nat>, y: seq<nat>, v: seq<nat>, w: seq<nat>)
    requires p.Valid() && r < p.K && |tree| == Pow2(r + 1) && |x| == |y| == |v| == |w| == Pow2(r) && tree == x + y && t == v + w
    requires Passing(p, t, r + 1) && Follows(p, x, v, r) && (Follows(p, x, w, r) || Follows(p, y, w, r)) && Followed(p, y, r)
    requires FirstEntry(p, x, r) == Truncate(p, v[0]) && FirstEntry(p, y, r) == Truncate(p, w[0])
    ensures Follows(p, tree, t, r + 1)
  {
    hide Equihash.Valid, TruncatedTree, Truncate, Pow2, Passing, FirstEntry;
    assert tree[..Pow2(r)] == x && tree[Pow2(r)..] == y && t[..Pow2(r)] == v && t[Pow2(r)..] == w;
    assert Followed(p, x, r);
    assert FollowsEither(p, tree, v, r + 1) && FollowsEither(p, tree, w, r + 1);
    assert t[0] == v[0] && t[Pow2(r)] == w[0];
    assert HalvesFollow(p, tree, t, r + 1);
  }

  /** The index at the first place of a block truncates alike in both lists, but for place 3. */
  lemma StartsAlike(N: nat, K: nat, q: nat, r: nat)
    requires UsesAll(N, K) && r <= K && q < Pow2(K - r) && !(r == 0 && q == 3)
    ensures var p, S := Whole(N, K), MarkedStride(N, K);
            FirstEntry(p, Places(Replaced(S), q, r), r) == Truncate(p, Places(Indices(S), q, r)[0])
  {
    hide Whole, MarkedStride, Equihash.Valid, TruncatedTree, Truncate, Pow2, Places, Start;
    SinglePower();
    FirstIs(N, K, q, r);
    BlockStart(q, r);
    PlaceAt(Indices(MarkedStride(N, K)), q, r, 0);
  }

  lemma BlockStart(q: nat, r: nat)
    ensures Start(q, r) == 3 ==> r == 0 && q == 3
  {
    if r > 0 {
      StartHalf(q, r);
      HalfStarts(q, r - 1);
    }
  }

  lemma LeafFollows(N: nat, K: nat, order: nat -> nat, q: nat, q': nat)
    requires UsesAll(N, K) && q < Pow2(K) && q' < Pow2(K) && order(q') < Whole(N, K).InitSize()
    requires Truncate(Whole(N, K), order(q')) == Truncate(Whole(N, K), Replaced(MarkedStride(N, K))(q))
    ensures Follows(Whole(N, K), Places(Replaced(MarkedStride(N, K)), q, 0), Places(order, q', 0), 0)
  {
    hide Whole, MarkedStride, Equihash.Valid, Equihash.TreeRow, Truncate, Places, Replaced;
    SinglePower();
    StartLeaf(q);
    StartLeaf(q');
    PlaceAt(Replaced(MarkedStride(N, K)), q, 0, 0);
    PlaceAt(order, q', 0, 0);
    LeafPasses(Whole(N, K), Places(order, q', 0));
  }

  /** The indices of the first four places, and what they truncate to. */
  lemma FirstFour(N: nat, K: nat)
    requires UsesAll(N, K)
    ensures var p, S := Whole(N, K), MarkedStride(N, K); var t, f := Indices(S), Replaced(S);
            && 4 <= Pow2(K) && S + 1 < 8 * S + 3 < p.InitSize()
            && t(0) == f(0) == 0 && t(1) == f(1) == S && t(2) == f(2) == 1 && t(3) == S + 1 && f(3) == 8 * S + 3
            && Truncate(p, 0) == Truncate(p, 1) == 0 && Truncate(p, S) == Truncate(p, S + 1) == 1
  {
    hide Whole, MarkedStride, Equihash.Valid, Truncate, Pow2;
    WholeStride(N, K);
    var p, S := Whole(N, K), MarkedStride(N, K);
    TruncateBelow(p, 0);
    TruncateBelow(p, 1);
    TruncatesToOne(p, S);
    TruncatesToOne(p, S + 1);
  }

  /** The pair of places 2 and 3 follows the pair of places 0 and 1, in the place of the pair that has
      the other index. */
  lemma PairFollows(N: nat, K: nat)
    requires UsesAll(N, K)
    ensures var p, S := Whole(N, K), MarkedStride(N, K);
            Follows(p, Places(Replaced(S), 0, 1), Places(Indices(S), 0, 1), 1) && Follows(p, Places(Replaced(S), 0, 1), Places(Indices(S), 1, 1), 1)
            && Followed(p, Places(Replaced(S), 1, 1), 1)
  {
    hide Whole, MarkedStride, Equihash.Valid, Truncate, Pow2, Places, Replaced, Indices, Follows, Passing, FirstEntry, Start;
    var p, S := Whole(N, K), MarkedStride(N, K);
    var t, f := Indices(S), Replaced(S);
    FirstFour(N, K);
    SmallPowers(K);
    PlacesHalves(t, 0, 0);
    PlacesHalves(t, 1, 0);
    PlacesHalves(f, 0, 0);
    PlacesHalves(f, 1, 0);
    LeafFollows(N, K, t, 0, 0);
    LeafFollows(N, K, t, 1, 1);
    LeafFollows(N, K, t, 0, 2);
    LeafFollows(N, K, t, 1, 3);
    LeafFollows(N, K, f, 2, 2);
    LeafFollows(N, K, f, 3, 3);
    LeafStart(N, K, t, 0, 0);
    LeafStart(N, K, t, 1, 1);
    LeafStart(N, K, t, 0, 2);
    LeafStart(N, K, t, 1, 3);
    LeafStart(N, K, f, 2, 2);
    LeafStart(N, K, f, 3, 3);
    AllPass(N, K, 0, 1);
    AllPass(N, K, 1, 1);
    OtherPass(N, K);
    JoinFollows(p, Places(f, 0, 1), Places(t, 0, 1), 0, Places(f, 0, 0), Places(f, 1, 0), Places(t, 0, 0), Places(t, 1, 0));
    JoinFollows(p, Places(f, 0, 1), Places(t, 1, 1), 0, Places(f, 0, 0), Places(f, 1, 0), Places(t, 2, 0), Places(t, 3, 0));
    JoinFollows(p, Places(f, 1, 1), Places(f, 1, 1), 0, Places(f, 2, 0), Places(f, 3, 0), Places(f, 2, 0), Places(f, 3, 0));
  }

  lemma SmallPowers(k: nat)
    requires k >= 3
    ensures Pow2(0) == 1 && Pow2(1) == 2 && Pow2(k - 1) >= 4 && Pow2(k - 2) >= 2
  {
    OnePower();
    Pow2Mono(2, k - 1);
    Pow2Mono(1, k - 2);
  }

  lemma LeafStart(N: nat, K: nat, order: nat -> nat, q: nat, q': nat)
    requires UsesAll(N, K) && q < Pow2(K) && q' < Pow2(K)
    requires Truncate(Whole(N, K), order(q')) == Truncate(Whole(N, K), Replaced(MarkedStride(N, K))(q))
    ensures |Places(order, q', 0)| == 1
    ensures FirstEntry(Whole(N, K), Places(Replaced(MarkedStride(N, K)), q, 0), 0) == Truncate(Whole(N, K), Places(order, q', 0)[0])
  {
    hide Whole, MarkedStride, Equihash.Valid, Truncate, Places, Replaced, FirstEntry;
    SinglePower();
    StartLeaf(q);
    StartLeaf(q');
    FirstIs(N, K, q, 0);
    PlaceAt(order, q', 0, 0);
  }

  /** Index 1 and the other index make a tree. */
  lemma OtherPass(N: nat, K: nat)
    requires UsesAll(N, K)
    ensures Passing(Whole(N, K), Places(Replaced(MarkedStride(N, K)), 1, 1), 1)
  {
    hide Whole, MarkedStride, Equihash.Valid, Equihash.TreeRow, Pow2, Places, Replaced, Laid, Start;
    var p, f := Whole(N, K), Replaced(MarkedStride(N, K));
    WholeStride(N, K);
    WholeLaid(N, K);
    SmallPowers(K);
    OtherLeaf(N, K, 2);
    OtherLeaf(N, K, 3);
    LaidInRange(p, f, FirstEnd(0), 1, 1);
    OtherApart(N, K);
    NodePasses(p, f, FirstEnd(0), 1, 0);
  }

  lemma OtherApart(N: nat, K: nat)
    requires UsesAll(N, K)
    ensures var f := Replaced(MarkedStride(N, K)); Apart(Places(f, 2, 0), Places(f, 3, 0))
  {
    hide Whole, MarkedStride, Places, Replaced, Indices, Start, Pow2, Truncate, Equihash.Valid;
    var f := Replaced(MarkedStride(N, K));
    FirstFour(N, K);
    OnePlace(f, 2);
    OnePlace(f, 3);
  }

  lemma OnePlace(order: nat -> nat, q: nat)
    ensures Places(order, q, 0) == [order(q)]
  {
    SinglePower();
    StartLeaf(q);
    PlaceAt(order, q, 0, 0);
  }

  lemma OtherLeaf(N: nat, K: nat, q: nat)
    requires UsesAll(N, K) && q < 4
    ensures q < Pow2(K) && Passing(Whole(N, K), Places(Replaced(MarkedStride(N, K)), q, 0), 0)
  {
    hide Whole, MarkedStride, Equihash.Valid, Equihash.TreeRow, Places, Replaced, Laid;
    FirstFour(N, K);
    WholeLaid(N, K);
    LaidInRange(Whole(N, K), Replaced(MarkedStride(N, K)), FirstEnd(0), q, 0);
    LeafPasses(Whole(N, K), Places(Replaced(MarkedStride(N, K)), q, 0));
  }

  /** Every block of the list of all indices follows that of the list that is found, but for those
      of place 3 and of places 2 and 3. */
  lemma {:induction false} BlockFollows(N: nat, K: nat, q: nat, r: nat)
    requires UsesAll(N, K) && r <= K && q < Pow2(K - r) && !(r == 0 && q == 3) && !(r == 1 && q == 1)
    ensures var p, S := Whole(N, K), MarkedStride(N, K); Follows(p, Places(Replaced(S), q, r), Places(Indices(S), q, r), r)
    decreases r
  {
    hide Whole, MarkedStride, Equihash.Valid, Truncate, Pow2, Places, Replaced, Indices, Follows, Passing, FirstEntry, Start;
    var p, S := Whole(N, K), MarkedStride(N, K);
    var t, f := Indices(S), Replaced(S);
    if r == 0 {
      SameElsewhere(N, K, q);
      LeafFollows(N, K, t, q, q);
    } else {
      Doubling(K - r + 1);
      Doubling(r);
      AllPass(N, K, q, r);
      PlacesHalves(f, q, r - 1);
      PlacesHalves(t, q, r - 1);
      StartsAlike(N, K, 2 * q, r - 1);
      StartsAlike(N, K, 2 * q + 1, r - 1);
      if r == 2 && q == 0 {
        PairFollows(N, K);
      } else {
        BlockFollows(N, K, 2 * q, r - 1);
        BlockFollows(N, K, 2 * q + 1, r - 1);
      }
      JoinFollows(p, Places(f, q, r), Places(t, q, r), r - 1,
                  Places(f, 2 * q, r - 1), Places(f, 2 * q + 1, r - 1), Places(t, 2 * q, r - 1), Places(t, 2 * q + 1, r - 1));
    }
  }

  lemma SameElsewhere(N: nat, K: nat, q: nat)
    requires UsesAll(N, K) && q < Pow2(K) && q != 3
    ensures var S := MarkedStride(N, K); Indices(S)(q) == Replaced(S)(q) < Whole(N, K).InitSize()
  {
    hide Whole, MarkedStride, Equihash.Valid;
    WholeStride(N, K);
    IndexBelow(MarkedStride(N, K), q, Pow2(K));
  }

  /** Where a solution uses every index there is a hash function, too, for which OptimisedSolve hands
      out a byte string that the verifier rejects. */
  lemma WholeSolutionReached(N: nat, K: nat)
    requires UsesAll(N, K)
    ensures var p, soln := Whole(N, K), Packed(All(N, K), K);
            soln in Reached(p) && p.PassesLevels(soln) && !p.ValidSolution(soln)
  {
    hide Whole, MarkedStride, Equihash.Valid, Equihash.TreeRow, Places, Found, Packed, Elements, Reached, IsZero, Follows;
    var p, soln := Whole(N, K), Packed(All(N, K), K);
    AllTree(N, K);
    PlainFound(N, K);
    SinglePower();
    BlockFollows(N, K, 0, K);
    PackedIsValid(p, All(N, K));
    assert p.IndicesOf(soln) == All(N, K);
    ReachedFollows(p, soln);
    assert FollowsFound(p, Plain(N, K), All(N, K));
  }

  // ---------- exactly when ----------

  function Elems(v: seq<nat>): set<nat> { set i | i in v }

  /** The indices of a tree that passes the checks are different ones below the number of indices. */
  lemma {:induction false} PassingDistinct(p: Equihash, ix: seq<nat>, r: nat)
    requires p.Valid() && r <= p.K && Passing(p, ix, r)
    ensures |Elems(ix)| == Pow2(r)
    decreases r
  {
    hide Equihash.Valid, Equihash.TreeRow, Pow2, Before;
    SinglePower();
    if r == 0 {
      assert Elems(ix) == {ix[0]};
    } else {
      Doubling(r);
      var L, R := ix[..Pow2(r - 1)], ix[Pow2(r - 1)..];
      var a, b := TreeHalves(p, ix, r);
      PassingDistinct(p, L, r - 1);
      PassingDistinct(p, R, r - 1);
      assert ix == L + R && a.indices == L && b.indices == R;
      Disjoint(L, R);
    }
  }

  lemma Disjoint(v: seq<nat>, w: seq<nat>)
    requires forall i, j :: 0 <= i < |v| && 0 <= j < |w| ==> v[i] != w[j]
    ensures |Elems(v + w)| == |Elems(v)| + |Elems(w)|
  {
    assert Elems(v + w) == Elems(v) + Elems(w);
    assert Elems(v) !! Elems(w);
  }

  lemma {:induction false} Below(s: set<nat>, n: nat)
    requires forall i | i in s :: i < n
    ensures |s| <= n
  {
    if n == 0 {
      assert s == {};
    } else {
      Below(s - {n - 1}, n - 1);
    }
  }

  /** Nothing passes the checks if there are fewer indices than a solution has. */
  lemma NothingPasses(p: Equihash, soln: seq<byte>)
    requires p.Valid() && p.K > p.CollisionBitLength() + 1
    ensures !p.PassesLevels(soln)
  {
    hide Equihash.TreeRow, Elements;
    if p.PassesLevels(soln) {
      SolutionIndices(p, soln);
      var ix := p.IndicesOf(soln);
      PassingDistinct(p, ix, p.K);
      Below(Elems(ix), p.InitSize());
      Pow2Mono(p.CollisionBitLength() + 2, p.K);
      Doubling(p.CollisionBitLength() + 2);
      PowerAbove(p.CollisionBitLength() + 1);
    }
  }

  lemma PowerAbove(k: nat)
    ensures Pow2(k) > 0
  {}

  /** For given N and K both failures occur, over suitable hash functions, exactly if there are enough
      indices for one solution. */
  lemma FailuresExist(N: nat, K: nat)
    requires Sizes(N, K)
    ensures (exists p: Equihash, soln :: p.N == N && p.K == K && p.Valid() && HandsOutRejected(p, soln)) <==> K <= N / (K + 1) + 1
    ensures (exists p: Equihash, soln :: p.N == N && p.K == K && p.Valid() && MissesAccepted(p, soln)) <==> K <= N / (K + 1) + 1
  {
    hide Equihash.Valid, Equihash.ValidSolution, Reached, Packed, Whole, AllZero;
    if K <= N / (K + 1) {
      Rejected(N, K);
    } else if K == N / (K + 1) + 1 {
      WholeSolutionReached(N, K);
      assert HandsOutRejected(Whole(N, K), Packed(All(N, K), K));
    }
    if K <= N / (K + 1) + 1 {
      ValidSolutionMissed(N, K);
      assert MissesAccepted(AllZero(N, K), Packed(Upto(Pow2(K)), N / (K + 1) + 1));
    }
    forall p: Equihash, soln | p.N == N && p.K == K && p.Valid() && (HandsOutRejected(p, soln) || MissesAccepted(p, soln))
      ensures K <= N / (K + 1) + 1
    {
      SomePasses(p, soln);
    }
  }

  lemma SomePasses(p: Equihash, soln: seq<byte>)
    requires p.Valid() && (HandsOutRejected(p, soln) || MissesAccepted(p, soln))
    ensures p.K <= p.N / (p.K + 1) + 1
  {
    hide Reached, Equihash.TreeRow, Elements;
    if soln in Reached(p) { ReachedPassesLevels(p, soln); }
    if p.K > p.CollisionBitLength() + 1 { NothingPasses(p, soln); }
  }
}
