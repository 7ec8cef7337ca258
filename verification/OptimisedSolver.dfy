/** OptimisedSolve: the truncated rounds, then for each partial solution the rebuild with a binary
    counter of candidate lists, handing out what the rebuilt tree holds. */
module OptimisedSolver {
  import opened Bits
  import opened Words
  import opened BitPacking
  import opened StepRows
  import opened CollisionRounds
  import opened EquihashTree
  import opened Wrappers
  import opened BasicSolver
  import opened TruncatedTables
  import opened Rebuild

  // ---------- candidate lists ----------

  lemma SameHashOutput(i: nat, n: nat)
    requires n > 0 && i > 0 && i % n != 0
    ensures i / n == (i - 1) / n
  {
    QuotIsDiv(i, n);
    QuotIsDiv(i - 1, n);
    QuotRem(i, n);
    QuotRemUnique(i - 1, n, Quot(i, n), Rem(i, n) - 1);
  }

  lemma DivisionIsNat(i: nat, n: nat)
    requires n > 0
    ensures i / n >= 0
  {
    QuotIsDiv(i, n);
  }

  lemma NextCandidate(p: Equihash, t: nat, j: nat)
    requires p.Valid() && t < 256 && 0 < j < Pow2(p.IndexBits() - 8)
    ensures UntruncateIndex(t, j, p.IndexBits()) == UntruncateIndex(t, j - 1, p.IndexBits()) + 1
  {
    Untruncated(t, j, p.IndexBits());
    Untruncated(t, j - 1, p.IndexBits());
  }

  /** Step 1 of the rebuild: rows of all indices that truncate to t. A hash output is generated
      only when the running index enters it. */
  method MakeCandidates(p: Equihash, t: nat) returns (icv: seq<Row>)
    requires p.Valid() && t < 256
    ensures icv == Candidates(p, t, RecreateSize(p))
  {
    hide Equihash.StepRow, UntruncateIndex, Equihash.Valid, Pow2;
    RecreateSizeIs(p);
    PerHashPositive(p);
    var perHash := p.IndicesPerHashOutput();
    var tmpHash: seq<byte> := [];
    icv := [];
    var j := 0;
    while j < RecreateSize(p)
      invariant 0 <= j <= RecreateSize(p) && icv == Candidates(p, t, j)
      invariant j > 0 ==> tmpHash == p.gen(UntruncateIndex(t, j - 1, p.IndexBits()) / perHash)
    {
      var newIndex := UntruncateIndex(t, j, p.IndexBits());
      if j > 0 {
        NextCandidate(p, t, j);
        if newIndex % perHash != 0 { SameHashOutput(newIndex, perHash); }
      }
      DivisionIsNat(newIndex, perHash);
      if j == 0 || newIndex % perHash == 0 {
        tmpHash := p.gen(newIndex / perHash);
      }
      HashWidth(p, newIndex / perHash);
      icv := icv + [p.StepRow(tmpHash, newIndex % perHash, newIndex)];
      j := j + 1;
    }
  }

  lemma PerHashPositive(p: Equihash)
    requires p.Valid()
    ensures p.N > 0 && p.IndicesPerHashOutput() > 0 && p.IndexBits() > 8
  {}

  lemma HashWidth(p: Equihash, g: nat)
    requires p.Valid()
    ensures |p.gen(g)| == p.IndicesPerHashOutput() * (p.N / 8)
  {}

  // ---------- the binary counter ----------

  type Slots = seq<Option<seq<Row>>>

  /** list holds the rows of block q at level r. */
  ghost predicate Held(p: Equihash, partial: seq<nat>, list: seq<Row>, q: nat, r: nat)
    requires p.Valid() && IsPartial(p, partial) && r <= p.K && q < Pow2(p.K - r)
  {
    Block(p, partial, q, r).Some? && multiset(list) == multiset(Block(p, partial, q, r).value)
  }

  /** The lists hold the rows of the two halves of block q at level r + 1. */
  ghost predicate HalvesHeld(p: Equihash, partial: seq<nat>, left: seq<Row>, right: seq<Row>, q: nat, r: nat)
    requires p.Valid() && IsPartial(p, partial) && r < p.K && q < Pow2(p.K - r - 1)
  {
    Doubling(p.K - r);
    Held(p, partial, left, 2 * q, r) && Held(p, partial, right, 2 * q + 1, r)
  }

  /** The slots from level r on count m blocks in binary: a slot is full exactly where the bit is
      set, and then holds the last block of its level. */
  ghost predicate Counter(p: Equihash, partial: seq<nat>, X: Slots, r: nat, m: nat)
    requires p.Valid() && IsPartial(p, partial) && r <= p.K
    decreases |X|
  {
    if m == 0 then X == []
    else
      && X != [] && m <= Pow2(p.K - r)
      && (if m % 2 == 1 then X[0].Some? && Held(p, partial, X[0].value, m - 1, r) else X[0].None?)
      && (if m == 1 then X[1..] == [] else r < p.K && Counter(p, partial, X[1..], r + 1, m / 2))
  }

  /** Empty slots below a count are its low zero bits. */
  lemma {:induction false} CounterBelow(p: Equihash, partial: seq<nat>, X: Slots, r: nat, m: nat)
    requires p.Valid() && IsPartial(p, partial) && r <= p.K && r <= |X| && m > 0
    requires Counter(p, partial, X[r..], r, m) && forall k :: 0 <= k < r ==> X[k].None?
    ensures Counter(p, partial, X, 0, Start(m, r))
    decreases r
  {
    if r == 0 {
      assert X[0..] == X;
    } else {
      assert X[r - 1..][1..] == X[r..];
      CounterBelow(p, partial, X, r - 1, 2 * m);
    }
  }

  /** With all blocks counted only the top slot is full, and it holds the whole tree. */
  lemma {:induction false} CounterFull(p: Equihash, partial: seq<nat>, X: Slots, r: nat)
    requires p.Valid() && IsPartial(p, partial) && r <= p.K && Counter(p, partial, X, r, Pow2(p.K - r))
    ensures |X| == p.K - r + 1 && X[p.K - r].Some? && Held(p, partial, X[p.K - r].value, 0, p.K)
    decreases p.K - r
  {
    hide Held, IsPartial, Equihash.Valid;
    if r < p.K {
      var m := Pow2(p.K - r - 1);
      assert Pow2(p.K - r) == 2 * m;
      hide Pow2;
      assert 2 * m != 1 && (2 * m) % 2 == 0 && (2 * m) / 2 == m;
      CounterFull(p, partial, X[1..], r + 1);
    }
  }

  /** A failed block fails the whole tree. */
  lemma {:induction false} NoneAbove(p: Equihash, partial: seq<nat>, q: nat, r: nat)
    requires p.Valid() && IsPartial(p, partial) && r <= p.K && q < Pow2(p.K - r) && Block(p, partial, q, r).None?
    ensures Block(p, partial, 0, p.K).None?
    decreases p.K - r
  {
    hide Block, Equihash.Valid, IsPartial;
    if r < p.K {
      NoneOneUp(p, partial, q, r);
      NoneAbove(p, partial, q / 2, r + 1);
    }
  }

  lemma NoneOneUp(p: Equihash, partial: seq<nat>, q: nat, r: nat)
    requires p.Valid() && IsPartial(p, partial) && r < p.K && q < Pow2(p.K - r) && Block(p, partial, q, r).None?
    ensures q / 2 < Pow2(p.K - r - 1) && Block(p, partial, q / 2, r + 1).None?
  {
    hide Equihash.Valid, BranchRound, Round.Pairs, Candidates;
    Doubling(p.K - r);
    assert q == 2 * (q / 2) || q == 2 * (q / 2) + 1;
  }

  lemma SortedPrefix(X: seq<Row>, len: nat, clen: nat)
    requires LongEnough(X, len) && clen <= len && Sorted(X, len)
    ensures LongEnough(X, clen) && Sorted(X, clen)
  {
    forall i, j | 0 <= i < j < |X| ensures !Less(X[j], X[i], clen) {
      assert X[j].hash[..len][..clen] == X[j].hash[..clen] && X[i].hash[..len][..clen] == X[i].hash[..clen];
      if Less(X[j], X[i], clen) { BeforePrefix(X[j].hash[..len], X[i].hash[..len], clen); }
    }
  }

  lemma {:induction false} BeforePrefix(a: seq<nat>, b: seq<nat>, n: nat)
    requires |a| == |b| && n <= |a| && Before(a[..n], b[..n])
    ensures Before(a, b)
  {
    if a[0] == b[0] {
      assert a[..n][1..] == a[1..][..n - 1] && b[..n][1..] == b[1..][..n - 1];
      BeforePrefix(a[1..], b[1..], n - 1);
    }
  }

  /** Step 2c: the lists of two sibling blocks are put together, sorted and collided. */
  method MergeLists(p: Equihash, partial: seq<nat>, right: seq<Row>, left: seq<Row>, ghost q: nat, r: nat,
                    lti: nat, rti: nat, hashLen: nat) returns (ic: seq<Row>)
    requires p.Valid() && IsPartial(p, partial) && r < p.K && q < Pow2(p.K - r - 1) && hashLen == p.HashLen(r)
    requires lti == Start(2 * q, r) && rti == Start(2 * q + 1, r)
    requires HalvesHeld(p, partial, left, right, q, r) && (left != [] || right != [])
    ensures ic != [] ==> Held(p, partial, ic, q, r + 1)
    ensures ic == [] ==> Block(p, partial, q, r + 1).None?
  {
    hide Equihash.Valid, Round.Pairs, Sorted, Round.Emit, Block, Start;
    BlockFits(2 * q, r, p.K);
    BlockFits(2 * q + 1, r, p.K);
    var s := Round(hashLen, Pow2(r), p.CollisionByteLength(), p.CollisionByteLength(),
                   Branches(p.IndexBits(), partial[lti], partial[rti]));
    assert s == BranchRound(p, partial, q, r);
    ghost var X := Block(p, partial, 2 * q + 1, r).value + Block(p, partial, 2 * q, r).value;
    assert s.Shaped(X);
    ic := right + left;
    assert multiset(X) == multiset(ic);
    PermutedShape(s, X, ic);
    ic := SortRows(ic, hashLen);
    PermutedShape(s, X, ic);
    SortedPrefix(ic, hashLen, s.clen);
    PairsPermuted(s, X, ic);
    ic := CollideInPlace(s, ic);
    NextBlock(p, partial, q, r, Block(p, partial, 2 * q, r).value, Block(p, partial, 2 * q + 1, r).value);
    NoRows(ic, s.Pairs(X));
  }

  lemma NoRows(X: seq<Row>, Y: seq<Row>)
    requires multiset(X) == multiset(Y)
    ensures X == [] <==> Y == []
  {
    assert |X| == |multiset(X)| && |Y| == |multiset(Y)|;
  }

  /** What a count says about its lowest slot, when another block is still to come. */
  lemma CounterCases(p: Equihash, partial: seq<nat>, S: Slots, r: nat, m: nat)
    requires p.Valid() && IsPartial(p, partial) && r <= p.K && Counter(p, partial, S, r, m) && m < Pow2(p.K - r)
    ensures S == [] <==> m == 0
    ensures S != [] ==> r < p.K && Counter(p, partial, S[1..], r + 1, m / 2)
    ensures S != [] && S[0].Some? ==> m % 2 == 1 && Held(p, partial, S[0].value, m - 1, r)
    ensures S != [] && S[0].None? ==> m % 2 == 0
  {
    hide Held, Equihash.Valid, IsPartial;
  }

  /** A block arriving at an empty slot is counted there. */
  lemma CounterPlace(p: Equihash, partial: seq<nat>, S: Slots, r: nat, m: nat, ic: seq<Row>)
    requires p.Valid() && IsPartial(p, partial) && r <= p.K && Counter(p, partial, S, r, m) && m < Pow2(p.K - r)
    requires Held(p, partial, ic, m, r) && (S != [] ==> S[0].None?)
    ensures Counter(p, partial, [Some(ic)] + (if S == [] then [] else S[1..]), r, m + 1)
  {
    hide Held, Equihash.Valid, IsPartial, Counter, Pow2;
    CounterCases(p, partial, S, r, m);
    var T := [Some(ic)] + (if S == [] then [] else S[1..]);
    assert T[1..] == if S == [] then [] else S[1..];
    assert (m + 1) / 2 == m / 2;
    CounterOf(p, partial, T, r, m + 1);
  }

  lemma CounterOf(p: Equihash, partial: seq<nat>, X: Slots, r: nat, m: nat)
    requires p.Valid() && IsPartial(p, partial) && r <= p.K && m % 2 == 1 && m <= Pow2(p.K - r)
    requires X != [] && X[0].Some? && Held(p, partial, X[0].value, m - 1, r)
    requires if m == 1 then X[1..] == [] else r < p.K && Counter(p, partial, X[1..], r + 1, m / 2)
    ensures Counter(p, partial, X, r, m)
  {
    hide Held, Equihash.Valid, IsPartial, Pow2;
  }

  /** Block m is the right sibling of block m-1 when m is odd. */
  lemma Siblings(p: Equihash, m: nat, r: nat)
    requires r < p.K && m % 2 == 1 && m < Pow2(p.K - r)
    ensures m == 2 * (m / 2) + 1 && m - 1 == 2 * (m / 2) && m / 2 < Pow2(p.K - r - 1)
    ensures Start(m, r) == Start(m - 1, r) + Pow2(r)
    ensures Start(m / 2, r + 1) == Start(m - 1, r) && Start(m / 2 + 1, r + 1) == Start(m + 1, r)
  {
    StartNext(m - 1, r);
  }

  /** Adds the candidates of leaf i to the slots, merging up while slots are full. */
  method AddLeaf(p: Equihash, partial: seq<nat>, X0: Slots, icv: seq<Row>, i: nat) returns (ok: bool, X: Slots)
    requires p.Valid() && IsPartial(p, partial) && i < Pow2(p.K)
    requires Counter(p, partial, X0, 0, i) && Held(p, partial, icv, i, 0) && icv != []
    ensures ok ==> Counter(p, partial, X, 0, i + 1)
    ensures !ok ==> Block(p, partial, 0, p.K).None?
  {
    hide Equihash.Valid, Held, Block, Pow2, Counter, Start;
    LeafStart(i);
    X := X0;
    var ic, hashLen, rti := icv, p.HashLen(0), i;
    ghost var m: nat := i;
    var r := 0;
    assert X[0..] == X;
    while r < |X| && X[r].Some?
      invariant 0 <= r <= p.K && r <= |X| && m < Pow2(p.K - r)
      invariant Counter(p, partial, X[r..], r, m) && forall k :: 0 <= k < r ==> X[k].None?
      invariant Held(p, partial, ic, m, r) && ic != []
      invariant hashLen == p.HashLen(r) && rti == Start(m, r) && Start(m + 1, r) == i + 1
      decreases p.K - r
    {
      CounterCases(p, partial, X[r..], r, m);
      assert X[r..][0] == X[r] && X[r..][1..] == X[r + 1..];
      Siblings(p, m, r);
      var lti := rti - Pow2(r);
      ic := MergeLists(p, partial, ic, X[r].value, m / 2, r, lti, rti, hashLen);
      if ic == [] {
        NoneAbove(p, partial, m / 2, r + 1);
        return false, X;
      }
      ghost var above := X[r + 1..];
      X := X[r := None];
      assert X[r + 1..] == above;
      HashLenStep(p, r);
      hashLen, rti, m := hashLen - p.CollisionByteLength(), lti, m / 2;
      r := r + 1;
    }
    CounterCases(p, partial, X[r..], r, m);
    CounterPlace(p, partial, X[r..], r, m, ic);
    if r < |X| {
      assert X[r..][0] == X[r] && X[r..][1..] == X[r + 1..];
      X := X[r := Some(ic)];
      assert X[r..] == [Some(ic)] + X[r + 1..];
    } else {
      X := X + [Some(ic)];
      assert X[r..] == [Some(ic)] + [];
    }
    CounterBelow(p, partial, X, r, m + 1);
    ok := true;
  }

  lemma LeafStart(i: nat)
    ensures Start(i, 0) == i && Start(i + 1, 0) == i + 1
  {}

  lemma HashLenStep(p: Equihash, r: nat)
    requires r < p.K
    ensures p.HashLen(r + 1) == p.HashLen(r) - p.CollisionByteLength()
  {}

  /** The rebuild of one partial solution: rows for the whole tree, or None if it is invalid. */
  method RebuildPartial(p: Equihash, partial: seq<nat>) returns (rows: Option<seq<Row>>)
    requires p.Valid() && IsPartial(p, partial)
    ensures rows.Some? == Block(p, partial, 0, p.K).Some?
    ensures rows.Some? ==> multiset(rows.value) == multiset(Block(p, partial, 0, p.K).value)
  {
    hide Equihash.Valid, Pow2, Counter, Block;
    var X: Slots := [];
    NoLeaves(p, partial);
    var i := 0;
    while i < Pow2(p.K)
      invariant 0 <= i <= Pow2(p.K) && Counter(p, partial, X, 0, i)
    {
      var icv := MakeCandidates(p, partial[i]);
      LeafHeld(p, partial, i, icv);
      var ok;
      ok, X := AddLeaf(p, partial, X, icv, i);
      if !ok { return None; }
      i := i + 1;
    }
    CounterFull(p, partial, X, 0);
    assert |X| == p.K + 1;
    rows := X[p.K];
  }

  lemma NoLeaves(p: Equihash, partial: seq<nat>)
    requires p.Valid() && IsPartial(p, partial)
    ensures Counter(p, partial, [], 0, 0)
  {}

  lemma LeafHeld(p: Equihash, partial: seq<nat>, i: nat, icv: seq<Row>)
    requires p.Valid() && IsPartial(p, partial) && i < Pow2(p.K)
    requires icv == Candidates(p, partial[i], RecreateSize(p))
    ensures Held(p, partial, icv, i, 0) && icv != []
  {
    RecreateSizeIs(p);
  }

  // ---------- what is handed out ----------

  ghost predicate PartialBytes(p: Equihash, rows: seq<Row>)
  {
    forall i :: 0 <= i < |rows| ==> IsPartial(p, rows[i].indices)
  }

  /** soln packs the indices of a row rebuilt from some partial solution. */
  ghost predicate Rebuilt(p: Equihash, partials: seq<Row>, soln: seq<byte>)
    requires p.Valid() && PartialBytes(p, partials)
  {
    exists k :: 0 <= k < |partials| && RebuiltFrom(p, partials[k].indices, soln)
  }

  ghost predicate RebuiltFrom(p: Equihash, partial: seq<nat>, soln: seq<byte>)
    requires p.Valid() && IsPartial(p, partial)
  {
    Block(p, partial, 0, p.K).Some? &&
    exists row :: row in Block(p, partial, 0, p.K).value && soln == Solution(p, row)
  }

  /** The byte strings handed to validBlock, of those that satisfy all: each is refused, unless the
      run stops at the last one. */
  ghost predicate HandedOut(handed: seq<seq<byte>>, all: iset<seq<byte>>, validBlock: seq<byte> -> bool, found: bool)
  {
    && (forall k :: 0 <= k < |handed| ==> handed[k] in all)
    && (forall k :: 0 <= k < |handed| ==> (validBlock(handed[k]) <==> found && k == |handed| - 1))
    && (found ==> handed != [])
    && (!found ==> forall s :: s in all ==> s in handed)
  }

  /** From how many partial solutions soln is rebuilt, each counted as often as it is there. */
  ghost function Rebuilds(p: Equihash, partials: seq<Row>, soln: seq<byte>): nat
    requires p.Valid() && PartialBytes(p, partials)
  {
    if partials == [] then 0
    else Rebuilds(p, partials[..|partials| - 1], soln) + if RebuiltFrom(p, partials[|partials| - 1].indices, soln) then 1 else 0
  }

  /** Each byte string is handed out once for every partial solution that it is rebuilt from. */
  ghost predicate HandedTimes(p: Equihash, partials: seq<Row>, handed: seq<seq<byte>>, found: bool)
    requires p.Valid() && PartialBytes(p, partials)
  {
    forall soln :: multiset(handed)[soln] <= Rebuilds(p, partials, soln) && (!found ==> multiset(handed)[soln] == Rebuilds(p, partials, soln))
  }

  /** Those of image are handed out once more. */
  ghost predicate OnceMore(before: seq<seq<byte>>, handed: seq<seq<byte>>, image: iset<seq<byte>>, found: bool)
  {
    forall s :: var n := multiset(before)[s] + if s in image then 1 else 0;
                multiset(handed)[s] <= n && (!found ==> multiset(handed)[s] == n)
  }

  method SolutionSet(p: Equihash, rows: seq<Row>) returns (solns: set<seq<byte>>)
    ensures solns == set row | row in rows :: Solution(p, row)
  {
    solns := {};
    var i := 0;
    while i < |rows|
      invariant 0 <= i <= |rows| && solns == set row | row in rows[..i] :: Solution(p, row)
    {
      assert rows[..i + 1] == rows[..i] + [rows[i]];
      solns := solns + {Solution(p, rows[i])};
      i := i + 1;
    }
    assert rows[..i] == rows;
  }

  /** The rebuilt solutions of one partial solution, as std::set holds them, are offered in turn. */
  method OfferSet(p: Equihash, rows: seq<Row>, before: seq<seq<byte>>, ghost done: iset<seq<byte>>, validBlock: seq<byte> -> bool)
    returns (found: bool, handed: seq<seq<byte>>)
    requires HandedOut(before, done, validBlock, false)
    ensures HandedOut(handed, done + (iset row | row in rows :: Solution(p, row)), validBlock, found)
    ensures OnceMore(before, handed, iset row | row in rows :: Solution(p, row), found)
  {
    hide HandedOut, OnceMore;
    var solns := SolutionSet(p, rows);
    assert Besides(solns, {}) == iset row | row in rows :: Solution(p, row);
    handed := before;
    var left := solns;
    NoneOffered(before, solns);
    assert done + Besides(solns, left) == done;
    while left != {}
      invariant left <= solns
      invariant HandedOut(handed, done + Besides(solns, left), validBlock, false)
      invariant OnceMore(before, handed, Besides(solns, left), false)
      decreases |left|
    {
      var soln :| soln in left;
      OneOffered(before, handed, done, solns, left, soln, validBlock);
      left := left - {soln};
      handed := handed + [soln];
      if validBlock(soln) { return true, handed; }
    }
    found := false;
  }

  ghost function Besides(solns: set<seq<byte>>, left: set<seq<byte>>): iset<seq<byte>>
  {
    iset s | s in solns && s !in left
  }

  lemma NoneOffered(before: seq<seq<byte>>, solns: set<seq<byte>>)
    ensures OnceMore(before, before, Besides(solns, solns), false)
  {}

  lemma OneOffered(before: seq<seq<byte>>, handed: seq<seq<byte>>, done: iset<seq<byte>>, solns: set<seq<byte>>,
                   left: set<seq<byte>>, soln: seq<byte>, validBlock: seq<byte> -> bool)
    requires soln in left && left <= solns && HandedOut(handed, done + Besides(solns, left), validBlock, false)
    requires OnceMore(before, handed, Besides(solns, left), false)
    ensures validBlock(soln) ==> HandedOut(handed + [soln], done + Besides(solns, {}), validBlock, true)
    ensures validBlock(soln) ==> OnceMore(before, handed + [soln], Besides(solns, {}), true)
    ensures !validBlock(soln) ==> HandedOut(handed + [soln], done + Besides(solns, left - {soln}), validBlock, false)
    ensures OnceMore(before, handed + [soln], Besides(solns, left - {soln}), false)
  {
    var now := handed + [soln];
    assert multiset(now) == multiset(handed)[soln := multiset(handed)[soln] + 1];
    forall s | s in done + Besides(solns, left - {soln}) ensures s in now {
      if s != soln {
        assert s in done + Besides(solns, left);
        assert s in handed;
      }
    }
  }

  // ---------- the truncated rounds ----------

  lemma NoneTruncated(p: Equihash)
    requires p.Valid()
    ensures FirstTruncated(p, 0) == []
  {}

  lemma NextTruncated(p: Equihash, n: nat)
    requires p.Valid()
    ensures FirstTruncated(p, n + 1) == FirstTruncated(p, n) + [Row(p.LeafRow(n).hash, [Truncate(p, n)])]
  {
    hide Equihash.LeafRow, Truncate;
  }

  /** Step 1 with truncated indices. */
  method GenerateTruncated(p: Equihash) returns (X: seq<Row>)
    requires p.Valid()
    ensures X == FirstTruncated(p, p.InitSize())
  {
    hide Equihash.Valid, Pow2, FirstTruncated;
    var initSize := Pow2(p.CollisionBitLength() + 1);
    PerHashPositive(p);
    NoneTruncated(p);
    X := [];
    var g := 0;
    while |X| < initSize
      invariant |X| <= initSize && X == FirstTruncated(p, |X|)
      invariant |X| == initSize || |X| == g * p.IndicesPerHashOutput()
      decreases initSize - |X|
    {
      X := TruncatedOutput(p, g, X, initSize);
      assert (g + 1) * p.IndicesPerHashOutput() == g * p.IndicesPerHashOutput() + p.IndicesPerHashOutput();
      g := g + 1;
    }
  }

  /** The rows from one hash output, as far as there are indices. */
  method TruncatedOutput(p: Equihash, g: nat, X0: seq<Row>, initSize: nat) returns (X: seq<Row>)
    requires p.Valid() && |X0| == g * p.IndicesPerHashOutput() < initSize && X0 == FirstTruncated(p, |X0|)
    ensures X == FirstTruncated(p, |X|) && |X| == Min(initSize, |X0| + p.IndicesPerHashOutput())
  {
    hide Equihash.StepRow, Equihash.LeafRow, Pow2, Truncate, FirstTruncated;
    PerHashPositive(p);
    var perHash := p.IndicesPerHashOutput();
    var tmpHash := p.gen(g);
    X := X0;
    var i := 0;
    while i < perHash && |X| < initSize
      invariant 0 <= i <= perHash && |X| <= initSize && X == FirstTruncated(p, |X|) && |X| == |X0| + i
    {
      LeafAt(p, g, i);
      NextTruncated(p, |X|);
      X := X + [Row(p.StepRow(tmpHash, i, |X|).hash, [Truncate(p, |X|)])];
      i := i + 1;
    }
  }

  method TruncatedSortAndCollide(p: Equihash, X0: seq<Row>, r: nat) returns (X: seq<Row>)
    requires p.Valid() && r + 1 < p.K && multiset(X0) == multiset(TruncatedTable(p, r)) && |X0| > 0
    ensures multiset(X) == multiset(TruncatedTable(p, r + 1))
  {
    hide Equihash.Valid, Round.Pairs, Sorted;
    var s := TruncatedRound(p, r);
    PermutedShape(s, TruncatedTable(p, r), X0);
    X := SortRows(X0, p.CollisionByteLength());
    PermutedShape(s, X0, X);
    PairsPermuted(s, TruncatedTable(p, r), X);
    X := CollideInPlace(s, X);
  }

  /** The last truncated round: all pairs that agree on the whole remaining hash. */
  method CollectPairs(s: Round, X: seq<Row>) returns (out: seq<Row>)
    requires s.Ok() && s.Shaped(X) && LongEnough(X, s.clen) && Sorted(X, s.clen) && |X| > 1
    ensures out == s.Pairs(X)
  {
    hide Round.Collide, Round.Pairs, Sorted;
    out := [];
    var i := 0;
    NoPairs(s, X);
    while i < |X| - 1
      invariant 0 <= i <= |X| && Closed(s, X, i) && out == s.Pairs(X[..i])
    {
      var j := FindGroup(s, X, i, X);
      GroupPairs(s, X, i, j);
      out := AppendGroup(s, X, i, j, out);
      i := i + j;
    }
    RestOfPairs(s, X, i);
    LastRow(s, X, i);
  }

  lemma EmptyTruncated(p: Equihash, r: nat)
    requires p.Valid() && r < p.K && TruncatedTable(p, r) == []
    ensures TruncatedTable(p, p.K - 1) == []
    decreases p.K - r
  {
    if r + 1 < p.K {
      assert TruncatedTable(p, r + 1) == [];
      EmptyTruncated(p, r + 1);
    }
  }

  /** The first half of OptimisedSolve. */
  method FindPartials(p: Equihash) returns (partials: seq<Row>)
    requires p.Valid()
    ensures multiset(partials) == multiset(PartialRows(p))
  {
    hide Equihash.Valid, Round.Pairs, Sorted, TruncatedTable;
    KAtLeast3(p);
    var X := GenerateTruncated(p);
    ZerothTable(p);
    var r := 1;
    while r < p.K && |X| > 0
      invariant 1 <= r <= p.K && multiset(X) == multiset(TruncatedTable(p, r - 1))
    {
      X := TruncatedSortAndCollide(p, X, r - 1);
      r := r + 1;
    }
    ghost var T := TruncatedTable(p, r - 1);
    if r < p.K {
      assert |T| == |multiset(T)| == |multiset(X)| == 0;
      EmptyTruncated(p, r - 1);
    }
    partials := LastPartials(p, X);
  }

  /** The last truncated round. */
  method LastPartials(p: Equihash, X0: seq<Row>) returns (partials: seq<Row>)
    requires p.Valid() && multiset(X0) == multiset(TruncatedTable(p, p.K - 1))
    ensures multiset(partials) == multiset(PartialRows(p))
  {
    hide Equihash.Valid, Round.Pairs, Sorted, TruncatedTable;
    KAtLeast3(p);
    ghost var T := TruncatedTable(p, p.K - 1);
    TruncatedLastShape(p, T);
    var s := TruncatedFinal(p);
    PermutedShape(s, T, X0);
    PairsPermuted(s, T, X0);
    if |X0| > 1 {
      var X := SortRows(X0, p.HashLen(p.K - 1));
      PermutedShape(s, X0, X);
      PairsPermuted(s, X0, X);
      partials := CollectPairs(s, X);
    } else {
      LastRow(s, X0, 0);
      assert X0[0..] == X0;
      partials := [];
    }
  }

  lemma KAtLeast3(p: Equihash)
    requires p.Valid()
    ensures p.K >= 3
  {}

  lemma ZerothTable(p: Equihash)
    requires p.Valid()
    ensures TruncatedTable(p, 0) == FirstTruncated(p, p.InitSize())
  {}

  // ---------- partial solutions are byte lists ----------

  ghost predicate BytesOnly(X: seq<Row>)
  {
    forall x, v | x in X && v in x.indices :: v < 256
  }

  lemma PairsBytes(s: Round, X: seq<Row>)
    requires s.Ok() && s.Shaped(X) && s.rule.NotDuplicate? && BytesOnly(X)
    ensures BytesOnly(s.Pairs(X))
  {
    forall x, v | x in s.Pairs(X) && v in x.indices ensures v < 256 {
      var l, m := PairsFrom(s, X, x);
      assert X[l] in X && X[m] in X;
      assert x == Merge(X[l], X[m], s.trim);
      assert v in X[l].indices || v in X[m].indices;
    }
  }

  lemma {:induction false} FirstBytes(p: Equihash, n: nat)
    requires p.Valid()
    ensures BytesOnly(FirstTruncated(p, n))
  {
    if n > 0 { FirstBytes(p, n - 1); }
  }

  lemma {:induction false} TableBytes(p: Equihash, r: nat)
    requires p.Valid() && r < p.K
    ensures BytesOnly(TruncatedTable(p, r))
  {
    if r == 0 {
      FirstBytes(p, p.InitSize());
    } else {
      TableBytes(p, r - 1);
      PairsBytes(TruncatedRound(p, r - 1), TruncatedTable(p, r - 1));
    }
  }

  lemma PartialsArePartial(p: Equihash, partials: seq<Row>)
    requires p.Valid() && multiset(partials) == multiset(PartialRows(p))
    ensures PartialBytes(p, partials)
  {
    hide TruncatedTable, Round.Pairs;
    var T, s := TruncatedTable(p, p.K - 1), TruncatedFinal(p);
    TruncatedLastShape(p, T);
    TableBytes(p, p.K - 1);
    PairsBytes(s, T);
    forall i | 0 <= i < |partials| ensures IsPartial(p, partials[i].indices) {
      assert partials[i] in multiset(partials);
      assert partials[i] in PartialRows(p);
      PairsShape(s, T, partials[i]);
      forall k | 0 <= k < |partials[i].indices| ensures partials[i].indices[k] < 256 {
        assert partials[i].indices[k] in partials[i].indices;
      }
    }
  }

  // ---------- OptimisedSolve ----------

  /** The byte strings OptimisedSolve reaches. */
  ghost function Reached(p: Equihash): iset<seq<byte>>
    requires p.Valid()
  {
    PartialsArePartial(p, PartialRows(p));
    iset soln | Rebuilt(p, PartialRows(p), soln)
  }

  ghost function ReachedFrom(p: Equihash, partials: seq<Row>, n: nat): iset<seq<byte>>
    requires p.Valid() && PartialBytes(p, partials) && n <= |partials|
  {
    iset soln | Rebuilt(p, partials[..n], soln)
  }

  method OptimisedSolve(p: Equihash, validBlock: seq<byte> -> bool) returns (found: bool, handed: seq<seq<byte>>)
    requires p.Valid()
    ensures HandedOut(handed, Reached(p), validBlock, found)
    ensures PartialBytes(p, PartialRows(p)) && HandedTimes(p, PartialRows(p), handed, found)
  {
    hide Equihash.Valid, HandedOut, Rebuilt, PartialRows, Block, HandedTimes, OnceMore, PartialBytes;
    var partials := FindPartials(p);
    PartialsArePartial(p, partials);
    PartialsArePartial(p, PartialRows(p));
    handed := [];
    NothingReached(p, partials, validBlock);
    var k := 0;
    while k < |partials|
      invariant 0 <= k <= |partials| && PartialBytes(p, partials[..k])
      invariant HandedOut(handed, ReachedFrom(p, partials, k), validBlock, false)
      invariant HandedTimes(p, partials[..k], handed, false)
    {
      FirstPartials(p, partials, k);
      var rows := RebuildPartial(p, partials[k].indices);
      if rows.Some? {
        NextReached(p, partials, k, rows.value);
        ghost var before := handed;
        found, handed := OfferSet(p, rows.value, handed, ReachedFrom(p, partials, k), validBlock);
        NextTimes(p, partials, k, rows.value, before, handed, found);
        if found {
          AllReached(p, partials, k + 1, handed, validBlock, true);
          AllTimes(p, partials, k + 1, handed, true);
          return;
        }
      } else {
        NoneReached(p, partials, k);
        NoTimes(p, partials, k, handed);
      }
      k := k + 1;
    }
    AllReached(p, partials, k, handed, validBlock, false);
    AllTimes(p, partials, k, handed, false);
    found := false;
  }

  lemma FirstPartials(p: Equihash, partials: seq<Row>, k: nat)
    requires PartialBytes(p, partials) && k < |partials|
    ensures IsPartial(p, partials[k].indices) && PartialBytes(p, partials[..k + 1]) && PartialBytes(p, partials[..k])
  {}

  lemma NextRebuilds(p: Equihash, partials: seq<Row>, k: nat, soln: seq<byte>)
    requires p.Valid() && PartialBytes(p, partials) && k < |partials| && PartialBytes(p, partials[..k + 1]) && PartialBytes(p, partials[..k])
    ensures Rebuilds(p, partials[..k + 1], soln) == Rebuilds(p, partials[..k], soln) + if RebuiltFrom(p, partials[k].indices, soln) then 1 else 0
  {
    hide RebuiltFrom, Equihash.Valid, IsPartial;
    var some := partials[..k + 1];
    assert some[..k] == partials[..k] && some[k] == partials[k];
  }

  lemma NextTimes(p: Equihash, partials: seq<Row>, k: nat, rows: seq<Row>, before: seq<seq<byte>>, handed: seq<seq<byte>>, found: bool)
    requires p.Valid() && PartialBytes(p, partials) && k < |partials| && PartialBytes(p, partials[..k + 1]) && PartialBytes(p, partials[..k])
    requires Block(p, partials[k].indices, 0, p.K).Some?
    requires multiset(rows) == multiset(Block(p, partials[k].indices, 0, p.K).value)
    requires HandedTimes(p, partials[..k], before, false)
    requires OnceMore(before, handed, iset row | row in rows :: Solution(p, row), found)
    ensures HandedTimes(p, partials[..k + 1], handed, found)
  {
    hide RebuiltFrom, Rebuilds, Equihash.Valid, Block, IsPartial, Solution;
    forall soln ensures multiset(handed)[soln] <= Rebuilds(p, partials[..k + 1], soln)
                     && (!found ==> multiset(handed)[soln] == Rebuilds(p, partials[..k + 1], soln)) {
      NextRebuilds(p, partials, k, soln);
      SameRows(p, partials[k].indices, rows, soln);
    }
  }

  lemma NoTimes(p: Equihash, partials: seq<Row>, k: nat, handed: seq<seq<byte>>)
    requires p.Valid() && PartialBytes(p, partials) && k < |partials| && PartialBytes(p, partials[..k + 1]) && PartialBytes(p, partials[..k])
    requires Block(p, partials[k].indices, 0, p.K).None? && HandedTimes(p, partials[..k], handed, false)
    ensures HandedTimes(p, partials[..k + 1], handed, false)
  {
    hide Rebuilds, Equihash.Valid, Block, IsPartial, Solution;
    forall soln ensures multiset(handed)[soln] == Rebuilds(p, partials[..k + 1], soln) { NextRebuilds(p, partials, k, soln); }
  }

  /** The count does not depend on the order of the partial solutions. */
  lemma {:induction false} RebuildsPermuted(p: Equihash, a: seq<Row>, b: seq<Row>, soln: seq<byte>)
    requires p.Valid() && PartialBytes(p, a) && PartialBytes(p, b) && multiset(a) == multiset(b)
    ensures Rebuilds(p, a, soln) == Rebuilds(p, b, soln)
    decreases |a|
  {
    hide RebuiltFrom, Equihash.Valid, IsPartial;
    assert |a| == |multiset(a)| == |multiset(b)| == |b|;
    if a != [] {
      var n := |a| - 1;
      assert a == a[..n] + [a[n]];
      assert multiset(a[..n]) == multiset(a) - multiset{a[n]};
      assert a[n] in multiset(b);
      var k :| 0 <= k < |b| && b[k] == a[n];
      WithoutMultiset(b, k);
      assert multiset(Without(b, k)) == multiset(b) - multiset{b[k]};
      RebuildsWithout(p, b, k, soln);
      RebuildsPermuted(p, a[..n], Without(b, k), soln);
    }
  }

  lemma {:induction false} RebuildsWithout(p: Equihash, b: seq<Row>, k: nat, soln: seq<byte>)
    requires p.Valid() && PartialBytes(p, b) && k < |b|
    ensures PartialBytes(p, Without(b, k))
    ensures Rebuilds(p, b, soln) == Rebuilds(p, Without(b, k), soln) + if RebuiltFrom(p, b[k].indices, soln) then 1 else 0
    decreases |b|
  {
    hide RebuiltFrom, Equihash.Valid, IsPartial;
    var n, rest := |b| - 1, Without(b, k);
    if k == n {
      assert rest == b[..n];
    } else {
      RebuildsWithout(p, b[..n], k, soln);
      assert rest[n - 1] == b[n] && rest[..n - 1] == Without(b[..n], k);
    }
  }

  lemma {:induction false} MoreRebuilds(p: Equihash, partials: seq<Row>, k: nat, soln: seq<byte>)
    requires p.Valid() && PartialBytes(p, partials) && k <= |partials| && PartialBytes(p, partials[..k])
    ensures Rebuilds(p, partials[..k], soln) <= Rebuilds(p, partials, soln)
    decreases |partials| - k
  {
    hide RebuiltFrom, Equihash.Valid, IsPartial, Rebuilds;
    if k < |partials| {
      NextRebuilds(p, partials, k, soln);
      MoreRebuilds(p, partials, k + 1, soln);
    } else {
      assert partials[..k] == partials;
    }
  }

  lemma AllTimes(p: Equihash, partials: seq<Row>, k: nat, handed: seq<seq<byte>>, found: bool)
    requires p.Valid() && PartialBytes(p, partials) && multiset(partials) == multiset(PartialRows(p)) && PartialBytes(p, PartialRows(p))
    requires k <= |partials| && (found || k == |partials|) && PartialBytes(p, partials[..k])
    requires HandedTimes(p, partials[..k], handed, found)
    ensures HandedTimes(p, PartialRows(p), handed, found)
  {
    hide Rebuilds, Equihash.Valid, PartialRows, PartialBytes;
    forall soln ensures multiset(handed)[soln] <= Rebuilds(p, PartialRows(p), soln)
                     && (!found ==> multiset(handed)[soln] == Rebuilds(p, PartialRows(p), soln)) {
      MoreRebuilds(p, partials, k, soln);
      RebuildsPermuted(p, partials, PartialRows(p), soln);
      if !found { assert partials[..k] == partials; }
    }
  }

  lemma NothingReached(p: Equihash, partials: seq<Row>, validBlock: seq<byte> -> bool)
    requires p.Valid() && PartialBytes(p, partials)
    ensures HandedOut([], ReachedFrom(p, partials, 0), validBlock, false)
    ensures PartialBytes(p, partials[..0]) && HandedTimes(p, partials[..0], [], false)
  {}

  lemma NextReached(p: Equihash, partials: seq<Row>, k: nat, rows: seq<Row>)
    requires p.Valid() && PartialBytes(p, partials) && k < |partials|
    requires Block(p, partials[k].indices, 0, p.K).Some?
    requires multiset(rows) == multiset(Block(p, partials[k].indices, 0, p.K).value)
    ensures ReachedFrom(p, partials, k + 1) == ReachedFrom(p, partials, k) + (iset row | row in rows :: Solution(p, row))
  {
    hide Rebuilt, RebuiltFrom, Equihash.Valid, Block;
    var image := iset row | row in rows :: Solution(p, row);
    forall soln ensures soln in ReachedFrom(p, partials, k + 1) <==> soln in ReachedFrom(p, partials, k) || soln in image {
      OneMorePartial(p, partials, k, soln);
      SameRows(p, partials[k].indices, rows, soln);
    }
  }

  lemma SameRows(p: Equihash, partial: seq<nat>, rows: seq<Row>, soln: seq<byte>)
    requires p.Valid() && IsPartial(p, partial) && Block(p, partial, 0, p.K).Some?
    requires multiset(rows) == multiset(Block(p, partial, 0, p.K).value)
    ensures RebuiltFrom(p, partial, soln) <==> exists row :: row in rows && soln == Solution(p, row)
  {
    hide Equihash.Valid, Solution;
    var held := Block(p, partial, 0, p.K).value;
    hide Block;
    forall row ensures row in rows <==> row in held {
      assert row in rows <==> row in multiset(rows);
      assert row in held <==> row in multiset(held);
    }
  }

  lemma OneMorePartial(p: Equihash, partials: seq<Row>, k: nat, soln: seq<byte>)
    requires p.Valid() && PartialBytes(p, partials) && k < |partials|
    ensures Rebuilt(p, partials[..k + 1], soln) <==>
            Rebuilt(p, partials[..k], soln) || RebuiltFrom(p, partials[k].indices, soln)
  {
    hide RebuiltFrom, Equihash.Valid;
    assert partials[..k + 1][k] == partials[k];
    forall i | 0 <= i < k ensures partials[..k + 1][i] == partials[..k][i] {}
    if i :| 0 <= i < k && RebuiltFrom(p, partials[..k][i].indices, soln) {
      assert RebuiltFrom(p, partials[..k + 1][i].indices, soln);
    }
  }

  lemma NoneReached(p: Equihash, partials: seq<Row>, k: nat)
    requires p.Valid() && PartialBytes(p, partials) && k < |partials|
    requires Block(p, partials[k].indices, 0, p.K).None?
    ensures ReachedFrom(p, partials, k + 1) == ReachedFrom(p, partials, k)
  {
    forall soln ensures soln in ReachedFrom(p, partials, k + 1) <==> soln in ReachedFrom(p, partials, k) {
      OneMorePartial(p, partials, k, soln);
    }
  }

  lemma AllReached(p: Equihash, partials: seq<Row>, k: nat, handed: seq<seq<byte>>, validBlock: seq<byte> -> bool, found: bool)
    requires p.Valid() && PartialBytes(p, partials) && multiset(partials) == multiset(PartialRows(p))
    requires k <= |partials| && (found || k == |partials|)
    requires HandedOut(handed, ReachedFrom(p, partials, k), validBlock, found)
    ensures HandedOut(handed, Reached(p), validBlock, found)
  {
    hide RebuiltFrom, Equihash.Valid, PartialRows;
    var rows := PartialRows(p);
    PartialsArePartial(p, rows);
    forall soln | Rebuilt(p, partials[..k], soln) ensures Rebuilt(p, rows, soln) {
      var i :| 0 <= i < k && RebuiltFrom(p, partials[..k][i].indices, soln);
      assert partials[i] in multiset(partials);
      assert partials[i] in rows;
      var j :| 0 <= j < |rows| && rows[j] == partials[i];
    }
    if k == |partials| {
      assert partials[..k] == partials;
      forall soln | Rebuilt(p, rows, soln) ensures Rebuilt(p, partials, soln) {
        var i :| 0 <= i < |rows| && RebuiltFrom(p, rows[i].indices, soln);
        assert rows[i] in multiset(rows);
        assert rows[i] in partials;
        var j :| 0 <= j < |partials| && partials[j] == rows[i];
      }
    }
  }
}
