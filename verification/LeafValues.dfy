/** Hash functions that are given by the values that the leaves unpack from them, and what hashes of
    small values look like. */
module LeafValues {
  import opened Bits
  import opened BitPacking
  import opened StepRows
  import opened EquihashTree
  import opened Wrappers

  // ---------- hash functions given by the values of their leaves ----------

  /** What Equihash.Valid asks of N and K. */
  predicate Sizes(N: nat, K: nat)
  {
    N % 8 == 0 && N <= 512 && K >= 3 && 8 <= N / (K + 1) <= 24 && N == (K + 1) * (N / (K + 1))
  }

  /** A hash output holds the packed values of the indices from start on. */
  function Outputs(leaf: nat -> seq<nat>, c: nat, start: nat, n: nat): seq<byte>
  {
    if n == 0 then [] else Outputs(leaf, c, start, n - 1) + Packed(leaf(start + n - 1), c)
  }

  function WithLeaves(N: nat, K: nat, leaf: nat -> seq<nat>): Equihash
    requires N > 0
  {
    Equihash(N, K, (g: nat) => Outputs(leaf, N / (K + 1), FirstIndex(N, g), 512 / N))
  }

  /** The first index of hash output g. */
  function FirstIndex(N: nat, g: nat): nat
    requires N > 0
  {
    512 / N * g
  }

  /** Every index has m values of c bits. */
  ghost predicate Fitting(leaf: nat -> seq<nat>, m: nat, c: nat)
  {
    forall i: nat :: |leaf(i)| == m && forall k :: 0 <= k < m ==> leaf(i)[k] < Pow2(c)
  }

  lemma {:induction false} OutputAt(leaf: nat -> seq<nat>, c: nat, w: nat, start: nat, n: nat, pos: nat)
    requires forall i: nat :: |Packed(leaf(i), c)| == w
    ensures |Outputs(leaf, c, start, n)| == n * w
    ensures pos < n ==> pos * w + w <= n * w && Outputs(leaf, c, start, n)[pos * w..pos * w + w] == Packed(leaf(start + pos), c)
  {
    hide Packed;
    if n > 0 {
      OutputAt(leaf, c, w, start, n - 1, pos);
      PartAt(Outputs(leaf, c, start, n - 1), Packed(leaf(start + n - 1), c), w, n - 1, pos);
    }
  }

  /** One more part of w bytes behind n of them. */
  lemma PartAt(front: seq<byte>, last: seq<byte>, w: nat, n: nat, pos: nat)
    requires |front| == n * w && |last| == w
    ensures |front + last| == (n + 1) * w
    ensures pos < n ==> pos * w + w <= n * w && (front + last)[pos * w..pos * w + w] == front[pos * w..pos * w + w]
    ensures pos <= n ==> pos * w + w <= (n + 1) * w
    ensures (front + last)[n * w..n * w + w] == last
  {
    if pos <= n { MulMono(pos + 1, n + 1, w); }
    if pos < n { MulMono(pos + 1, n, w); }
  }

  lemma LeavesValid(N: nat, K: nat, leaf: nat -> seq<nat>)
    requires Sizes(N, K) && Fitting(leaf, K + 1, N / (K + 1))
    ensures WithLeaves(N, K, leaf).Valid()
  {
    hide Packed, Outputs, FirstIndex;
    PartLengths(N, K, leaf);
    forall g: nat ensures |Outputs(leaf, N / (K + 1), FirstIndex(N, g), 512 / N)| == 512 / N * (N / 8) {
      OutputAt(leaf, N / (K + 1), N / 8, FirstIndex(N, g), 512 / N, 0);
    }
  }

  lemma PartLengths(N: nat, K: nat, leaf: nat -> seq<nat>)
    requires Sizes(N, K) && Fitting(leaf, K + 1, N / (K + 1))
    ensures forall i: nat :: |Packed(leaf(i), N / (K + 1))| == N / 8
  {
    Commute(K + 1, N / (K + 1));
    forall i: nat ensures |Packed(leaf(i), N / (K + 1))| == N / 8 {
      assert |leaf(i)| == K + 1;
    }
  }

  /** The row of index i expands its values. */
  lemma LeafHash(N: nat, K: nat, leaf: nat -> seq<nat>, i: nat)
    requires Sizes(N, K) && Fitting(leaf, K + 1, N / (K + 1)) && WithLeaves(N, K, leaf).Valid()
    ensures WithLeaves(N, K, leaf).LeafRow(i).hash == Cells(leaf(i), N / (K + 1), 0)
  {
    hide Packed, Outputs, Cells, Elements, FirstIndex;
    var p, c := WithLeaves(N, K, leaf), N / (K + 1);
    PartLengths(N, K, leaf);
    var g, pos := i / (512 / N), i % (512 / N);
    IndexPlace(N, i);
    OutputAt(leaf, c, N / 8, FirstIndex(N, g), 512 / N, pos);
    PartOfHash(pos, N, 512 / N);
    var part := p.gen(g)[pos * N / 8..][..N / 8];
    assert part == Outputs(leaf, c, FirstIndex(N, g), 512 / N)[pos * (N / 8)..pos * (N / 8) + N / 8];
    assert |leaf(i)| == K + 1;
    Commute(K + 1, c);
    CompressThenExpand(leaf(i), c);
  }

  lemma IndexPlace(N: nat, i: nat)
    requires 0 < N <= 512
    ensures FirstIndex(N, i / (512 / N)) + i % (512 / N) == i
  {}

  // ---------- hashes of zeros and ones ----------

  /** Each value in w bytes. */
  function Spell(v: seq<byte>, w: nat): (h: seq<byte>)
    requires w > 0
  {
    if v == [] then [] else Zeros(w - 1) + [v[0]] + Spell(v[1..], w)
  }

  lemma {:induction false} SpellSnoc(v: seq<byte>, x: byte, w: nat)
    requires w > 0
    ensures Spell(v + [x], w) == Spell(v, w) + (Zeros(w - 1) + [x])
  {
    if v == [] {
      assert Spell([x], w) == Zeros(w - 1) + [x] + Spell([], w);
    } else {
      SpellSnoc(v[1..], x, w);
      assert (v + [x])[1..] == v[1..] + [x];
    }
  }

  lemma {:induction false} SmallDigits(x: byte, n: nat)
    requires n > 0
    ensures Digits(x, 256, n) == Zeros(n - 1) + [x]
    ensures Digits(0, 256, n) == Zeros(n)
    decreases n
  {
    if n > 1 {
      SmallDigits(0, n - 1);
      assert Digits(x, 256, n) == Digits(0, 256, n - 1) + [x];
      assert Zeros(n - 1) + [0] == Zeros(n);
    }
  }

  lemma {:induction false} CellsSpell(v: seq<byte>, c: nat)
    requires c > 0
    ensures Cells(v, c, 0) == Spell(v, ElementBytes(c))
  {
    if v != [] {
      var n := |v| - 1;
      CellsSpell(v[..n], c);
      SmallDigits(v[n], ElementBytes(c));
      SpellSnoc(v[..n], v[n], ElementBytes(c));
      assert v[..n] + [v[n]] == v;
      assert Cell(v[n], c, 0) == Digits(v[n], 256, ElementBytes(c));
    }
  }

  /** u is the exclusive or of s and t, value by value. */
  predicate IsXor(s: seq<byte>, t: seq<byte>, u: seq<byte>)
  {
    |s| == |t| == |u| && forall k :: 0 <= k < |s| ==> u[k] == XorByte(s[k], t[k])
  }

  lemma {:induction false} SpellXor(s: seq<byte>, t: seq<byte>, u: seq<byte>, w: nat)
    requires w > 0 && IsXor(s, t, u)
    ensures IsXor(Spell(s, w), Spell(t, w), Spell(u, w))
  {
    hide XorByte;
    XorValues();
    if s != [] {
      SpellXor(s[1..], t[1..], u[1..], w);
      CellXor(s[0], t[0], u[0], Spell(s[1..], w), Spell(t[1..], w), Spell(u[1..], w), w);
    }
  }

  lemma CellXor(x: byte, y: byte, z: byte, s: seq<byte>, t: seq<byte>, u: seq<byte>, w: nat)
    requires w > 0 && z == XorByte(x, y) && IsXor(s, t, u)
    ensures IsXor(Zeros(w - 1) + [x] + s, Zeros(w - 1) + [y] + t, Zeros(w - 1) + [z] + u)
  {
    XorValues();
    hide XorByte;
    var a, b, c := Zeros(w - 1) + [x] + s, Zeros(w - 1) + [y] + t, Zeros(w - 1) + [z] + u;
    forall k | 0 <= k < |a| ensures c[k] == XorByte(a[k], b[k]) {
      if k >= w { assert a[k] == s[k - w] && b[k] == t[k - w] && c[k] == u[k - w]; }
    }
  }

  lemma XorValues()
    ensures XorByte(0, 0) == 0 && XorByte(0, 1) == 1 && XorByte(1, 0) == 1 && XorByte(1, 1) == 0
  {
    assert Xor(1, 1) == 0;
  }

  /** Two hashes that begin with the same value collide on it, and the rest is combined. */
  lemma SpellMerge(a: Row, b: Row, x: byte, s: seq<byte>, t: seq<byte>, u: seq<byte>, w: nat)
    requires w > 0 && Alike(a, b) && a.hash == Spell([x] + s, w) && b.hash == Spell([x] + t, w) && IsXor(s, t, u)
    ensures w <= |a.hash| && HasCollision(a, b, w) && Merge(a, b, w).hash == Spell(u, w)
  {
    hide XorByte;
    var cell := Zeros(w - 1) + [x];
    assert ([x] + s)[1..] == s && ([x] + t)[1..] == t;
    assert a.hash == cell + Spell(s, w) && b.hash == cell + Spell(t, w);
    assert a.hash[..w] == cell == b.hash[..w];
    SpellXor(s, t, u, w);
    var m, h := Merge(a, b, w).hash, Spell(u, w);
    forall k | 0 <= k < |h| ensures m[k] == h[k] {
      assert a.hash[k + w] == Spell(s, w)[k] && b.hash[k + w] == Spell(t, w)[k];
    }
    assert m == h;
  }
}
