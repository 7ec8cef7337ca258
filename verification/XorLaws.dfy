/** What exclusive or is, bit by bit, and what merging rows does to the hashes of a whole tree: each
    bit of the hash left is the parity of that bit over all leaves. */
module XorLaws {
  import opened Bits
  import opened StepRows
  import opened BitPacking
  import opened EquihashTree
  import opened Wrappers
  import opened BasicSolver
  import opened TruncatedTables

  /** Bit k of x. */
  function Bit(x: nat, k: nat): (b: nat)
    ensures b < 2
  {
    Quot(x, Pow2(k)) % 2
  }

  /** Bit k of the exclusive or is set exactly if bit k of one of the two is, but not of both. */
  lemma {:induction false} XorBits(x: nat, y: nat, k: nat)
    ensures Bit(Xor(x, y), k) == (Bit(x, k) + Bit(y, k)) % 2
    decreases k
  {
    hide Quot;
    BitHalf(x, k);
    BitHalf(y, k);
    BitHalf(Xor(x, y), k);
    XorHalf(x, y);
    if k > 0 { XorBits(x / 2, y / 2, k - 1); }
  }

  lemma BitHalf(x: nat, k: nat)
    ensures k == 0 ==> Bit(x, k) == x % 2
    ensures k > 0 ==> Bit(x, k) == Bit(x / 2, k - 1)
  {
    hide Quot;
    if k == 0 {
      QuotRemUnique(x, 1, x, 0);
    } else {
      QuotRem(x / 2, Pow2(k - 1));
      var q, p, r := Quot(x / 2, Pow2(k - 1)), Pow2(k - 1), Rem(x / 2, Pow2(k - 1));
      assert q * (2 * p) == 2 * (q * p);
      QuotRemUnique(x, Pow2(k), q, 2 * r + x % 2);
    }
  }

  /** The lowest bit and the others. */
  lemma XorHalf(x: nat, y: nat)
    ensures Xor(x, y) % 2 == (x + y) % 2
    ensures Xor(x, y) / 2 == Xor(x / 2, y / 2)
  {}

  /** A byte is zero exactly if its bits are. */
  lemma {:induction false} ZeroBits(x: nat, n: nat)
    requires x < Pow2(n)
    ensures x == 0 <==> forall k :: 0 <= k < n ==> Bit(x, k) == 0
  {
    if n > 0 {
      ZeroBits(x / 2, n - 1);
      BitHalf(x, 0);
      forall k | 0 <= k < n - 1 ensures Bit(x / 2, k) == Bit(x, k + 1) { BitHalf(x, k + 1); }
    }
  }

  // ---------- trees ----------

  /** How many of the leaves have bit k set in byte j of their hash. */
  function Column(p: Equihash, ix: seq<nat>, j: nat, k: nat): nat
    requires p.Valid() && j < p.HashLen(0)
  {
    if ix == [] then 0 else Column(p, ix[..|ix| - 1], j, k) + Bit(p.LeafRow(ix[|ix| - 1]).hash[j], k)
  }

  lemma {:induction false} ColumnJoin(p: Equihash, s: seq<nat>, t: seq<nat>, j: nat, k: nat)
    requires p.Valid() && j < p.HashLen(0)
    ensures Column(p, s + t, j, k) == Column(p, s, j, k) + Column(p, t, j, k)
    decreases |t|
  {
    hide Equihash.Valid, Equihash.LeafRow, Bit, Equihash.HashLen;
    if t == [] {
      assert s + t == s;
    } else {
      ColumnJoin(p, s, t[..|t| - 1], j, k);
      assert (s + t)[..|s + t| - 1] == s + t[..|t| - 1];
    }
  }

  /** The bytes of the leaf hashes that r rounds have consumed. */
  function Consumed(p: Equihash, r: nat): nat { Times(r, p.CollisionByteLength()) }

  lemma Widths(p: Equihash, r: nat)
    requires p.Valid() && r < p.K
    ensures Consumed(p, r + 1) == Consumed(p, r) + p.CollisionByteLength()
    ensures Consumed(p, r) + p.HashLen(r) == p.HashLen(0) && p.HashLen(r + 1) + p.CollisionByteLength() == p.HashLen(r)
  {
    TimesSum(r, p.K + 1 - r, p.CollisionByteLength());
    TimesSum(1, p.K - r, p.CollisionByteLength());
  }

  lemma {:induction false} TimesSum(a: nat, b: nat, w: nat)
    ensures Times(a + b, w) == Times(a, w) + Times(b, w)
    decreases a
  {
    if a > 0 { TimesSum(a - 1, b, w); }
  }

  /** The bit that the row left after r rounds has for bit k of byte j of the leaf hashes. */
  function LeftBit(p: Equihash, row: Row, r: nat, j: nat, k: nat): nat
  {
    if Consumed(p, r) <= j < Consumed(p, r) + |row.hash| then Bit(row.hash[j - Consumed(p, r)], k) else 0
  }

  lemma {:induction false} TreeParity(p: Equihash, ix: seq<nat>, r: nat, j: nat, k: nat)
    requires p.Valid() && r <= p.K && |ix| == Pow2(r) && p.TreeRow(ix, r).Some? && j < p.HashLen(0)
    ensures Column(p, ix, j, k) % 2 == LeftBit(p, p.TreeRow(ix, r).value, r, j, k)
    decreases r
  {
    hide Equihash.Valid, Equihash.TreeRow, Equihash.HashLen, Pow2, Bit, Column, Consumed, Merge, DistinctIndices, LeftBit, HasCollision;
    if r == 0 {
      LeafParity(p, ix, j, k);
    } else {
      Doubling(r);
      var L, R := ix[..Pow2(r - 1)], ix[Pow2(r - 1)..];
      var a, b := TreeHalves(p, ix, r);
      TreeParity(p, L, r - 1, j, k);
      TreeParity(p, R, r - 1, j, k);
      assert ix == L + R;
      ColumnJoin(p, L, R, j, k);
      MergedBit(p, a, b, r - 1, j, k);
    }
  }

  lemma LeafParity(p: Equihash, ix: seq<nat>, j: nat, k: nat)
    requires p.Valid() && |ix| == Pow2(0) && j < p.HashLen(0)
    ensures p.TreeRow(ix, 0).Some? && Column(p, ix, j, k) % 2 == LeftBit(p, p.TreeRow(ix, 0).value, 0, j, k)
  {
    hide Equihash.Valid, Equihash.LeafRow, Equihash.HashLen, Bit;
    assert ix[..0] == [];
    assert Column(p, ix, j, k) == Column(p, [], j, k) + Bit(p.LeafRow(ix[0]).hash[j], k);
  }

  /** In the bytes compared both rows have the same bits; of those behind, the merged row has the
      exclusive or. */
  lemma MergedBit(p: Equihash, a: Row, b: Row, r: nat, j: nat, k: nat)
    requires p.Valid() && r < p.K && Alike(a, b) && |a.hash| == p.HashLen(r) && p.CollisionByteLength() <= |a.hash|
    requires HasCollision(a, b, p.CollisionByteLength()) && j < p.HashLen(0)
    ensures LeftBit(p, Merge(a, b, p.CollisionByteLength()), r + 1, j, k) == (LeftBit(p, a, r, j, k) + LeftBit(p, b, r, j, k)) % 2
  {
    hide Equihash.Valid, Bit, Consumed, Equihash.HashLen;
    Widths(p, r);
    var w, c := p.CollisionByteLength(), Consumed(p, r);
    if c <= j {
      if j < c + w {
        assert a.hash[j - c] == a.hash[..w][j - c] == b.hash[..w][j - c] == b.hash[j - c];
      } else {
        XorBits(a.hash[j - c], b.hash[j - c], k);
        assert Merge(a, b, w).hash[j - c - w] == XorByte(a.hash[j - c - w + w], b.hash[j - c - w + w]);
      }
    }
  }

  /** The hashes of the leaves cancel out: every bit is set in an even number of them. */
  ghost predicate Cancel(p: Equihash, ix: seq<nat>)
    requires p.Valid()
  {
    forall j, k | 0 <= j < p.HashLen(0) && 0 <= k < 8 :: Column(p, ix, j, k) % 2 == 0
  }

  /** A tree that passes the checks on every pair leaves a zero hash exactly if its leaves cancel out. */
  lemma ZeroIsCancel(p: Equihash, ix: seq<nat>)
    requires p.Valid() && |ix| == Pow2(p.K) && p.TreeRow(ix, p.K).Some?
    ensures IsZero(p.TreeRow(ix, p.K).value) <==> Cancel(p, ix)
  {
    hide Equihash.TreeRow, Equihash.HashLen, Bit, Column, Consumed;
    var row, c, n := p.TreeRow(ix, p.K).value, Consumed(p, p.K), p.HashLen(p.K);
    RowWidth(p, ix);
    LastWidth(p);
    hide Equihash.Valid;
    Pow2Values();
    if IsZero(row) {
      forall j, k | 0 <= j < p.HashLen(0) && 0 <= k < 8 ensures Column(p, ix, j, k) % 2 == 0 {
        TreeParity(p, ix, p.K, j, k);
        ZeroBits(0, 8);
        if j >= c { assert row.hash[j - c] == 0; }
      }
    }
    if Cancel(p, ix) {
      forall i | 0 <= i < n ensures row.hash[i] == 0 {
        forall k | 0 <= k < 8 ensures Bit(row.hash[i], k) == 0 {
          TreeParity(p, ix, p.K, c + i, k);
          assert Column(p, ix, c + i, k) % 2 == 0;
        }
        ZeroBits(row.hash[i], 8);
      }
    }
  }

  /** So the verifier accepts a string exactly if it passes the checks on every pair and the hashes of
      its 2^K leaves cancel out. */
  lemma LeavesCancel(p: Equihash, soln: seq<byte>)
    requires p.Valid()
    ensures p.ValidSolution(soln) <==> p.PassesLevels(soln) && Cancel(p, p.IndicesOf(soln))
  {
    hide Equihash.TreeRow, Equihash.Valid, Cancel, Elements, IsZero;
    if p.PassesLevels(soln) { ZeroIsCancel(p, p.IndicesOf(soln)); }
  }

  lemma RowWidth(p: Equihash, ix: seq<nat>)
    requires p.Valid() && |ix| == Pow2(p.K) && p.TreeRow(ix, p.K).Some?
    ensures |p.TreeRow(ix, p.K).value.hash| == p.HashLen(p.K)
  {
    hide Equihash.Valid;
  }

  lemma LastWidth(p: Equihash)
    requires p.Valid()
    ensures Consumed(p, p.K) + p.HashLen(p.K) == p.HashLen(0)
  {
    TimesSum(p.K, 1, p.CollisionByteLength());
  }
}
