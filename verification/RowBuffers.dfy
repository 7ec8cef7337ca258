/** FullStepRow as it is laid out in memory: a fixed buffer holding len hash bytes, then the index
    list as four big-endian bytes each. Every buffer operation does what the row operation says. */
module RowBuffers {
  import opened Bits
  import opened Words
  import opened BitPacking
  import opened StepRows
  import opened CollisionRounds
  import opened EquihashTree
  import opened Wrappers

  // ---------- memcmp order is index order ----------

  lemma {:induction false} BeforeAppend(a: seq<nat>, b: seq<nat>, c: seq<nat>, d: seq<nat>)
    requires |a| == |b| && |c| == |d|
    ensures Before(a + c, b + d) <==> Before(a, b) || (a == b && Before(c, d))
  {
    if a == [] {
      assert a + c == c && b + d == d;
    } else {
      BeforeAppend(a[1..], b[1..], c, d);
      assert (a + c)[1..] == a[1..] + c && (b + d)[1..] == b[1..] + d;
      assert a == [a[0]] + a[1..] && b == [b[0]] + b[1..];
    }
  }

  lemma BeforeOne(x: nat, y: nat)
    ensures Before([x], [y]) <==> x < y
  {
    assert [x][1..] == [];
  }

  /** Big-endian digits compare as the numbers do. */
  lemma {:induction false} DigitsOrder(i: nat, j: nat, base: nat, n: nat)
    requires base > 0 && i < Power(base, n) && j < Power(base, n)
    ensures Before(Digits(i, base, n), Digits(j, base, n)) <==> i < j
    ensures Digits(i, base, n) == Digits(j, base, n) <==> i == j
    decreases n
  {
    ValueOfDigits(i, base, n);
    ValueOfDigits(j, base, n);
    if n > 0 {
      hide Digits, Value;
      var qi, qj, ri, rj := Quot(i, base), Quot(j, base), Rem(i, base), Rem(j, base);
      QuotBound(i, base, Power(base, n - 1));
      QuotBound(j, base, Power(base, n - 1));
      DigitsOrder(qi, qj, base, n - 1);
      DigitsSnoc(i, base, n);
      DigitsSnoc(j, base, n);
      BeforeAppend(Digits(qi, base, n - 1), Digits(qj, base, n - 1), [ri], [rj]);
      BeforeOne(ri, rj);
      QuotRem(i, base);
      QuotRem(j, base);
      QuotientOrder(i, j, base);
    }
  }

  lemma DigitsSnoc(i: nat, base: nat, n: nat)
    requires base > 0 && n > 0
    ensures Digits(i, base, n) == Digits(Quot(i, base), base, n - 1) + [Rem(i, base)]
  {}

  lemma QuotientOrder(i: nat, j: nat, base: nat)
    requires base > 0
    ensures i < j <==> Quot(i, base) < Quot(j, base) || (Quot(i, base) == Quot(j, base) && Rem(i, base) < Rem(j, base))
  {
    QuotRem(i, base);
    QuotRem(j, base);
    if Quot(i, base) < Quot(j, base) { MulMono(Quot(i, base) + 1, Quot(j, base), base); }
    if Quot(j, base) < Quot(i, base) { MulMono(Quot(j, base) + 1, Quot(i, base), base); }
  }

  predicate Index32(indices: seq<nat>) { forall k :: 0 <= k < |indices| ==> indices[k] < 0x1_0000_0000 }

  lemma IndexOrder(i: nat, j: nat)
    requires i < 0x1_0000_0000 && j < 0x1_0000_0000
    ensures Before(EhIndexToArray(i), EhIndexToArray(j)) <==> i < j
    ensures EhIndexToArray(i) == EhIndexToArray(j) <==> i == j
  {
    Pow2Values();
    PowerOfPow2(8, 4);
    DigitsOrder(i, j, 256, 4);
  }

  /** memcmp on two packed index lists is the lexicographic order of the lists. */
  lemma {:induction false} IndexBytesOrder(x: seq<nat>, y: seq<nat>)
    requires |x| == |y| && Index32(x) && Index32(y)
    ensures |IndexBytes(x)| == |IndexBytes(y)| == 4 * |x|
    ensures Before(IndexBytes(x), IndexBytes(y)) <==> Before(x, y)
    ensures IndexBytes(x) == IndexBytes(y) <==> x == y
  {
    hide EhIndexToArray, Before;
    IndexBytesLength(x);
    IndexBytesLength(y);
    if x != [] {
      var n := |x| - 1;
      IndexBytesOrder(x[..n], y[..n]);
      IndexOrder(x[n], y[n]);
      assert x == x[..n] + [x[n]] && y == y[..n] + [y[n]];
      BeforeAppend(IndexBytes(x[..n]), IndexBytes(y[..n]), EhIndexToArray(x[n]), EhIndexToArray(y[n]));
      BeforeAppend(x[..n], y[..n], [x[n]], [y[n]]);
      BeforeOne(x[n], y[n]);
      SameConcat(IndexBytes(x[..n]), IndexBytes(y[..n]), EhIndexToArray(x[n]), EhIndexToArray(y[n]));
    }
  }

  lemma SameConcat<T>(a: seq<T>, b: seq<T>, c: seq<T>, d: seq<T>)
    requires |a| == |b|
    ensures a + c == b + d <==> a == b && c == d
  {
    assert (a + c)[..|a|] == a && (b + d)[..|b|] == b;
    assert (a + c)[|a|..] == c && (b + d)[|b|..] == d;
  }

  lemma {:induction false} IndexBytesAppend(x: seq<nat>, y: seq<nat>)
    ensures IndexBytes(x + y) == IndexBytes(x) + IndexBytes(y)
    decreases |y|
  {
    hide EhIndexToArray;
    if y == [] {
      assert x + y == x && IndexBytes(x) + [] == IndexBytes(x);
    } else {
      var n := |y| - 1;
      IndexBytesAppend(x, y[..n]);
      assert (x + y)[..|x + y| - 1] == x + y[..n];
    }
  }

  lemma OneIndex(i: nat)
    ensures IndexBytes([i]) == EhIndexToArray(i)
  {
    assert [i][..0] == [] && IndexBytes([]) + EhIndexToArray(i) == EhIndexToArray(i);
  }

  lemma {:induction false} IndexBytesAt(x: seq<nat>, k: nat)
    requires k < |x|
    ensures |IndexBytes(x)| == 4 * |x| && IndexBytes(x)[4 * k..4 * k + 4] == EhIndexToArray(x[k])
  {
    IndexBytesLength(x);
    IndexBytesLength(x[..|x| - 1]);
    if k < |x| - 1 { IndexBytesAt(x[..|x| - 1], k); }
  }

  // ---------- the buffer ----------

  /** memcmp: negative, zero or positive. */
  method Memcmp(a: array<byte>, i: nat, b: array<byte>, j: nat, n: nat) returns (c: int)
    requires i + n <= a.Length && j + n <= b.Length
    ensures c < 0 <==> Before(a[i..i + n], b[j..j + n])
    ensures c == 0 <==> a[i..i + n] == b[j..j + n]
  {
    var k := 0;
    while k < n && a[i + k] == b[j + k]
      invariant 0 <= k <= n && a[i..i + k] == b[j..j + k]
    {
      assert a[i..i + k + 1] == a[i..i + k] + [a[i + k]] && b[j..j + k + 1] == b[j..j + k] + [b[j + k]];
      k := k + 1;
    }
    if k == n { BeforeTotal(a[i..i + n], b[j..j + n]); return 0; }
    assert a[i..i + n] == a[i..i + k] + a[i + k..i + n] && b[j..j + n] == b[j..j + k] + b[j + k..j + n];
    BeforeAppend(a[i..i + k], b[j..j + k], a[i + k..i + n], b[j + k..j + n]);
    BeforeTotal(a[i..i + k], b[j..j + k]);
    assert a[i..i + n][k] != b[j..j + n][k];
    var x: int, y: int := a[i + k], b[j + k];
    return x - y;
  }

  class FullStepRow {
    const hash: array<byte>

    /** The live part of the buffer is this row. */
    ghost predicate Holds(row: Row, len: nat)
      reads hash
    {
      && len == |row.hash| && Index32(row.indices) && len + 4 * |row.indices| <= hash.Length
      && hash[..len] == row.hash
      && hash[len..len + 4 * |row.indices|] == IndexBytes(row.indices)
    }

    /** FullStepRow(hashIn, hInLen, hLen, cBitLen, i) */
    constructor FromHash(width: nat, hashIn: seq<byte>, hLen: nat, cBitLen: nat, i: nat)
      requires 8 <= cBitLen <= 25 && i < 0x1_0000_0000 && 8 * |hashIn| % cBitLen == 0
      requires hLen == ExpandedLength(|hashIn|, cBitLen, 0) && hLen + 4 <= width
      ensures fresh(hash) && hash.Length == width
      ensures Holds(Row(Cells(Elements(hashIn, cBitLen), cBitLen, 0), [i]), hLen)
    {
      hide IndexBytes, EhIndexToArray, Cells;
      hash := new byte[width](_ => 0);
      new;
      ExpandArray(hashIn, hash, hLen, cBitLen, 0);
      ExpandFills(hashIn, cBitLen);
      var a := EhIndexToArray(i);
      hash[hLen], hash[hLen + 1], hash[hLen + 2], hash[hLen + 3] := a[0], a[1], a[2], a[3];
      assert hash[..hLen] == Cells(Elements(hashIn, cBitLen), cBitLen, 0);
      assert hash[hLen..hLen + 4] == a;
      OneIndex(i);
    }

    /** FullStepRow(a, b, len, lenIndices, trim): the parent of two rows. */
    constructor FromPair(width: nat, a: FullStepRow, b: FullStepRow, len: nat, lenIndices: nat, trim: nat, ghost ra: Row, ghost rb: Row)
      requires a.Holds(ra, len) && b.Holds(rb, len) && Alike(ra, rb) && lenIndices == 4 * |ra.indices|
      requires trim <= len && a.hash.Length <= width && len - trim + 2 * lenIndices <= width
      ensures fresh(hash) && hash.Length == width
      ensures Holds(Merge(ra, rb, trim), len - trim)
    {
      hide IndexBytes, XorByte, Before;
      hash := new byte[width](k requires 0 <= k < width reads a.hash => if k < a.hash.Length then a.hash[k] else 0);
      new;
      XorHashes(a, b, len, trim, ra, rb);
      ghost var x := hash[..len - trim];
      var before := a.IndicesBefore(b, len, lenIndices, ra, rb);
      if before {
        CopyIndices(a, b, len, lenIndices, len - trim, ra, rb);
      } else {
        CopyIndices(b, a, len, lenIndices, len - trim, rb, ra);
      }
      assert hash[..len - trim] == x;
    }

    /** std::copy(src + from, src + from + n, hash + at) */
    method CopyBytes(src: array<byte>, from: nat, n: nat, at: nat)
      requires from + n <= src.Length && at + n <= hash.Length && src != hash
      modifies hash
      ensures hash[..at] == old(hash[..at]) && hash[at..at + n] == src[from..from + n]
    {
      var k := 0;
      while k < n
        invariant 0 <= k <= n && hash[..at] == old(hash[..at])
        invariant hash[at..at + k] == src[from..from + k]
      {
        hash[at + k] := src[from + k];
        assert hash[at..at + k + 1] == hash[at..at + k] + [src[from + k]];
        k := k + 1;
      }
    }

    /** The two copies of a list pair into the buffer at position at. */
    method CopyIndices(x: FullStepRow, y: FullStepRow, len: nat, lenIndices: nat, at: nat, ghost rx: Row, ghost ry: Row)
      requires x.Holds(rx, len) && y.Holds(ry, len) && |rx.indices| == |ry.indices| && lenIndices == 4 * |rx.indices|
      requires at + 2 * lenIndices <= hash.Length && hash != x.hash && hash != y.hash
      modifies hash
      ensures hash[..at] == old(hash[..at])
      ensures hash[at..at + 4 * |rx.indices + ry.indices|] == IndexBytes(rx.indices + ry.indices)
    {
      hide IndexBytes;
      CopyBytes(x.hash, len, lenIndices, at);
      ghost var first := hash[..at + lenIndices];
      CopyBytes(y.hash, len, lenIndices, at + lenIndices);
      IndexBytesAppend(rx.indices, ry.indices);
      assert hash[..at] == first[..at] && hash[at..at + lenIndices] == first[at..];
      assert hash[at..at + 2 * lenIndices] == hash[at..at + lenIndices] + hash[at + lenIndices..at + lenIndices + lenIndices];
    }

    /** The exclusive or of two hashes from position trim on. */
    method XorHashes(a: FullStepRow, b: FullStepRow, len: nat, trim: nat, ghost ra: Row, ghost rb: Row)
      requires a.Holds(ra, len) && b.Holds(rb, len) && Alike(ra, rb) && trim <= len && len - trim <= hash.Length
      requires hash != a.hash && hash != b.hash
      modifies hash
      ensures hash[..len - trim] == Merge(ra, rb, trim).hash
    {
      hide IndexBytes, XorByte, Before;
      var i := trim;
      while i < len
        invariant trim <= i <= len
        invariant forall k :: 0 <= k < i - trim ==> hash[k] == XorByte(ra.hash[k + trim], rb.hash[k + trim])
      {
        assert a.hash[i] == ra.hash[i] && b.hash[i] == rb.hash[i];
        hash[i - trim] := XorByte(a.hash[i], b.hash[i]);
        i := i + 1;
      }
    }

    method IndicesBefore(b: FullStepRow, len: nat, lenIndices: nat, ghost ra: Row, ghost rb: Row) returns (r: bool)
      requires Holds(ra, len) && b.Holds(rb, len) && |ra.indices| == |rb.indices| && lenIndices == 4 * |ra.indices|
      ensures r == StepRows.IndicesBefore(ra, rb)
    {
      hide IndexBytes, Before, Index32;
      IndexBytesOrder(ra.indices, rb.indices);
      var c := Memcmp(hash, len, b.hash, len, lenIndices);
      r := c < 0;
    }

    method HasCollision(b: FullStepRow, l: nat, ghost ra: Row, ghost rb: Row, ghost len: nat) returns (r: bool)
      requires Holds(ra, len) && b.Holds(rb, len) && l <= len
      ensures r == StepRows.HasCollision(ra, rb, l)
    {
      var j := 0;
      while j < l
        invariant 0 <= j <= l && hash[..j] == b.hash[..j]
      {
        if hash[j] != b.hash[j] {
          assert ra.hash[..l][j] != rb.hash[..l][j];
          return false;
        }
        j := j + 1;
      }
      assert ra.hash[..l] == hash[..l] && rb.hash[..l] == b.hash[..l];
      return true;
    }

    method IsZero(len: nat, ghost ra: Row) returns (r: bool)
      requires Holds(ra, len)
      ensures r == StepRows.IsZero(ra)
    {
      var i := 0;
      while i < len
        invariant 0 <= i <= len && forall k :: 0 <= k < i ==> ra.hash[k] == 0
      {
        assert hash[i] == ra.hash[i];
        if hash[i] != 0 { return false; }
        i := i + 1;
      }
      return true;
    }

    method DistinctIndices(b: FullStepRow, len: nat, lenIndices: nat, ghost ra: Row, ghost rb: Row) returns (r: bool)
      requires Holds(ra, len) && b.Holds(rb, len) && |ra.indices| == |rb.indices| && lenIndices == 4 * |ra.indices|
      ensures r == StepRows.DistinctIndices(ra, rb)
    {
      ghost var k := 0;
      var i := 0;
      while i < lenIndices
        invariant i == 4 * k <= lenIndices
        invariant forall n, m :: 0 <= n < k && 0 <= m < |rb.indices| ==> ra.indices[n] != rb.indices[m]
      {
        var clear := NotAmong(b, i, len, lenIndices, k, ra, rb);
        if !clear { return false; }
        i := i + 4;
        k := k + 1;
      }
      return true;
    }

    /** The inner loop: index k of this row against all of b's. */
    method NotAmong(b: FullStepRow, i: nat, len: nat, lenIndices: nat, ghost k: nat, ghost ra: Row, ghost rb: Row) returns (r: bool)
      requires Holds(ra, len) && b.Holds(rb, len) && |ra.indices| == |rb.indices| && lenIndices == 4 * |ra.indices|
      requires i == 4 * k < lenIndices
      ensures r <==> forall m :: 0 <= m < |rb.indices| ==> ra.indices[k] != rb.indices[m]
    {
      hide IndexBytes, EhIndexToArray, Before;
      ghost var n := 0;
      var j := 0;
      while j < lenIndices
        invariant j == 4 * n <= lenIndices
        invariant forall m :: 0 <= m < n ==> ra.indices[k] != rb.indices[m]
      {
        IndexAt(ra, len, k);
        b.IndexAt(rb, len, n);
        IndexOrder(ra.indices[k], rb.indices[n]);
        var c := Memcmp(hash, len + i, b.hash, len + j, 4);
        if c == 0 { return false; }
        j := j + 4;
        n := n + 1;
      }
      return true;
    }

    lemma IndexAt(row: Row, len: nat, k: nat)
      requires Holds(row, len) && k < |row.indices|
      ensures hash[len + 4 * k..len + 4 * k + 4] == EhIndexToArray(row.indices[k])
    {
      IndexBytesAt(row.indices, k);
      assert hash[len + 4 * k..len + 4 * k + 4] == hash[len..len + 4 * |row.indices|][4 * k..4 * k + 4];
    }

    method IsValidBranch(len: nat, ilen: nat, t: nat, ghost row: Row) returns (r: bool)
      requires Holds(row, len) && row.indices != [] && ilen >= 8
      ensures r == CollisionRounds.IsValidBranch(row, ilen, t)
    {
      IndexAt(row, len, 0);
      IndexRoundTrip(row.indices[0], EhIndexToArray(row.indices[0]));
      r := TruncateIndex(ArrayToEhIndex(hash[len..len + 4]), ilen) == t;
    }

    method GetIndices(len: nat, lenIndices: nat, cBitLen: nat, ghost row: Row) returns (ret: seq<byte>)
      requires Holds(row, len) && lenIndices == 4 * |row.indices| && 8 <= cBitLen + 1 <= 25
      requires forall k :: 0 <= k < |row.indices| ==> row.indices[k] < Pow2(cBitLen + 1)
      ensures ret == Packed(row.indices, cBitLen + 1)
    {
      hide IndexBytes, CellValues, Cells, Packed, Pow2;
      var bitLen := cBitLen + 1;
      var bytePad := 4 - (bitLen + 7) / 8;
      IndexBytesAreCells(row.indices, bitLen);
      CellsHoldElements(row.indices, bitLen, bytePad);
      MinLength(bitLen, |row.indices|);
      var out := new byte[bitLen * lenIndices / 32](_ => 0);
      CompressArray(hash[len..len + lenIndices], out, bitLen, bytePad, |row.indices|);
      ret := out[..];
    }
  }

  lemma MinLength(bitLen: nat, n: nat)
    ensures bitLen * (4 * n) / 32 == bitLen * n / 8
  {
    assert bitLen * (4 * n) == 4 * (bitLen * n);
  }

  lemma ExpandFills(hashIn: seq<byte>, bitLen: nat)
    requires bitLen > 0 && 8 * |hashIn| % bitLen == 0
    ensures |Cells(Elements(hashIn, bitLen), bitLen, 0)| == ExpandedLength(|hashIn|, bitLen, 0)
  {
    hide Cells, Digits;
    var m, w := 8 * |hashIn| / bitLen, ElementBytes(bitLen);
    CellsLength(Elements(hashIn, bitLen), bitLen, 0);
    TimesProduct(m, w);
    WholeRoom(|hashIn|, w, m, bitLen);
  }

  lemma WholeRoom(n: nat, w: nat, m: nat, bitLen: nat)
    requires bitLen > 0 && 8 * n == m * bitLen
    ensures 8 * w * n / bitLen == w * m
  {
    assert 8 * w * n == w * (8 * n);
    Regroup(w, m, 0, bitLen, 0);
    QuotIsDiv(8 * w * n, bitLen);
    QuotRemUnique(8 * w * n, bitLen, w * m, 0);
  }

  // ---------- widths ----------

  function FullWidth(p: Equihash): nat
    requires p.K > 0
  {
    2 * p.CollisionByteLength() + 4 * Pow2(p.K - 1)
  }

  function FinalFullWidth(p: Equihash): nat { 2 * p.CollisionByteLength() + 4 * Pow2(p.K) }

  /** A row fits its buffer after every round, and the merge of two rows fits it too. */
  lemma {:induction false} WidthsSuffice(p: Equihash, r: nat)
    requires p.Valid() && r < p.K
    ensures p.HashLen(r) + 4 * Pow2(r) <= FullWidth(p)
    ensures p.HashLen(r + 1) + 4 * Pow2(r + 1) <= FinalFullWidth(p)
    decreases p.K - r
  {
    Doubling4(p, r);
    if r < p.K - 1 {
      WidthsSuffice(p, r + 1);
    }
  }

  lemma Doubling4(p: Equihash, r: nat)
    requires p.Valid() && r < p.K
    ensures p.HashLen(r) == p.HashLen(r + 1) + p.CollisionByteLength() && p.CollisionByteLength() <= 4
    ensures Pow2(r + 1) == 2 * Pow2(r)
    ensures p.HashLen(p.K - 1) == 2 * p.CollisionByteLength() && p.HashLen(p.K) == p.CollisionByteLength()
  {}
}
