/** ExpandArray and CompressArray: packing bitLen-bit elements into bytes and back through a
    32-bit accumulator, and the index lists packed with them. */
module BitPacking {
  import opened Bits
  import opened Words

  // ---------- what the two loops compute ----------

  /** m * w as a sum, which the solver handles better than the product. */
  function Times(m: nat, w: nat): nat
  {
    if m == 0 then 0 else Times(m - 1, w) + w
  }

  lemma {:induction false} TimesProduct(m: nat, w: nat)
    ensures Times(m, w) == w * m
  {
    if m > 0 {
      TimesProduct(m - 1, w);
      assert w * m == w * (m - 1) + w;
    }
  }

  /** Bytes that carry an element. */
  function ElementBytes(bitLen: nat): nat { (bitLen + 7) / 8 }

  /** One expanded element: bytePad zero bytes, then the element in big-endian order. */
  function Cell(e: nat, bitLen: nat, bytePad: nat): (c: seq<byte>)
    ensures |c| == ElementBytes(bitLen) + bytePad
  {
    seq(bytePad, _ => 0) + Digits(e, 256, ElementBytes(bitLen))
  }

  /** The length ExpandArray asks of its output buffer. */
  function ExpandedLength(n: nat, bitLen: nat, bytePad: nat): nat
    requires bitLen > 0
  {
    8 * (ElementBytes(bitLen) + bytePad) * n / bitLen
  }

  function Cells(elems: seq<nat>, bitLen: nat, bytePad: nat): seq<byte>
  {
    if elems == [] then []
    else Cells(elems[..|elems| - 1], bitLen, bytePad) + Cell(elems[|elems| - 1], bitLen, bytePad)
  }

  /** The bytes of a cell below its padding, with the bits above bitLen masked off. */
  function Masked(c: seq<byte>, bitLen: nat, bytePad: nat): (d: seq<byte>)
    requires |c| == ElementBytes(bitLen) + bytePad && bitLen > 0
    ensures |d| == ElementBytes(bitLen)
  {
    var d := c[bytePad..];
    LowByte(d[0], bitLen - 8 * (|d| - 1));
    d[0 := Low(d[0], bitLen - 8 * (|d| - 1))]
  }

  lemma LowByte(b: byte, s: nat)
    ensures Low(b, s) <= b
  {
    QuotRem(b, Pow2(s));
  }

  function CellValue(c: seq<byte>, bitLen: nat, bytePad: nat): nat
    requires |c| == ElementBytes(bitLen) + bytePad && bitLen > 0
  {
    Value(Masked(c, bitLen, bytePad), 256)
  }

  /** The values of the m cells of a buffer. */
  function CellValues(cells: seq<byte>, m: nat, bitLen: nat, bytePad: nat): (e: seq<nat>)
    requires bitLen > 0 && |cells| == Times(m, ElementBytes(bitLen) + bytePad)
    ensures |e| == m
  {
    if m == 0 then []
    else
      var last := |cells| - ElementBytes(bitLen) - bytePad;
      CellValues(cells[..last], m - 1, bitLen, bytePad) + [CellValue(cells[last..], bitLen, bytePad)]
  }

  /** The whole elements at the front of a bit string. */
  function Elements(bytes: seq<byte>, bitLen: nat): (e: seq<nat>)
    requires bitLen > 0
    ensures |e| == 8 * |bytes| / bitLen && forall i :: 0 <= i < |e| ==> e[i] < Pow2(bitLen)
  {
    Digits(Shr(Value(bytes, 256), 8 * |bytes| % bitLen), Pow2(bitLen), 8 * |bytes| / bitLen)
  }

  /** The whole bytes at the front of a list of elements. */
  function Packed(elems: seq<nat>, bitLen: nat): (b: seq<byte>)
    ensures |b| == bitLen * |elems| / 8
  {
    Digits(Shr(Value(elems, Pow2(bitLen)), bitLen * |elems| % 8), 256, bitLen * |elems| / 8)
  }

  // ---------- one byte of an element ----------

  lemma {:induction false} DigitAt(e: nat, n: nat, p: nat)
    requires p < n
    ensures Digits(e, 256, n)[p] == Low(Shr(e, 8 * (n - 1 - p)), 8)
    decreases n
  {
    Pow2Values();
    if p == n - 1 {
      QuotRemUnique(e, 1, e, 0);
    } else {
      DigitAt(Quot(e, 256), n - 1, p);
      SplitLow(e, 8, 8 * (n - 2 - p));
    }
  }

  /** The byte ExpandArray writes, k bytes from the right of an element. */
  lemma ExpandedByte(acc: nat, accBits: nat, bitLen: nat, k: nat)
    requires 8 * k < bitLen
    ensures BitAnd(Shr(acc, accBits + 8 * k), BitAnd(Shr(Pow2(bitLen) - 1, 8 * k), 0xFF))
         == Low(Shr(Low(Shr(acc, accBits), bitLen), 8 * k), 8)
  {
    hide Pow2, BitAnd;
    var s := bitLen - 8 * k;
    MaskByte(bitLen, k);
    AndMask(Shr(acc, accBits + 8 * k), Min(s, 8));
    SplitLow(acc, accBits, 8 * k);
    SplitLow(Shr(acc, accBits), 8 * k, s);
    var x := Shr(acc, accBits + 8 * k);
    if s >= 8 { LowLow(x, 8, s); } else { Pow2Mono(s, 8); LowSmall(Low(x, s), 8); }
  }

  // ---------- ExpandArray ----------

  /** The bits read so far are the elements written so far and the live bits of the accumulator. */
  ghost predicate Streamed(read: nat, written: nat, acc: nat, accBits: nat)
  {
    read == written * Pow2(accBits) + Low(acc, accBits)
  }

  lemma ReadByte(read: nat, written: nat, acc: nat, accBits: nat, b: byte)
    requires Streamed(read, written, acc, accBits) && accBits + 8 <= 32
    ensures Streamed(read * 256 + b, written, BitOr(Shl32(acc, 8), b), accBits + 8)
  {
    Pow2Values();
    ShiftIn(acc, accBits, 8, b);
    Pow2Add(accBits, 8);
    Regroup(written, Pow2(accBits), Low(acc, accBits), 256, b);
  }

  lemma WriteElement(read: nat, written: nat, acc: nat, accBits: nat, bitLen: nat)
    requires Streamed(read, written, acc, accBits) && accBits >= bitLen
    ensures Streamed(read, written * Pow2(bitLen) + Low(Shr(acc, accBits - bitLen), bitLen), acc, accBits - bitLen)
  {
    var a := accBits - bitLen;
    SplitLow(acc, a, bitLen);
    Pow2Add(bitLen, a);
    Regroup(written, Pow2(bitLen), Low(Shr(acc, a), bitLen), Pow2(a), Low(acc, a));
  }

  /** What is written is the front of what was read. */
  lemma StreamedFront(read: nat, written: nat, acc: nat, accBits: nat)
    requires Streamed(read, written, acc, accBits)
    ensures Shr(read, accBits) == written
  {
    QuotRemUnique(read, Pow2(accBits), written, Low(acc, accBits));
  }

  lemma QuotAtLeast(v: nat, base: nat, q: nat)
    requires base > 0 && q * base <= v
    ensures q <= Quot(v, base)
  {
    QuotRem(v, base);
    if Quot(v, base) + 1 <= q { MulMono(Quot(v, base) + 1, q, base); }
  }

  /** Positions: m elements of w bytes fit where 8 * w * n / bitLen bytes are reserved. */
  lemma RoomForElements(n: nat, bitLen: nat, w: nat, m: nat)
    requires bitLen > 0 && bitLen * m <= 8 * n
    ensures w * m <= 8 * w * n / bitLen
  {
    var total := 8 * w * n;
    assert (w * m) * bitLen <= total by {
      MulMono(bitLen * m, 8 * n, w);
      assert (bitLen * m) * w == (w * m) * bitLen;
      assert (8 * n) * w == total;
    }
    QuotAtLeast(total, bitLen, w * m);
    QuotIsDiv(total, bitLen);
  }

  lemma CellsSnoc(elems: seq<nat>, e: nat, bitLen: nat, bytePad: nat)
    ensures Cells(elems + [e], bitLen, bytePad) == Cells(elems, bitLen, bytePad) + Cell(e, bitLen, bytePad)
  {
    assert (elems + [e])[..|elems|] == elems;
  }

  lemma {:induction false} CellsLength(elems: seq<nat>, bitLen: nat, bytePad: nat)
    ensures |Cells(elems, bitLen, bytePad)| == Times(|elems|, ElementBytes(bitLen) + bytePad)
  {
    if elems != [] { CellsLength(elems[..|elems| - 1], bitLen, bytePad); }
  }

  /** Writes one element: the two inner loops of ExpandArray. */
  method WriteCell(out: array<byte>, j: nat, acc: nat, accBits: nat, bitLen: nat, bytePad: nat)
    requires 8 <= bitLen && j + ElementBytes(bitLen) + bytePad <= out.Length
    modifies out
    ensures out[..j] == old(out[..j])
    ensures var j' := j + ElementBytes(bitLen) + bytePad;
            out[..j'] == out[..j] + Cell(Low(Shr(acc, accBits), bitLen), bitLen, bytePad) && out[j'..] == old(out[j'..])
  {
    hide Digits, Low, Shr, Pow2, BitAnd, Quot, Rem;
    var outWidth := ElementBytes(bitLen) + bytePad;
    var mask := Pow2(bitLen) - 1;
    ghost var e := Low(Shr(acc, accBits), bitLen);
    ghost var cell := Cell(e, bitLen, bytePad);
    var x := 0;
    while x < bytePad
      invariant 0 <= x <= bytePad
      invariant forall k :: 0 <= k < x ==> out[j + k] == cell[k]
      invariant forall k :: 0 <= k < j || j + x <= k < out.Length ==> out[k] == old(out[k])
    {
      out[j + x] := 0;
      x := x + 1;
    }
    x := bytePad;
    while x < outWidth
      invariant bytePad <= x <= outWidth
      invariant forall k :: 0 <= k < x ==> out[j + k] == cell[k]
      invariant forall k :: 0 <= k < j || j + x <= k < out.Length ==> out[k] == old(out[k])
    {
      var k := outWidth - x - 1;
      ExpandedByte(acc, accBits, bitLen, k);
      DigitAt(e, ElementBytes(bitLen), x - bytePad);
      Pow2Values();
      out[j + x] := BitAnd(Shr(acc, accBits + 8 * k), BitAnd(Shr(mask, 8 * k), 0xFF));
      x := x + 1;
    }
    assert out[j..j + outWidth] == cell;
    assert out[..j + outWidth] == out[..j] + out[j..j + outWidth];
  }

  lemma WholeElements(n: nat, bitLen: nat, m: nat, accBits: nat)
    requires accBits < bitLen && 8 * n == bitLen * m + accBits
    ensures 8 * n / bitLen == m && 8 * n % bitLen == accBits
  {
    QuotIsDiv(8 * n, bitLen);
    QuotRemUnique(8 * n, bitLen, m, accBits);
  }

  lemma SliceSnoc<T>(s: seq<T>, i: nat)
    requires i < |s|
    ensures s[..i + 1] == s[..i] + [s[i]]
  {}

  lemma SplitAt<T>(s: seq<T>, c: nat)
    requires c <= |s|
    ensures s == s[..c] + s[c..]
  {}

  /** Between bytes: the elements so far and the live bits are the bits read. */
  ghost predicate Expanding(read: seq<byte>, elems: seq<nat>, acc: nat, accBits: nat, bitLen: nat)
  {
    && 8 * |read| == Times(|elems|, bitLen) + accBits
    && (forall k :: 0 <= k < |elems| ==> elems[k] < Pow2(bitLen))
    && Streamed(Value(read, 256), Value(elems, Pow2(bitLen)), acc, accBits)
  }

  lemma ExpandStart(bitLen: nat, bytePad: nat)
    ensures Expanding([], [], 0, 0, bitLen) && Cells([], bitLen, bytePad) == []
  {}

  lemma ExpandRead(read: seq<byte>, elems: seq<nat>, acc: nat, accBits: nat, bitLen: nat, b: byte)
    requires Expanding(read, elems, acc, accBits, bitLen) && accBits + 8 <= 32
    ensures Expanding(read + [b], elems, BitOr(Shl32(acc, 8), b), accBits + 8, bitLen)
  {
    ReadByte(Value(read, 256), Value(elems, Pow2(bitLen)), acc, accBits, b);
    ValueSnoc(read, b, 256);
  }

  lemma ExpandWrite(read: seq<byte>, elems: seq<nat>, acc: nat, accBits: nat, bitLen: nat)
    requires Expanding(read, elems, acc, accBits, bitLen) && accBits >= bitLen
    ensures var e := Low(Shr(acc, accBits - bitLen), bitLen);
            Expanding(read, elems + [e], acc, accBits - bitLen, bitLen)
  {
    var e := Low(Shr(acc, accBits - bitLen), bitLen);
    WriteElement(Value(read, 256), Value(elems, Pow2(bitLen)), acc, accBits, bitLen);
    ValueSnoc(elems, e, Pow2(bitLen));
  }

  lemma ExpandDone(read: seq<byte>, elems: seq<nat>, acc: nat, accBits: nat, bitLen: nat)
    requires Expanding(read, elems, acc, accBits, bitLen) && accBits < bitLen
    ensures elems == Elements(read, bitLen)
  {
    StreamedFront(Value(read, 256), Value(elems, Pow2(bitLen)), acc, accBits);
    TimesProduct(|elems|, bitLen);
    WholeElements(|read|, bitLen, |elems|, accBits);
    DigitsOfValue(elems, Pow2(bitLen));
  }

  lemma RoomForCell(n: nat, read: seq<byte>, elems: seq<nat>, acc: nat, accBits: nat, bitLen: nat, bytePad: nat)
    requires bitLen > 0 && |read| <= n && Expanding(read, elems, acc, accBits, bitLen) && accBits >= bitLen
    ensures |Cells(elems, bitLen, bytePad)| + ElementBytes(bitLen) + bytePad
         <= ExpandedLength(n, bitLen, bytePad)
  {
    var w, m := ElementBytes(bitLen) + bytePad, |elems|;
    TimesProduct(m + 1, bitLen);
    RoomForElements(n, bitLen, w, m + 1);
    CellsLength(elems, bitLen, bytePad);
    TimesProduct(m + 1, w);
  }

  method ExpandArray(input: seq<byte>, out: array<byte>, outLen: nat, bitLen: nat, bytePad: nat)
    requires 8 <= bitLen && 32 >= 7 + bitLen
    requires outLen == ExpandedLength(|input|, bitLen, bytePad) && outLen <= out.Length
    modifies out
    ensures var cells := Cells(Elements(input, bitLen), bitLen, bytePad);
            |cells| <= outLen && out[..|cells|] == cells && out[|cells|..] == old(out[|cells|..])
  {
    hide Value, Cells, Expanding;
    var outWidth := ElementBytes(bitLen) + bytePad;
    var accBits: nat, acc: nat, j: nat := 0, 0, 0;
    ghost var elems: seq<nat> := [];
    ExpandStart(bitLen, bytePad);
    assert input[..0] == [];
    var i := 0;
    while i < |input|
      invariant 0 <= i <= |input| && accBits < bitLen
      invariant Expanding(input[..i], elems, acc, accBits, bitLen)
      invariant j == |Cells(elems, bitLen, bytePad)| <= outLen
      invariant out[..j] == Cells(elems, bitLen, bytePad)
      invariant out[j..] == old(out[j..])
    {
      SliceSnoc(input, i);
      ExpandRead(input[..i], elems, acc, accBits, bitLen, input[i]);
      acc := BitOr(Shl32(acc, 8), input[i]);
      accBits := accBits + 8;
      if accBits >= bitLen {
        ExpandWrite(input[..i + 1], elems, acc, accBits, bitLen);
        RoomForCell(|input|, input[..i + 1], elems, acc, accBits, bitLen, bytePad);
        accBits := accBits - bitLen;
        WriteCell(out, j, acc, accBits, bitLen, bytePad);
        ghost var e := Low(Shr(acc, accBits), bitLen);
        CellsSnoc(elems, e, bitLen, bytePad);
        elems := elems + [e];
        j := j + outWidth;
      }
      i := i + 1;
    }
    assert input[..i] == input;
    ExpandDone(input, elems, acc, accBits, bitLen);
  }

  // ---------- CompressArray ----------

  /** The byte mask CompressArray applies, k bytes from the right of an element. */
  lemma MaskedByte(b: byte, bitLen: nat, k: nat)
    requires 8 * k < bitLen
    ensures BitAnd(b, BitAnd(Shr(Pow2(bitLen) - 1, 8 * k), 0xFF)) == Low(b, Min(bitLen - 8 * k, 8))
  {
    MaskByte(bitLen, k);
    AndMask(b, Min(bitLen - 8 * k, 8));
  }

  /** An OR of a byte into the free bits just above position 8k. */
  lemma OrByte(q: nat, u: nat, k: nat, piece: nat)
    requires piece < Pow2(u)
    ensures BitOr(q * Pow2(u + 8 * k), piece * Pow2(8 * k)) == (q * Pow2(u) + piece) * Pow2(8 * k)
  {
    Pow2Add(u, 8 * k);
    TwoDigitBound(piece, 0, Pow2(u), Pow2(8 * k));
    OrDisjoint(q, u + 8 * k, piece * Pow2(8 * k));
    Regroup(q, Pow2(u), piece, Pow2(8 * k), 0);
  }

  /** The first byte of an element: only bitLen - 8k bits of it are used. */
  lemma OrTopByte(top: nat, bitLen: nat, k: nat, piece: nat)
    requires 8 * k < bitLen && piece < Pow2(bitLen - 8 * k)
    ensures BitOr(top * Pow2(bitLen), piece * Pow2(8 * k)) == top * Pow2(bitLen) + piece * Pow2(8 * k)
  {
    OrByte(top, bitLen - 8 * k, k, piece);
    Pow2Add(bitLen - 8 * k, 8 * k);
    Regroup(top, Pow2(bitLen - 8 * k), piece, Pow2(8 * k), 0);
  }

  /** A later byte of an element. */
  lemma OrNextByte(top: nat, sofar: nat, bitLen: nat, k: nat, piece: nat)
    requires bitLen >= 8 * (k + 1) && piece < 256
    ensures BitOr(top * Pow2(bitLen) + sofar * Pow2(8 * (k + 1)), piece * Pow2(8 * k))
         == top * Pow2(bitLen) + (sofar * 256 + piece) * Pow2(8 * k)
  {
    hide Pow2, BitOr;
    var rest := bitLen - 8 * (k + 1);
    Pow2Values();
    Pow2Add(rest, 8 * (k + 1));
    Pow2Add(rest + 8, 8 * k);
    Pow2Add(rest, 8);
    Pow2Add(8, 8 * k);
    var q := top * Pow2(rest) + sofar;
    Regroup(top, Pow2(rest), sofar, Pow2(8 * (k + 1)), 0);
    OrByte(q, 8, k, piece);
    Regroup(top, Pow2(rest), sofar, 256, piece);
    Regroup(top, Pow2(rest + 8), sofar * 256 + piece, Pow2(8 * k), 0);
  }

  /** The accumulator with k bytes of an element still to come. */
  ghost function Loading(top: nat, bitLen: nat, sofar: nat, k: nat): nat
  {
    top * Pow2(bitLen) + sofar * Pow2(8 * k)
  }

  /** Reads one element into the accumulator: the inner loop of CompressArray. */
  method ReadCell(input: seq<byte>, j: nat, shifted: nat, ghost top: nat, bitLen: nat, bytePad: nat)
    returns (acc: nat)
    requires 8 <= bitLen <= 25 && j + ElementBytes(bitLen) + bytePad <= |input|
    requires shifted == top * Pow2(bitLen)
    ensures acc == top * Pow2(bitLen)
                   + CellValue(input[j..j + ElementBytes(bitLen) + bytePad], bitLen, bytePad)
  {
    hide Value, Low, Shr, BitAnd, BitOr, Masked, Loading, Shl32;
    var inWidth := ElementBytes(bitLen) + bytePad;
    var mask := Pow2(bitLen) - 1;
    ghost var d := Masked(input[j..j + inWidth], bitLen, bytePad);
    acc := shifted;
    LoadingEnds(top, bitLen, d, ElementBytes(bitLen));
    var x := bytePad;
    while x < inWidth
      invariant bytePad <= x <= inWidth
      invariant acc == Loading(top, bitLen, Value(d[..x - bytePad], 256), inWidth - x)
    {
      var k := inWidth - x - 1;
      MaskedByte(input[j + x], bitLen, k);
      var piece := BitAnd(input[j + x], BitAnd(Shr(mask, 8 * k), 0xFF));
      CellByte(input[j..j + inWidth], bitLen, bytePad, x - bytePad, piece);
      OrCellByte(top, d, x - bytePad, bitLen, k, piece);
      acc := BitOr(acc, Shl32(piece, 8 * k));
      x := x + 1;
    }
    assert d[..inWidth - bytePad] == d;
    LoadingEnds(top, bitLen, d, 0);
  }

  lemma LoadingEnds(top: nat, bitLen: nat, d: seq<byte>, k: nat)
    ensures Loading(top, bitLen, Value(d[..0], 256), k) == top * Pow2(bitLen)
    ensures Loading(top, bitLen, Value(d, 256), 0) == top * Pow2(bitLen) + Value(d, 256)
  {}

  lemma CellByte(c: seq<byte>, bitLen: nat, bytePad: nat, p: nat, piece: nat)
    requires bitLen > 0 && |c| == ElementBytes(bitLen) + bytePad && p < ElementBytes(bitLen)
    requires piece == Low(c[bytePad + p], Min(bitLen - 8 * (ElementBytes(bitLen) - 1 - p), 8))
    ensures Masked(c, bitLen, bytePad)[p] == piece
  {
    Pow2Values();
    if p > 0 { LowSmall(c[bytePad + p], 8); }
  }

  lemma ValueOfPrefix(d: seq<byte>, p: nat)
    requires p < |d|
    ensures Value(d[..p + 1], 256) == Value(d[..p], 256) * 256 + d[p]
    ensures Value(d[..0], 256) == 0
  {
    assert d[..p + 1] == d[..p] + [d[p]];
    ValueSnoc(d[..p], d[p], 256);
  }

  lemma OrCellByte(top: nat, d: seq<byte>, p: nat, bitLen: nat, k: nat, piece: nat)
    requires bitLen <= 25 && p < |d| == ElementBytes(bitLen) && k == |d| - 1 - p && d[p] == piece
    requires p == 0 ==> piece < Pow2(bitLen - 8 * k)
    ensures BitOr(Loading(top, bitLen, Value(d[..p], 256), k + 1), Shl32(piece, 8 * k))
         == Loading(top, bitLen, Value(d[..p + 1], 256), k)
  {
    hide Value, Shl32, BitOr, Pow2;
    ValueOfPrefix(d, p);
    PieceFits(piece, bitLen, k, p == 0);
    if p == 0 {
      OrTopByte(top, bitLen, k, piece);
    } else {
      OrNextByte(top, Value(d[..p], 256), bitLen, k, piece);
    }
  }

  lemma PieceFits(piece: nat, bitLen: nat, k: nat, first: bool)
    requires 8 * k < bitLen <= 25 && (first ==> piece < Pow2(bitLen - 8 * k))
    requires !first ==> piece < 256 && 8 * (k + 1) <= bitLen
    ensures Shl32(piece, 8 * k) == piece * Pow2(8 * k)
  {
    hide Low;
    var u := if first then bitLen - 8 * k else 8;
    Pow2Values();
    hide Pow2;
    Pow2Add(u, 8 * k);
    TwoDigitBound(piece, 0, Pow2(u), Pow2(8 * k));
    Pow2Mono(u + 8 * k, 32);
    LowSmall(piece * Pow2(8 * k), 32);
  }

  /** Between bytes: the bytes so far and the live bits are the elements read. */
  ghost predicate Compressing(elems: seq<nat>, written: seq<byte>, acc: nat, accBits: nat, bitLen: nat)
  {
    && Times(|elems|, bitLen) == 8 * |written| + accBits
    && Streamed(Value(elems, Pow2(bitLen)), Value(written, 256), acc, accBits)
  }

  lemma CompressStart(bitLen: nat, bytePad: nat)
    requires bitLen > 0
    ensures Compressing([], [], 0, 0, bitLen) && CellValues([], 0, bitLen, bytePad) == []
  {}

  lemma CompressRead(elems: seq<nat>, written: seq<byte>, acc: nat, accBits: nat, bitLen: nat, e: nat, acc': nat)
    requires Compressing(elems, written, acc, accBits, bitLen)
    requires accBits < 8 && bitLen <= 25 && e < Pow2(bitLen) && acc' == Low(acc, 32 - bitLen) * Pow2(bitLen) + e
    ensures Compressing(elems + [e], written, acc', accBits + bitLen, bitLen)
  {
    hide Value, Low, Pow2;
    ValueSnoc(elems, e, Pow2(bitLen));
    LowOfSum(Low(acc, 32 - bitLen), bitLen, e, accBits);
    LowLow(acc, accBits, 32 - bitLen);
    Pow2Add(accBits, bitLen);
    Regroup(Value(written, 256), Pow2(accBits), Low(acc, accBits), Pow2(bitLen), e);
  }

  lemma CompressWrite(elems: seq<nat>, written: seq<byte>, acc: nat, accBits: nat, bitLen: nat)
    requires Compressing(elems, written, acc, accBits, bitLen) && accBits >= 8
    ensures var b := Low(Shr(acc, accBits - 8), 8);
            b < 256 && Compressing(elems, written + [b], acc, accBits - 8, bitLen)
  {
    Pow2Values();
    var b := Low(Shr(acc, accBits - 8), 8);
    WriteElement(Value(elems, Pow2(bitLen)), Value(written, 256), acc, accBits, 8);
    ValueSnoc(written, b, 256);
  }

  lemma CompressDone(elems: seq<nat>, written: seq<byte>, acc: nat, accBits: nat, bitLen: nat)
    requires Compressing(elems, written, acc, accBits, bitLen) && accBits < 8
    ensures written == Packed(elems, bitLen)
  {
    StreamedFront(Value(elems, Pow2(bitLen)), Value(written, 256), acc, accBits);
    TimesProduct(|elems|, bitLen);
    DigitsOfValue(written, 256);
  }

  lemma {:induction false} CellValuesSnoc(cells: seq<byte>, c: seq<byte>, m: nat, bitLen: nat, bytePad: nat)
    requires bitLen > 0 && |cells| == Times(m, ElementBytes(bitLen) + bytePad)
    requires |c| == ElementBytes(bitLen) + bytePad
    ensures CellValues(cells + c, m + 1, bitLen, bytePad)
         == CellValues(cells, m, bitLen, bytePad) + [CellValue(c, bitLen, bytePad)]
  {
    assert (cells + c)[..|cells|] == cells && (cells + c)[|cells|..] == c;
  }

  lemma CellValueBound(c: seq<byte>, bitLen: nat, bytePad: nat)
    requires bitLen > 0 && |c| == ElementBytes(bitLen) + bytePad
    ensures CellValue(c, bitLen, bytePad) < Pow2(bitLen)
  {
    var d := Masked(c, bitLen, bytePad);
    var n := |d| - 1;
    TopDigitBound(d, bitLen - 8 * n);
  }

  /** A digit string whose first byte is below 2^s. */
  lemma {:induction false} TopDigitBound(d: seq<byte>, s: nat)
    requires d != [] && d[0] < Pow2(s)
    ensures Value(d, 256) < Pow2(s + 8 * (|d| - 1))
  {
    var n := |d| - 1;
    if n == 0 {
      assert d == [] + [d[0]];
      ValueSnoc([], d[0], 256);
    } else {
      TopDigitBound(d[..n], s);
      Pow2Values();
      Pow2Add(s + 8 * (n - 1), 8);
      TwoDigitBound(Value(d[..n], 256), d[n], Pow2(s + 8 * (n - 1)), 256);
    }
  }

  /** Another byte is due, so another element is there to read. */
  lemma ElementDue(m: nat, n: nat, bitLen: nat, accBits: nat, i: nat, outLen: nat)
    requires bitLen >= 8 && accBits < 8 && i < outLen && outLen == bitLen * m / 8
    requires Times(n, bitLen) == 8 * i + accBits
    ensures n < m
  {
    if n >= m {
      TimesMono(m, n, bitLen);
      TimesProduct(m, bitLen);
    }
  }

  lemma {:induction false} TimesMono(m: nat, n: nat, w: nat)
    requires m <= n
    ensures Times(m, w) <= Times(n, w)
    decreases n
  {
    if m < n { TimesMono(m, n - 1, w); }
  }

  /** When every byte is written, every element has been read. */
  lemma AllRead(m: nat, n: nat, bitLen: nat, accBits: nat, outLen: nat)
    requires bitLen >= 8 && accBits < bitLen && outLen == bitLen * m / 8
    requires Times(n, bitLen) == 8 * outLen + accBits
    ensures n == m && accBits < 8
  {
    TimesProduct(m, bitLen);
    if n < m { TimesMono(n + 1, m, bitLen); }
    if n > m { TimesMono(m + 1, n, bitLen); }
  }

  /** The next element is read into the accumulator. */
  method ReadElement(input: seq<byte>, j: nat, acc0: nat, accBits: nat, bitLen: nat, bytePad: nat, ghost m: nat, ghost n: nat, ghost written: seq<byte>)
    returns (acc: nat)
    requires 8 <= bitLen <= 25 && accBits < 8 && |input| == Times(m, ElementBytes(bitLen) + bytePad)
    requires n < m && j == Times(n, ElementBytes(bitLen) + bytePad) <= |input|
    requires Compressing(CellValues(input[..j], n, bitLen, bytePad), written, acc0, accBits, bitLen)
    ensures var j' := j + ElementBytes(bitLen) + bytePad;
            j' == Times(n + 1, ElementBytes(bitLen) + bytePad) <= |input|
            && Compressing(CellValues(input[..j'], n + 1, bitLen, bytePad), written, acc, accBits + bitLen, bitLen)
  {
    hide Value, CellValues, Compressing, BitAnd, Shr, Low, Pow2, BitOr, Shl32, Masked, Quot, Rem;
    var inWidth := ElementBytes(bitLen) + bytePad;
    TimesMono(n + 1, m, inWidth);
    ghost var c := input[j..j + inWidth];
    CellValueBound(c, bitLen, bytePad);
    CellValuesSnoc(input[..j], c, n, bitLen, bytePad);
    assert input[..j + inWidth] == input[..j] + c;
    ShlMultiple(acc0, bitLen);
    acc := ReadCell(input, j, Shl32(acc0, bitLen), Low(acc0, 32 - bitLen), bitLen, bytePad);
    CompressRead(CellValues(input[..j], n, bitLen, bytePad), written, acc0, accBits, bitLen, CellValue(c, bitLen, bytePad), acc);
  }

  method CompressArray(input: seq<byte>, out: array<byte>, bitLen: nat, bytePad: nat, ghost m: nat)
    requires 8 <= bitLen && 32 >= 7 + bitLen
    requires |input| == Times(m, ElementBytes(bitLen) + bytePad)
    requires out.Length == bitLen * m / 8
    modifies out
    ensures out[..] == Packed(CellValues(input, m, bitLen, bytePad), bitLen)
  {
    hide Value, CellValues, Compressing, Packed, BitAnd, Shr, Low, Pow2, BitOr, Shl32, Masked, Quot, Rem;
    var inWidth := ElementBytes(bitLen) + bytePad;
    var accBits: nat, acc: nat, j: nat := 0, 0, 0;
    ghost var n := 0;
    CompressStart(bitLen, bytePad);
    assert input[..0] == [] && out[..0] == [];
    var i := 0;
    while i < out.Length
      invariant 0 <= i <= out.Length && accBits < bitLen
      invariant j == Times(n, inWidth) && n <= m && j <= |input|
      invariant Compressing(CellValues(input[..j], n, bitLen, bytePad), out[..i], acc, accBits, bitLen)
    {
      if accBits < 8 {
        CompressCount(CellValues(input[..j], n, bitLen, bytePad), out[..i], acc, accBits, bitLen);
        ElementDue(m, n, bitLen, accBits, i, out.Length);
        acc := ReadElement(input, j, acc, accBits, bitLen, bytePad, m, n, out[..i]);
        j := j + inWidth;
        n := n + 1;
        accBits := accBits + bitLen;
      }
      CompressWrite(CellValues(input[..j], n, bitLen, bytePad), out[..i], acc, accBits, bitLen);
      accBits := accBits - 8;
      AndByte(acc, accBits);
      out[i] := BitAnd(Shr(acc, accBits), 0xFF);
      SliceSnoc(out[..], i);
      i := i + 1;
    }
    CompressCount(CellValues(input[..j], n, bitLen, bytePad), out[..i], acc, accBits, bitLen);
    AllRead(m, n, bitLen, accBits, out.Length);
    assert input[..j] == input && out[..i] == out[..];
    CompressDone(CellValues(input, m, bitLen, bytePad), out[..], acc, accBits, bitLen);
  }

  lemma CompressCount(elems: seq<nat>, written: seq<byte>, acc: nat, accBits: nat, bitLen: nat)
    requires Compressing(elems, written, acc, accBits, bitLen)
    ensures Times(|elems|, bitLen) == 8 * |written| + accBits
  {}

  lemma AndByte(acc: nat, accBits: nat)
    ensures BitAnd(Shr(acc, accBits), 0xFF) == Low(Shr(acc, accBits), 8) < 256
  {
    Pow2Values();
    AndMask(Shr(acc, accBits), 8);
  }

  // ---------- the two are inverses on whole elements ----------

  lemma SameRoom(n: nat, m: nat, bitLen: nat)
    requires 8 * n == bitLen * m
    ensures Power(256, n) == Power(Pow2(bitLen), m)
  {
    Pow2Values();
    PowerOfPow2(8, n);
    PowerOfPow2(bitLen, m);
  }

  /** Packing the elements of a byte string that holds whole elements gives the string back. */
  lemma ExpandThenCompress(bytes: seq<byte>, bitLen: nat)
    requires bitLen > 0 && 8 * |bytes| % bitLen == 0
    ensures Packed(Elements(bytes, bitLen), bitLen) == bytes
  {
    var n, m, v := |bytes|, 8 * |bytes| / bitLen, Value(bytes, 256);
    assert bitLen * m == 8 * n;
    ShrZero(v);
    SameRoom(n, m, bitLen);
    ValueBound(bytes, 256);
    ValueOfDigits(v, Pow2(bitLen), m);
    DigitsOfValue(bytes, 256);
  }

  /** Unpacking packed elements gives the elements back, when they fill whole bytes. */
  lemma CompressThenExpand(elems: seq<nat>, bitLen: nat)
    requires bitLen > 0 && bitLen * |elems| % 8 == 0
    requires forall i :: 0 <= i < |elems| ==> elems[i] < Pow2(bitLen)
    ensures Elements(Packed(elems, bitLen), bitLen) == elems
  {
    var m, n, v := |elems|, bitLen * |elems| / 8, Value(elems, Pow2(bitLen));
    ShrZero(v);
    SameRoom(n, m, bitLen);
    ValueBound(elems, Pow2(bitLen));
    ValueOfDigits(v, 256, n);
    WholeElements(n, bitLen, m, 0);
    DigitsOfValue(elems, Pow2(bitLen));
  }

  lemma ShrZero(v: nat)
    ensures Shr(v, 0) == v
  {
    QuotRemUnique(v, 1, v, 0);
  }

  lemma {:induction false} ZeroPadding(pad: nat, d: seq<nat>)
    ensures Value(seq(pad, _ => 0) + d, 256) == Value(d, 256)
    decreases |d|, pad
  {
    var z := seq(pad, _ => 0);
    if d != [] {
      var n := |d| - 1;
      ZeroPadding(pad, d[..n]);
      assert z + d == (z + d[..n]) + [d[n]];
      ValueSnoc(z + d[..n], d[n], 256);
    } else if pad > 0 {
      ZeroPadding(pad - 1, []);
      assert z + d == (seq(pad - 1, _ => 0) + []) + [0];
      ValueSnoc(seq(pad - 1, _ => 0) + [], 0, 256);
    }
  }

  lemma ElementFits(e: nat, bitLen: nat)
    requires e < Pow2(bitLen)
    ensures e < Power(256, ElementBytes(bitLen))
  {
    Pow2Values();
    PowerOfPow2(8, ElementBytes(bitLen));
    Pow2Mono(bitLen, 8 * ElementBytes(bitLen));
  }

  /** Read as one big-endian number, a cell is its element. */
  lemma CellNumber(e: nat, bitLen: nat, bytePad: nat)
    requires e < Pow2(bitLen)
    ensures Value(Cell(e, bitLen, bytePad), 256) == e
  {
    ElementFits(e, bitLen);
    ValueOfDigits(e, 256, ElementBytes(bitLen));
    ZeroPadding(bytePad, Digits(e, 256, ElementBytes(bitLen)));
  }

  lemma MaskedCell(e: nat, bitLen: nat, bytePad: nat)
    requires bitLen > 0 && e < Pow2(bitLen)
    ensures Masked(Cell(e, bitLen, bytePad), bitLen, bytePad) == Digits(e, 256, ElementBytes(bitLen))
  {
    hide Pow2, Low, Shr, Value, Digits;
    var n := ElementBytes(bitLen);
    assert Cell(e, bitLen, bytePad)[bytePad..] == Digits(e, 256, n);
    DigitAt(e, n, 0);
    TopBits(e, 8 * (n - 1), bitLen);
  }

  lemma CellOfElement(e: nat, bitLen: nat, bytePad: nat)
    requires bitLen > 0 && e < Pow2(bitLen)
    ensures CellValue(Cell(e, bitLen, bytePad), bitLen, bytePad) == e
  {
    var c, n := Cell(e, bitLen, bytePad), ElementBytes(bitLen);
    MaskedCell(e, bitLen, bytePad);
    ElementFits(e, bitLen);
    ValueOfDigits(e, 256, n);
  }

  lemma TopBits(e: nat, a: nat, bitLen: nat)
    requires a < bitLen <= a + 8 && e < Pow2(bitLen)
    ensures Low(Low(Shr(e, a), 8), bitLen - a) == Low(Shr(e, a), 8)
  {
    Pow2Add(bitLen - a, a);
    QuotBound(e, Pow2(a), Pow2(bitLen - a));
    Pow2Mono(bitLen - a, 8);
    LowSmall(Shr(e, a), 8);
  }

  /** The cells ExpandArray writes hold the elements CompressArray reads. */
  lemma {:induction false} CellsHoldElements(elems: seq<nat>, bitLen: nat, bytePad: nat)
    requires bitLen > 0 && forall i :: 0 <= i < |elems| ==> elems[i] < Pow2(bitLen)
    ensures |Cells(elems, bitLen, bytePad)| == Times(|elems|, ElementBytes(bitLen) + bytePad)
    ensures CellValues(Cells(elems, bitLen, bytePad), |elems|, bitLen, bytePad) == elems
  {
    hide CellValue, Cell, Pow2;
    CellsLength(elems, bitLen, bytePad);
    if elems != [] {
      var n := |elems| - 1;
      CellsHoldElements(elems[..n], bitLen, bytePad);
      CellOfElement(elems[n], bitLen, bytePad);
      CellValuesSnoc(Cells(elems[..n], bitLen, bytePad), Cell(elems[n], bitLen, bytePad), n, bitLen, bytePad);
    }
  }

  // ---------- index lists ----------

  /** An index as four bytes in big-endian order. */
  function EhIndexToArray(i: nat): (a: seq<byte>)
    ensures |a| == 4
  {
    Digits(i, 256, 4)
  }

  function ArrayToEhIndex(a: seq<byte>): nat { Value(a, 256) }

  function IndexBytes(indices: seq<nat>): seq<byte>
  {
    if indices == [] then [] else IndexBytes(indices[..|indices| - 1]) + EhIndexToArray(indices[|indices| - 1])
  }

  /** The two conversions undo each other. */
  lemma IndexRoundTrip(i: nat, a: seq<byte>)
    requires i < 0x1_0000_0000 && |a| == 4
    ensures ArrayToEhIndex(EhIndexToArray(i)) == i
    ensures ArrayToEhIndex(a) < 0x1_0000_0000 && EhIndexToArray(ArrayToEhIndex(a)) == a
  {
    Pow2Values();
    PowerOfPow2(8, 4);
    ValueOfDigits(i, 256, 4);
    ValueBound(a, 256);
    DigitsOfValue(a, 256);
  }

  /** bytePad for a 4-byte index. */
  function IndexPad(bitLen: nat): nat
    requires bitLen <= 25
  {
    4 - ElementBytes(bitLen)
  }

  lemma IndexIsCell(i: nat, bitLen: nat)
    requires bitLen <= 25 && i < Pow2(bitLen)
    ensures EhIndexToArray(i) == Cell(i, bitLen, IndexPad(bitLen))
  {
    CellNumber(i, bitLen, IndexPad(bitLen));
    DigitsOfValue(Cell(i, bitLen, IndexPad(bitLen)), 256);
  }

  lemma {:induction false} IndexBytesAreCells(indices: seq<nat>, bitLen: nat)
    requires bitLen <= 25 && forall k :: 0 <= k < |indices| ==> indices[k] < Pow2(bitLen)
    ensures IndexBytes(indices) == Cells(indices, bitLen, IndexPad(bitLen))
  {
    hide Cell, EhIndexToArray, Pow2;
    if indices != [] {
      var n := |indices| - 1;
      IndexBytesAreCells(indices[..n], bitLen);
      IndexIsCell(indices[n], bitLen);
    }
  }

  lemma {:induction false} IndexBytesLength(indices: seq<nat>)
    ensures |IndexBytes(indices)| == 4 * |indices|
  {
    if indices != [] { IndexBytesLength(indices[..|indices| - 1]); }
  }

  lemma {:induction false} CellAt(elems: seq<nat>, bitLen: nat, k: nat)
    requires bitLen <= 25 && k < |elems|
    ensures |Cells(elems, bitLen, IndexPad(bitLen))| == 4 * |elems|
    ensures Cells(elems, bitLen, IndexPad(bitLen))[4 * k..4 * k + 4] == Cell(elems[k], bitLen, IndexPad(bitLen))
  {
    var n, pad := |elems| - 1, IndexPad(bitLen);
    hide Cell, Times;
    CellsLength(elems, bitLen, pad);
    TimesProduct(|elems|, 4);
    CellsLength(elems[..n], bitLen, pad);
    TimesProduct(n, 4);
    if k < n { CellAt(elems[..n], bitLen, k); }
  }

  method GetIndicesFromMinimal(minimal: seq<byte>, cBitLen: nat) returns (ret: seq<nat>)
    requires 8 <= cBitLen + 1 <= 25
    requires 8 * |minimal| % (cBitLen + 1) == 0
    ensures ret == Elements(minimal, cBitLen + 1)
  {
    hide Cells, Cell, Value, Digits;
    var bitLen := cBitLen + 1;
    var lenIndices := 8 * 4 * |minimal| / bitLen;
    var bytePad := 4 - (bitLen + 7) / 8;
    var bytes := new byte[lenIndices](_ => 0);
    ExpandArray(minimal, bytes, lenIndices, bitLen, bytePad);
    ghost var elems := Elements(minimal, bitLen);
    IndexListLength(|minimal|, bitLen);
    CellsLength(elems, bitLen, bytePad);
    TimesProduct(|elems|, 4);
    ret := [];
    var i := 0;
    while i < lenIndices
      invariant i == 4 * |ret| && |ret| <= |elems| && ret == elems[..|ret|]
      invariant bytes[..] == Cells(elems, bitLen, bytePad)
    {
      CellAt(elems, bitLen, |ret|);
      assert bytes[i..i + 4] == bytes[..][i..i + 4];
      CellNumber(elems[|ret|], bitLen, bytePad);
      ret := ret + [ArrayToEhIndex(bytes[i..i + 4])];
      i := i + 4;
    }
  }

  lemma IndexListLength(n: nat, bitLen: nat)
    requires bitLen > 0 && 8 * n % bitLen == 0
    ensures 8 * 4 * n / bitLen == 4 * (8 * n / bitLen)
  {
    var m := 8 * n / bitLen;
    assert 8 * 4 * n == (4 * m) * bitLen;
    QuotIsDiv(8 * 4 * n, bitLen);
    QuotRemUnique(8 * 4 * n, bitLen, 4 * m, 0);
  }

  method GetMinimalFromIndices(indices: seq<nat>, cBitLen: nat) returns (ret: seq<byte>)
    requires 8 <= cBitLen + 1 <= 25
    requires forall k :: 0 <= k < |indices| ==> indices[k] < Pow2(cBitLen + 1)
    ensures ret == Packed(indices, cBitLen + 1)
  {
    hide Value, Digits, Pow2, Packed, CellValues, Cells;
    var bitLen := cBitLen + 1;
    var bytePad := 4 - (bitLen + 7) / 8;
    var bytes: seq<byte> := [];
    var i := 0;
    while i < |indices|
      invariant 0 <= i <= |indices| && bytes == IndexBytes(indices[..i])
    {
      assert indices[..i + 1][..i] == indices[..i];
      bytes := bytes + EhIndexToArray(indices[i]);
      i := i + 1;
    }
    assert indices[..i] == indices;
    IndexBytesAreCells(indices, bitLen);
    CellsHoldElements(indices, bitLen, bytePad);
    var out := new byte[bitLen * |indices| / 8](_ => 0);
    CompressArray(bytes, out, bitLen, bytePad, |indices|);
    ret := out[..];
  }

  /** The compressed and the plain form of an index list determine each other. */
  lemma MinimalRoundTrip(minimal: seq<byte>, indices: seq<nat>, cBitLen: nat)
    requires 8 * |minimal| % (cBitLen + 1) == 0 && (cBitLen + 1) * |indices| % 8 == 0
    requires forall k :: 0 <= k < |indices| ==> indices[k] < Pow2(cBitLen + 1)
    ensures Packed(indices, cBitLen + 1) == minimal <==> indices == Elements(minimal, cBitLen + 1)
  {
    ExpandThenCompress(minimal, cBitLen + 1);
    CompressThenExpand(indices, cBitLen + 1);
  }

  // ---------- truncated indices ----------

  function TruncateIndex(i: nat, ilen: nat): (t: nat)
    requires ilen >= 8
    ensures t < 256
  {
    AndByte(i, ilen - 8);
    BitAnd(Shr(i, ilen - 8), 0xFF)
  }

  function UntruncateIndex(t: nat, r: nat, ilen: nat): nat
    requires ilen >= 8
  {
    BitOr(Shl32(t, ilen - 8), r)
  }

  /** The indices that truncate to t are exactly those UntruncateIndex rebuilds from t. */
  lemma TruncationFibre(t: byte, r: nat, i: nat, ilen: nat)
    requires 8 <= ilen <= 32 && r < Pow2(ilen - 8) && i < Pow2(ilen)
    ensures UntruncateIndex(t, r, ilen) == t * Pow2(ilen - 8) + r < Pow2(ilen)
    ensures TruncateIndex(UntruncateIndex(t, r, ilen), ilen) == t
    ensures TruncateIndex(i, ilen) == t <==> i == UntruncateIndex(t, Low(i, ilen - 8), ilen)
  {
    hide Low, Shr, BitAnd, BitOr, Pow2, TruncateIndex, UntruncateIndex;
    Untruncated(t, r, ilen);
    Truncated(t, r, ilen);
    LowBelow(i, ilen - 8);
    Untruncated(t, Low(i, ilen - 8), ilen);
    TruncateShr(i, ilen);
    SameTop(Shr(i, ilen - 8), t, Pow2(ilen - 8), Low(i, ilen - 8));
  }

  lemma LowBelow(i: nat, n: nat)
    ensures Low(i, n) < Pow2(n)
  {}

  lemma SameTop(s: nat, t: nat, base: nat, r: nat)
    requires base > 0
    ensures s == t <==> s * base + r == t * base + r
  {
    if s * base == t * base {
      if s < t { MulMono(s + 1, t, base); }
      if t < s { MulMono(t + 1, s, base); }
    }
  }

  lemma Untruncated(t: byte, r: nat, ilen: nat)
    requires 8 <= ilen <= 32 && r < Pow2(ilen - 8)
    ensures UntruncateIndex(t, r, ilen) == t * Pow2(ilen - 8) + r < Pow2(ilen)
  {
    hide Low, BitOr, Pow2;
    var s := ilen - 8;
    Pow2Values();
    Pow2Add(8, s);
    TwoDigitBound(t, r, 256, Pow2(s));
    TwoDigitBound(t, 0, 256, Pow2(s));
    Pow2Mono(ilen, 32);
    LowSmall(t * Pow2(s), 32);
    OrDisjoint(t, s, r);
  }

  lemma TruncateShr(i: nat, ilen: nat)
    requires 8 <= ilen && i < Pow2(ilen)
    ensures TruncateIndex(i, ilen) == Shr(i, ilen - 8) < 256
    ensures i == Shr(i, ilen - 8) * Pow2(ilen - 8) + Low(i, ilen - 8)
  {
    Pow2Values();
    Pow2Add(8, ilen - 8);
    QuotBound(i, Pow2(ilen - 8), 256);
    AndByte(i, ilen - 8);
    LowSmall(Shr(i, ilen - 8), 8);
    QuotRem(i, Pow2(ilen - 8));
  }

  lemma Truncated(t: byte, r: nat, ilen: nat)
    requires 8 <= ilen <= 32 && r < Pow2(ilen - 8)
    ensures TruncateIndex(t * Pow2(ilen - 8) + r, ilen) == t
  {
    Untruncated(t, r, ilen);
    TruncateShr(t * Pow2(ilen - 8) + r, ilen);
    QuotRemUnique(t * Pow2(ilen - 8) + r, Pow2(ilen - 8), t, r);
  }
}
