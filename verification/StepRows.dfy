/** The rows of the Equihash tables: the live part of a StepRow buffer, as the remaining hash
    bytes and the index list that follows them. FullStepRow and TruncatedStepRow share it; the
    indices of the second are single bytes. */
module StepRows {
  import opened Bits

  datatype Row = Row(hash: seq<byte>, indices: seq<nat>)

  /** memcmp(a, b, n) < 0 on digit strings of one length n. */
  predicate Before(a: seq<nat>, b: seq<nat>)
    requires |a| == |b|
  {
    a != [] && (a[0] < b[0] || (a[0] == b[0] && Before(a[1..], b[1..])))
  }

  lemma {:induction false} BeforeTotal(a: seq<nat>, b: seq<nat>)
    requires |a| == |b|
    ensures Before(a, b) ==> !Before(b, a) && a != b
    ensures !Before(a, b) && !Before(b, a) ==> a == b
  {
    if a != [] {
      BeforeTotal(a[1..], b[1..]);
      if a[0] == b[0] && a[1..] == b[1..] { assert a == [a[0]] + a[1..] && b == [b[0]] + b[1..]; }
    }
  }

  lemma {:induction false} BeforeTransitive(a: seq<nat>, b: seq<nat>, c: seq<nat>)
    requires |a| == |b| == |c| && Before(a, b) && Before(b, c)
    ensures Before(a, c)
  {
    if a[0] == b[0] == c[0] { BeforeTransitive(a[1..], b[1..], c[1..]); }
  }

  // ---------- exclusive or ----------

  function Xor(x: nat, y: nat): (z: nat)
    decreases x + y
  {
    if x == 0 then y else if y == 0 then x
    else 2 * Xor(x / 2, y / 2) + (x + y) % 2
  }

  lemma {:induction false} XorSymmetric(x: nat, y: nat)
    ensures Xor(x, y) == Xor(y, x)
    decreases x + y
  {
    if x != 0 && y != 0 { XorSymmetric(x / 2, y / 2); }
  }

  lemma {:induction false} XorZero(x: nat, y: nat)
    ensures Xor(x, y) == 0 <==> x == y
    decreases x + y
  {
    if x != 0 && y != 0 { XorZero(x / 2, y / 2); }
  }

  lemma {:induction false} XorBelow(x: nat, y: nat, n: nat)
    requires x < Pow2(n) && y < Pow2(n)
    ensures Xor(x, y) < Pow2(n)
    decreases x + y
  {
    if x != 0 && y != 0 { XorBelow(x / 2, y / 2, n - 1); }
  }

  function XorByte(x: byte, y: byte): byte
  {
    Pow2Values();
    XorBelow(x, y, 8);
    Xor(x, y)
  }

  // ---------- operations on rows ----------

  predicate Alike(a: Row, b: Row) { |a.hash| == |b.hash| && |a.indices| == |b.indices| }

  predicate HasCollision(a: Row, b: Row, len: nat)
    requires len <= |a.hash| && len <= |b.hash|
  {
    a.hash[..len] == b.hash[..len]
  }

  predicate IndicesBefore(a: Row, b: Row)
    requires |a.indices| == |b.indices|
  {
    Before(a.indices, b.indices)
  }

  predicate DistinctIndices(a: Row, b: Row)
  {
    forall i, j :: 0 <= i < |a.indices| && 0 <= j < |b.indices| ==> a.indices[i] != b.indices[j]
  }

  predicate IsZero(r: Row)
  {
    forall i :: 0 <= i < |r.hash| ==> r.hash[i] == 0
  }

  /** The row that a and b give: hashes combined after the first trim bytes, the smaller index list first. */
  function Merge(a: Row, b: Row, trim: nat): (r: Row)
    requires Alike(a, b) && trim <= |a.hash|
    ensures |r.hash| == |a.hash| - trim && |r.indices| == 2 * |a.indices|
  {
    Row(seq<byte>(|a.hash| - trim, i requires 0 <= i < |a.hash| - trim => XorByte(a.hash[i + trim], b.hash[i + trim])),
        if IndicesBefore(a, b) then a.indices + b.indices else b.indices + a.indices)
  }

  lemma MergeSymmetric(a: Row, b: Row, trim: nat)
    requires Alike(a, b) && trim <= |a.hash|
    ensures Merge(a, b, trim) == Merge(b, a, trim)
  {
    BeforeTotal(a.indices, b.indices);
    forall i | trim <= i < |a.hash|
      ensures XorByte(a.hash[i], b.hash[i]) == XorByte(b.hash[i], a.hash[i])
    {
      XorSymmetric(a.hash[i], b.hash[i]);
    }
    assert Merge(a, b, trim).hash == Merge(b, a, trim).hash;
  }

  /** The combined hash is zero exactly when the two agree on the bytes kept. */
  lemma MergeZero(a: Row, b: Row, trim: nat)
    requires Alike(a, b) && trim <= |a.hash|
    ensures IsZero(Merge(a, b, trim)) <==> a.hash[trim..] == b.hash[trim..]
  {
    var r := Merge(a, b, trim);
    forall i | 0 <= i < |r.hash|
      ensures r.hash[i] == 0 <==> a.hash[trim..][i] == b.hash[trim..][i]
    {
      XorZero(a.hash[i + trim], b.hash[i + trim]);
      assert r.hash[i] == XorByte(a.hash[i + trim], b.hash[i + trim]);
    }
  }

  lemma DistinctSymmetric(a: Row, b: Row)
    ensures DistinctIndices(a, b) == DistinctIndices(b, a)
  {}

  lemma DistinctDiffer(a: Row, b: Row)
    requires DistinctIndices(a, b) && Alike(a, b) && |a.indices| > 0
    ensures a.indices != b.indices
    ensures IndicesBefore(a, b) <==> !IndicesBefore(b, a)
  {
    BeforeTotal(a.indices, b.indices);
    assert a.indices[0] != b.indices[0];
  }
}
