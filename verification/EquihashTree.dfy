/** Equihash<N, K>: its constants, the index tree a solution denotes, and the verifier. The hash
    is an oracle: gen(g) stands for GenerateHash with a fixed base state. */
module EquihashTree {
  import opened Bits
  import opened BitPacking
  import opened StepRows
  import opened CollisionRounds
  import opened Wrappers

  datatype Equihash = Equihash(N: nat, K: nat, gen: nat -> seq<byte>)
  {
    function CollisionBitLength(): nat { N / (K + 1) }

    function CollisionByteLength(): nat { ElementBytes(CollisionBitLength()) }

    function IndexBits(): nat { CollisionBitLength() + 1 }

    function InitSize(): nat { Pow2(IndexBits()) }

    function IndicesPerHashOutput(): nat
      requires N > 0
    {
      512 / N
    }

    /** What the header's static assertions and the bit packer's assertions ask of N and K, with
        N a multiple of K + 1, at least one index per hash output, and K >= 3, which is when a
        solution fills whole bytes (see WholeSolution). */
    ghost predicate Valid()
    {
      && N % 8 == 0 && N <= 512 && K >= 3
      && 8 <= CollisionBitLength() && CollisionBitLength() + 1 <= 25
      && N == (K + 1) * CollisionBitLength()
      && forall g :: |gen(g)| == IndicesPerHashOutput() * (N / 8)
    }

    /** The bytes of a row's hash after r rounds. */
    function HashLen(r: nat): nat
      requires r <= K + 1
    {
      Times(K + 1 - r, CollisionByteLength())
    }

    function SolutionWidth(): nat { Pow2(K) * IndexBits() / 8 }

    /** FullStepRow(tmpHash + pos*N/8, N/8, HashLength, CollisionBitLength, i) */
    function StepRow(tmpHash: seq<byte>, pos: nat, i: nat): (row: Row)
      requires Valid() && |tmpHash| == IndicesPerHashOutput() * (N / 8) && pos < IndicesPerHashOutput()
      ensures row.indices == [i] && |row.hash| == HashLen(0)
    {
      PartOfHash(pos, N, IndicesPerHashOutput());
      var part := tmpHash[pos * N / 8..][..N / 8];
      LeafLength(this, part);
      Row(Cells(Elements(part, CollisionBitLength()), CollisionBitLength(), 0), [i])
    }

    /** The row of index i. */
    function LeafRow(i: nat): (row: Row)
      requires Valid()
      ensures row.indices == [i] && |row.hash| == HashLen(0)
    {
      StepRow(gen(i / IndicesPerHashOutput()), i % IndicesPerHashOutput(), i)
    }

    /** The row of the index tree with these leaves, if every pair of siblings collides on the
        next bytes, is in order and shares no index. */
    function TreeRow(indices: seq<nat>, r: nat): (t: Option<Row>)
      requires Valid() && r <= K && |indices| == Pow2(r)
      ensures t.Some? ==> t.value.indices == indices && |t.value.hash| == HashLen(r)
      decreases r
    {
      if r == 0 then Some(LeafRow(indices[0]))
      else
        var half := Pow2(r - 1);
        match (TreeRow(indices[..half], r - 1), TreeRow(indices[half..], r - 1))
        case (Some(a), Some(b)) => Join(a, b, r - 1)
        case _ => None
    }

    /** The checks on one pair of siblings after r rounds, and their parent. */
    function Join(a: Row, b: Row, r: nat): (t: Option<Row>)
      requires Valid() && r < K && |a.hash| == |b.hash| == HashLen(r) && |a.indices| == |b.indices| == Pow2(r)
      ensures t.Some? ==> t.value.indices == a.indices + b.indices && |t.value.hash| == HashLen(r + 1)
    {
      if HasCollision(a, b, CollisionByteLength()) && !IndicesBefore(b, a) && DistinctIndices(a, b) then
        DistinctDiffer(a, b);
        Some(Merge(a, b, CollisionByteLength()))
      else None
    }

    /** The indices of a solution of the right length. */
    function IndicesOf(soln: seq<byte>): (ix: seq<nat>)
      requires Valid() && |soln| == SolutionWidth()
      ensures |ix| == Pow2(K) && InRange(ix)
    {
      SolutionIndices(this, soln);
      Elements(soln, IndexBits())
    }

    /** soln has the right length and passes the checks on every pair of siblings. */
    predicate PassesLevels(soln: seq<byte>)
      requires Valid()
    {
      |soln| == SolutionWidth() && TreeRow(IndicesOf(soln), K).Some?
    }

    /** What IsValidSolution accepts: the remaining hash must also be zero. */
    predicate ValidSolution(soln: seq<byte>)
      requires Valid()
    {
      PassesLevels(soln) && IsZero(TreeRow(IndicesOf(soln), K).value)
    }

    predicate InRange(indices: seq<nat>) { forall i :: 0 <= i < |indices| ==> indices[i] < InitSize() }
  }

  lemma PartOfHash(pos: nat, n: nat, perHash: nat)
    requires pos < perHash && n % 8 == 0
    ensures pos * n / 8 == pos * (n / 8)
    ensures pos * n / 8 + n / 8 <= perHash * (n / 8)
  {
    assert pos * n == 8 * (pos * (n / 8));
    MulMono(pos + 1, perHash, n / 8);
  }

  lemma LeafLength(p: Equihash, part: seq<byte>)
    requires p.Valid() && |part| == p.N / 8
    ensures |Cells(Elements(part, p.CollisionBitLength()), p.CollisionBitLength(), 0)| == p.HashLen(0)
  {
    var c := p.CollisionBitLength();
    CellsLength(Elements(part, c), c, 0);
    Commute(p.K + 1, c);
    WholeElements(p.N / 8, c, p.K + 1, 0);
  }

  /** A solution holds 2^K indices and fills whole bytes. */
  lemma SolutionIndices(p: Equihash, soln: seq<byte>)
    requires p.Valid() && |soln| == p.SolutionWidth()
    ensures 8 * |soln| == Pow2(p.K) * p.IndexBits()
    ensures |Elements(soln, p.IndexBits())| == Pow2(p.K) && 8 * |soln| % p.IndexBits() == 0
  {
    EightDivides(p.K, p.IndexBits());
    WholeElements(|soln|, p.IndexBits(), Pow2(p.K), 0);
  }

  lemma EightDivides(k: nat, w: nat)
    requires k >= 3
    ensures Pow2(k) * w % 8 == 0
  {
    Pow2Add(3, k - 3);
    assert Pow2(k) * w == 8 * (Pow2(k - 3) * w);
  }

  /** With N = (K+1) * c and N a multiple of 8, a solution of 2^K indices of c+1 bits fills whole
      bytes exactly when K is at least 3. */
  lemma WholeSolution(k: nat, c: nat)
    requires k > 0 && (k + 1) * c % 8 == 0
    ensures Pow2(k) * (c + 1) % 8 == 0 <==> k >= 3
  {
    if k >= 3 {
      EightDivides(k, c + 1);
    } else if k == 1 {
      assert Pow2(1) == 2;
    } else {
      assert Pow2(2) == 4;
    }
  }

  /** The halves of a valid tree are valid trees that pass the checks on a pair. */
  lemma TreeHalves(p: Equihash, indices: seq<nat>, r: nat) returns (a: Row, b: Row)
    requires p.Valid() && 0 < r <= p.K && |indices| == Pow2(r) && p.TreeRow(indices, r).Some?
    ensures var half := Pow2(r - 1);
            p.TreeRow(indices[..half], r - 1) == Some(a) && p.TreeRow(indices[half..], r - 1) == Some(b)
            && Alike(a, b) && |a.hash| == p.HashLen(r - 1) && p.CollisionByteLength() <= |a.hash|
            && HasCollision(a, b, p.CollisionByteLength()) && !IndicesBefore(b, a) && DistinctIndices(a, b)
            && p.TreeRow(indices, r) == Some(Merge(a, b, p.CollisionByteLength()))
  {
    var half := Pow2(r - 1);
    a, b := p.TreeRow(indices[..half], r - 1).value, p.TreeRow(indices[half..], r - 1).value;
  }

  /** Valid halves that pass the checks on a pair make a valid tree. */
  lemma HalvesMakeTree(p: Equihash, indices: seq<nat>, r: nat, a: Row, b: Row)
    requires p.Valid() && 0 < r <= p.K && |indices| == Pow2(r)
    requires p.TreeRow(indices[..Pow2(r - 1)], r - 1) == Some(a) && p.TreeRow(indices[Pow2(r - 1)..], r - 1) == Some(b)
    requires Alike(a, b) && p.CollisionByteLength() <= |a.hash|
    requires HasCollision(a, b, p.CollisionByteLength()) && !IndicesBefore(b, a) && DistinctIndices(a, b)
    ensures p.TreeRow(indices, r) == Some(Merge(a, b, p.CollisionByteLength()))
  {}
}
