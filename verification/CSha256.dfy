/** The class CSHA256 of zcash/sha256.cpp: it counts bytes, compresses whole blocks straight from
    the input, and pads by writing the padding to itself. */
module CSha256 {
  import opened Bits
  import opened Sha256
  import opened Sha256Class
  import opened Sha256Unrolled

  const SIZE_T := 0x1_0000_0000_0000_0000

  predicate Counts(counter: nat, n: nat) { counter == n % SIZE_T }

  /** A hasher that has taken in bytes. The source's size_t counter wraps around. */
  class CSHA256 {
    const s: array<Word>
    const buf: array<byte>
    var bytes: nat
    ghost var sent: seq<byte>

    ghost predicate Valid()
      reads this, s, buf
    {
      s.Length == 8 && buf.Length == 64 && Counts(bytes, |sent|)
      && Buffered(sent, Load(s[..]), buf[..], |sent| % 64)
    }

    constructor ()
      ensures Valid() && sent == [] && fresh(s) && fresh(buf)
    {
      s := new Word[8];
      buf := new byte[64];
      bytes, sent := 0, [];
      new;
      Initialize();
    }

    /** The initial hash value. */
    method Initialize()
      requires s.Length == 8
      modifies s
      ensures Load(s[..]) == INITIAL
    {
      s[0] := 0x6a09e667;
      s[1] := 0xbb67ae85;
      s[2] := 0x3c6ef372;
      s[3] := 0xa54ff53a;
      s[4] := 0x510e527f;
      s[5] := 0x9b05688c;
      s[6] := 0x1f83d9ab;
      s[7] := 0x5be0cd19;
    }

    method Reset()
      requires Valid()
      modifies this, s
      ensures Valid() && sent == []
    {
      bytes, sent := 0, [];
      Initialize();
    }

    /** Transform in place. */
    method TransformState(chunk: seq<byte>)
      requires s.Length == 8 && |chunk| == 64
      modifies s
      ensures Load(s[..]) == Compress(Load(old(s[..])), chunk)
    {
      var r := Transform(Load(s[..]), chunk);
      s[0], s[1], s[2], s[3] := r.a, r.b, r.c, r.d;
      s[4], s[5], s[6], s[7] := r.e, r.f, r.g, r.h;
    }

    /** Write: the data joins the bytes taken in. */
    method Write(data: seq<byte>)
      requires Valid()
      modifies this, s, buf
      ensures Valid() && sent == old(sent) + data
    {
      hide Load, Compress, CompressAll, Buffered, Counts;
      var bufsize := bytes % 64;
      var at := 0;
      Remainders(bytes, |sent|);
      if bufsize != 0 && bufsize + |data| >= 64 {
        at := 64 - bufsize;
        FillBuffer(data[..at]);
        bufsize := 0;
      }
      while |data| >= at + 64
        invariant at <= |data| && Valid() && sent == old(sent) + data[..at]
        invariant bufsize == |sent| % 64 && (bufsize != 0 ==> bufsize + |data| < 64 && at == 0)
        decreases |data| - at
      {
        hide CSHA256.Valid;
        TakeChunk(data[at..][..64]);
        Extended(old(sent), data, at, 64);
        at := at + 64;
      }
      if |data| > at {
        assert data[at..][..|data| - at] == data[at..];
        Extended(old(sent), data, at, |data| - at);
        KeepRest(data[at..]);
      }
      assert data[..|data|] == data;
    }

    /** The first branch of Write: the buffer is filled up and compressed. */
    method FillBuffer(data: seq<byte>)
      requires Valid() && |sent| % 64 + |data| == 64
      modifies this, s, buf
      ensures Valid() && sent == old(sent) + data && |sent| % 64 == 0
    {
      hide Load, Compress, CompressAll, Buffered, Counts;
      Remainders(bytes, |sent|);
      ghost var was := buf[..];
      var bufsize := bytes % 64;
      Copy(buf, bufsize, data);
      assert buf[..] == was[..bufsize] + data;
      TransformState(buf[..]);
      FullBlock(sent, Load(old(s[..])), was, bufsize, data, Load(s[..]), buf[..]);
      Count(|sent|, bytes, |data|);
      bytes := (bytes + |data|) % SIZE_T;
      sent := sent + data;
    }

    /** The loop body of Write: a whole block goes straight into the state. */
    method TakeChunk(chunk: seq<byte>)
      requires Valid() && |sent| % 64 == 0 && |chunk| == 64
      modifies this, s
      ensures Valid() && sent == old(sent) + chunk && |sent| % 64 == 0
    {
      hide Load, Compress, CompressAll, Buffered, Counts;
      TransformState(chunk);
      assert buf[..0] + chunk == chunk;
      FullBlock(sent, Load(old(s[..])), buf[..], 0, chunk, Load(s[..]), buf[..]);
      Count(|sent|, bytes, 64);
      bytes := (bytes + 64) % SIZE_T;
      sent := sent + chunk;
    }

    /** The end of Write: less than a block remains for the buffer. */
    method KeepRest(data: seq<byte>)
      requires Valid() && |sent| % 64 + |data| < 64
      modifies this, buf
      ensures Valid() && sent == old(sent) + data
    {
      hide Load, Compress, CompressAll, Buffered, Counts;
      Remainders(bytes, |sent|);
      ghost var was := buf[..];
      var bufsize := bytes % 64;
      Copy(buf, bufsize, data);
      assert buf[..bufsize + |data|] == was[..bufsize] + data;
      BytesBuffered(sent, Load(s[..]), was, bufsize, data, buf[..]);
      Count(|sent|, bytes, |data|);
      bytes := (bytes + |data|) % SIZE_T;
      sent := sent + data;
    }

    /** Finalize: the padded message is compressed, and the hasher ends on a block boundary. */
    method Finalize(hash: array<byte>)
      requires Valid() && hash.Length == 32 && hash != buf
      modifies this, s, buf, hash
      ensures bytes % 64 == 0
      ensures hash[..] == StateBytes(CompressAll(INITIAL, PaddedSaying(old(sent), 8 * |old(sent)| % SIZE_T)))
    {
      hide Load, Compress, CompressAll, Buffered, Counts, BytesOf, Digits, Zeros;
      Remainders(bytes, |sent|);
      var pad := [0x80] + Zeros(63);
      var sizedesc := BytesOf(bytes * 8 % SIZE_T, 8);
      var n := 1 + (119 - bytes % 64) % 64;
      Write(pad[..n]);
      Write(sizedesc);
      PaddingWritten(old(sent), n);
      Unbuffer(sent, Load(s[..]), buf[..], 0);
      assert sent[..|sent|] == sent;
      Remainders(bytes, |sent|);
      var ok := FinalizeNoPadding(hash, false);
    }

    /** The digest is the state; with enforce_compression, only right after one block (the source
        throws otherwise). */
    method FinalizeNoPadding(hash: array<byte>, enforce_compression: bool) returns (ok: bool)
      requires s.Length == 8 && hash.Length == 32
      modifies hash
      ensures ok <==> enforce_compression ==> bytes == 64
      ensures hash[..] == if ok then StateBytes(Load(s[..])) else old(hash[..])
    {
      if enforce_compression && bytes != 64 { return false; }
      UnpackWords(s, hash);
      ok := true;
    }
  }

  /** The wrapping counter and the length it counts. */
  lemma Remainders(counter: nat, n: nat)
    requires Counts(counter, n)
    ensures counter % 64 == n % 64 && counter * 8 % SIZE_T == 8 * n % SIZE_T
  {
    var q := n / SIZE_T;
    assert n == counter + 64 * (q * 0x400_0000_0000_0000);
    Turns64(counter, q * 0x400_0000_0000_0000);
    assert 8 * n == counter * 8 + 8 * q * SIZE_T;
    Turns(counter * 8, 8 * q);
  }

  lemma Turns64(r: nat, k: nat)
    ensures (r + 64 * k) % 64 == r % 64
  {}

  lemma Turns(r: nat, k: nat)
    ensures (r + k * SIZE_T) % SIZE_T == r % SIZE_T
  {}

  lemma Count(total: nat, counter: nat, more: nat)
    requires Counts(counter, total)
    ensures Counts((counter + more) % SIZE_T, total + more)
  {
    Turns(counter + more, total / SIZE_T);
  }

  lemma Extended(before: seq<byte>, data: seq<byte>, at: nat, n: nat)
    requires at + n <= |data|
    ensures before + data[..at] + data[at..][..n] == before + data[..at + n]
  {
    assert data[..at] + data[at..][..n] == data[..at + n];
  }

  /** What the two writes of Finalize append is the padding. */
  lemma PaddingWritten(m: seq<byte>, n: nat)
    requires n == 1 + (119 - |m| % 64) % 64
    ensures ([0x80] + Zeros(63))[..n] == [0x80] + Zeros(ZeroCount(|m|))
    ensures forall v: nat :: m + ([0x80] + Zeros(63))[..n] + BytesOf(v, 8) == PaddedSaying(m, v)
  {
    hide BytesOf;
    var k := ZeroCount(|m|);
    assert ([0x80] + Zeros(63))[..n] == [0x80] + Zeros(k);
    assert m + ([0x80] + Zeros(k)) == m + [0x80] + Zeros(k);
  }

  /** The buffer, filled up by x, has been compressed. */
  lemma FullBlock(sent: seq<byte>, h: State, block: seq<byte>, len: nat, x: seq<byte>, h': State, block': seq<byte>)
    requires Buffered(sent, h, block, len) && len <= |block| && len + |x| == 64
    requires h' == Compress(h, block[..len] + x)
    ensures Buffered(sent + x, h', block', 0) && |sent + x| % 64 == 0
  {
    hide Buffered, Compress;
    var whole := block[..len] + x;
    NothingToCompress(h);
    CompressOne(h, [], whole);
    assert [] + whole == whole == whole + [];
    Absorb(sent, h, block, len, x, whole, [], h', block');
    LenIsShort(sent + x, h', block', 0);
  }
}
