/** Both SHA-256 classes compute the digest of FIPS 180-4, however the message is cut up. */
module Sha256Theorems {
  import opened Bits
  import opened Sha256
  import opened Sha256Class
  import opened CSha256

  const LIMIT_32 := 0x2000_0000                // 2^29 bytes, 2^32 bits
  const LIMIT_64 := 0x2000_0000_0000_0000      // 2^61 bytes, 2^64 bits

  function Joined(chunks: seq<seq<byte>>): seq<byte>
  {
    if |chunks| == 0 then [] else Joined(chunks[..|chunks| - 1]) + chunks[|chunks| - 1]
  }

  lemma JoinedNext(chunks: seq<seq<byte>>, i: nat)
    requires i < |chunks|
    ensures Joined(chunks[..i + 1]) == Joined(chunks[..i]) + chunks[i]
  {
    assert chunks[..i + 1][..i] == chunks[..i];
  }

  lemma {:induction false} JoinedGrows(chunks: seq<seq<byte>>, i: nat)
    requires i <= |chunks|
    ensures |Joined(chunks[..i])| <= |Joined(chunks)|
    decreases |chunks| - i
  {
    if i < |chunks| {
      JoinedNext(chunks, i);
      JoinedGrows(chunks, i + 1);
    } else {
      assert chunks[..i] == chunks;
    }
  }

  /** The 32-bit length field pads the message as FIPS 180-4 asks exactly when the message has less
      than 2^29 bytes. */
  lemma ShortLengthField(m: seq<byte>)
    requires |m| < LIMIT_64
    ensures PaddedSaying(m, 8 * |m| % 0x1_0000_0000) == Padded(m) <==> |m| < LIMIT_32
  {
    hide PaddedSaying, BytesOf;
    var v := 8 * |m| % 0x1_0000_0000;
    if |m| >= LIMIT_32 && PaddedSaying(m, v) == Padded(m) {
      LengthFieldOf(m, v);
      LengthFieldOf(m, 8 * |m|);
      BytesDetermine(v, 8 * |m|);
      assert false;
    }
  }

  lemma LengthFieldOf(m: seq<byte>, v: nat)
    ensures PaddedSaying(m, v)[|PaddedSaying(m, v)| - 8..] == BytesOf(v, 8)
  {
    hide BytesOf;
  }

  /** Eight bytes determine a 64-bit number. */
  lemma BytesDetermine(v: nat, w: nat)
    requires v < 8 * LIMIT_64 && w < 8 * LIMIT_64 && BytesOf(v, 8) == BytesOf(w, 8)
    ensures v == w
  {
    Power256();
    ValueOfDigits(v, 256, 8);
    ValueOfDigits(w, 256, 8);
  }

  lemma Power256()
    ensures Power(256, 8) == 0x1_0000_0000_0000_0000
  {
    assert Power(256, 4) == 0x1_0000_0000;
  }

  /** SHA_256 over any chunks: the digest of their concatenation, up to 2^29 bytes. */
  method HashWithSha256(chunks: seq<seq<byte>>, digest: array<byte>)
    requires digest.Length == 32 && |Joined(chunks)| < LIMIT_32
    modifies digest
    ensures digest[..] == Digest(Joined(chunks))
  {
    hide Digest, Padded, PaddedSaying, CompressAll, Load, StateBytes, SHA_256.Valid;
    var sha := new SHA_256();
    sha.init();
    UpdateAll(sha, chunks);
    ShortLengthField(Joined(chunks));
    sha.final(digest);
    DigestIs(Joined(chunks));
  }

  method UpdateAll(sha: SHA_256, chunks: seq<seq<byte>>)
    requires sha.Valid() && sha.sent == [] && |Joined(chunks)| < LIMIT_32
    modifies sha, sha.m_block, sha.m_h
    ensures sha.Valid() && sha.sent == Joined(chunks)
  {
    hide SHA_256.Valid;
    var i := 0;
    while i < |chunks|
      invariant 0 <= i <= |chunks| && sha.Valid() && sha.sent == Joined(chunks[..i])
    {
      JoinedNext(chunks, i);
      JoinedGrows(chunks, i + 1);
      sha.update(chunks[i]);
      i := i + 1;
    }
    assert chunks[..|chunks|] == chunks;
  }

  /** CSHA256 over any chunks: the digest of their concatenation, for every legal length. */
  method HashWithCSHA256(chunks: seq<seq<byte>>, digest: array<byte>)
    requires digest.Length == 32 && |Joined(chunks)| < LIMIT_64
    modifies digest
    ensures digest[..] == Digest(Joined(chunks))
  {
    hide Digest, Padded, PaddedSaying, CompressAll, Load, StateBytes;
    var sha := new CSHA256();
    var i := 0;
    while i < |chunks|
      invariant 0 <= i <= |chunks| && sha.Valid() && sha.sent == Joined(chunks[..i])
      invariant fresh(sha) && fresh(sha.s) && fresh(sha.buf)
    {
      hide CSHA256.Valid;
      JoinedNext(chunks, i);
      sha.Write(chunks[i]);
      i := i + 1;
    }
    assert chunks[..|chunks|] == chunks;
    sha.Finalize(digest);
    DigestIs(Joined(chunks));
  }

  lemma DigestIs(m: seq<byte>)
    ensures Digest(m) == StateBytes(CompressAll(INITIAL, Padded(m))) && Padded(m) == PaddedSaying(m, 8 * |m|)
  {}
}
