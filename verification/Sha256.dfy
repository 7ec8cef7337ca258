/** SHA-256 as FIPS 180-4 defines it: padding (section 5.1.1), the constants, and the compression
    of a message by blocks (section 6.2.2). The two implementations are proved against this. */
module Sha256 {
  import opened Bits
  import opened WordLogic

  type Word = bv32

  datatype State = State(a: Word, b: Word, c: Word, d: Word, e: Word, f: Word, g: Word, h: Word)

  // ---------- section 4.1.2: functions ----------

  function Ch(x: Word, y: Word, z: Word): Word { (x & y) ^ (!x & z) }

  function Maj(x: Word, y: Word, z: Word): Word { (x & y) ^ (x & z) ^ (y & z) }

  function UpperSigma0(x: Word): Word { x.RotateRight(2) ^ x.RotateRight(13) ^ x.RotateRight(22) }

  function UpperSigma1(x: Word): Word { x.RotateRight(6) ^ x.RotateRight(11) ^ x.RotateRight(25) }

  function LowerSigma0(x: Word): Word { x.RotateRight(7) ^ x.RotateRight(18) ^ (x >> 3) }

  function LowerSigma1(x: Word): Word { x.RotateRight(17) ^ x.RotateRight(19) ^ (x >> 10) }

  // ---------- section 4.2.2: constants ----------

  /** The 64 constants K, in four rows. */
  function Constant(t: nat): Word
    requires t < 64
  {
    if t < 16 then Row0(t) else if t < 32 then Row1(t) else if t < 48 then Row2(t) else Row3(t)
  }

  function Row0(t: nat): Word
  {
    match t
    case 0 => 0x428a2f98 case 1 => 0x71374491 case 2 => 0xb5c0fbcf case 3 => 0xe9b5dba5
    case 4 => 0x3956c25b case 5 => 0x59f111f1 case 6 => 0x923f82a4 case 7 => 0xab1c5ed5
    case 8 => 0xd807aa98 case 9 => 0x12835b01 case 10 => 0x243185be case 11 => 0x550c7dc3
    case 12 => 0x72be5d74 case 13 => 0x80deb1fe case 14 => 0x9bdc06a7 case _ => 0xc19bf174
  }

  function Row1(t: nat): Word
  {
    match t
    case 16 => 0xe49b69c1 case 17 => 0xefbe4786 case 18 => 0x0fc19dc6 case 19 => 0x240ca1cc
    case 20 => 0x2de92c6f case 21 => 0x4a7484aa case 22 => 0x5cb0a9dc case 23 => 0x76f988da
    case 24 => 0x983e5152 case 25 => 0xa831c66d case 26 => 0xb00327c8 case 27 => 0xbf597fc7
    case 28 => 0xc6e00bf3 case 29 => 0xd5a79147 case 30 => 0x06ca6351 case _ => 0x14292967
  }

  function Row2(t: nat): Word
  {
    match t
    case 32 => 0x27b70a85 case 33 => 0x2e1b2138 case 34 => 0x4d2c6dfc case 35 => 0x53380d13
    case 36 => 0x650a7354 case 37 => 0x766a0abb case 38 => 0x81c2c92e case 39 => 0x92722c85
    case 40 => 0xa2bfe8a1 case 41 => 0xa81a664b case 42 => 0xc24b8b70 case 43 => 0xc76c51a3
    case 44 => 0xd192e819 case 45 => 0xd6990624 case 46 => 0xf40e3585 case _ => 0x106aa070
  }

  function Row3(t: nat): Word
  {
    match t
    case 48 => 0x19a4c116 case 49 => 0x1e376c08 case 50 => 0x2748774c case 51 => 0x34b0bcb5
    case 52 => 0x391c0cb3 case 53 => 0x4ed8aa4a case 54 => 0x5b9cca4f case 55 => 0x682e6ff3
    case 56 => 0x748f82ee case 57 => 0x78a5636f case 58 => 0x84c87814 case 59 => 0x8cc70208
    case 60 => 0x90befffa case 61 => 0xa4506ceb case 62 => 0xbef9a3f7 case _ => 0xc67178f2
  }

  const INITIAL := State(0x6a09e667, 0xbb67ae85, 0x3c6ef372, 0xa54ff53a, 0x510e527f, 0x9b05688c, 0x1f83d9ab, 0x5be0cd19)

  // ---------- section 6.2.2: the compression of one block ----------

  /** Word t of the message schedule of a block of sixteen words. */
  function Schedule(m: seq<Word>, t: nat): Word
    requires |m| == 16
  {
    if t < 16 then m[t]
    else Sum4(LowerSigma1(Schedule(m, t - 2)), Schedule(m, t - 7), LowerSigma0(Schedule(m, t - 15)), Schedule(m, t - 16))
  }

  function T1(s: State, k: Word, w: Word): Word { Plus(Plus(Plus(Plus(s.h, UpperSigma1(s.e)), Ch(s.e, s.f, s.g)), k), w) }

  function T2(s: State): Word { Plus(UpperSigma0(s.a), Maj(s.a, s.b, s.c)) }

  function Step(s: State, k: Word, w: Word): State
  {
    State(Plus(T1(s, k, w), T2(s)), s.a, s.b, s.c, Plus(s.d, T1(s, k, w)), s.e, s.f, s.g)
  }

  /** The working variables after t steps. */
  function Steps(s: State, m: seq<Word>, t: nat): State
    requires |m| == 16 && t <= 64
  {
    if t == 0 then s else Step(Steps(s, m, t - 1), Constant(t - 1), Schedule(m, t - 1))
  }

  function Add(s: State, v: State): State
  {
    State(Plus(s.a, v.a), Plus(s.b, v.b), Plus(s.c, v.c), Plus(s.d, v.d),
          Plus(s.e, v.e), Plus(s.f, v.f), Plus(s.g, v.g), Plus(s.h, v.h))
  }

  function CompressWords(s: State, m: seq<Word>): State
    requires |m| == 16
  {
    Add(s, Steps(s, m, 64))
  }

  /** The big-endian word of four bytes. */
  function BigEndian32(b0: byte, b1: byte, b2: byte, b3: byte): Word
  {
    JoinBytes(b0 as bv8, b1 as bv8, b2 as bv8, b3 as bv8)
  }

  function BlockWords(block: seq<byte>): (m: seq<Word>)
    requires |block| == 64
    ensures |m| == 16
  {
    seq(16, j requires 0 <= j < 16 => BigEndian32(block[4 * j], block[4 * j + 1], block[4 * j + 2], block[4 * j + 3]))
  }

  function Compress(s: State, block: seq<byte>): State
    requires |block| == 64
  {
    CompressWords(s, BlockWords(block))
  }

  /** The state after all blocks of a message. */
  function CompressAll(s: State, m: seq<byte>): State
    requires |m| % 64 == 0
  {
    if |m| == 0 then s else Compress(CompressAll(s, m[..|m| - 64]), m[|m| - 64..])
  }

  lemma CompressOne(s: State, m: seq<byte>, block: seq<byte>)
    requires |m| % 64 == 0 && |block| == 64
    ensures CompressAll(s, m + block) == Compress(CompressAll(s, m), block)
  {
    assert (m + block)[..|m|] == m && (m + block)[|m|..] == block;
  }

  /** Compression may be interrupted at any block. */
  lemma {:induction false} CompressAppend(s: State, x: seq<byte>, y: seq<byte>)
    requires |x| % 64 == 0 && |y| % 64 == 0
    ensures CompressAll(s, x + y) == CompressAll(CompressAll(s, x), y)
    decreases |y|
  {
    hide Compress, CompressAll;
    if |y| == 0 {
      NothingToCompress(CompressAll(s, x));
      assert x + y == x;
    } else {
      var n := |y| - 64;
      assert x + y[..n] + y[n..] == x + y && y == y[..n] + y[n..];
      CompressAppend(s, x, y[..n]);
      CompressOne(CompressAll(s, x), y[..n], y[n..]);
      CompressOne(s, x + y[..n], y[n..]);
    }
  }

  lemma NothingToCompress(h: State)
    ensures CompressAll(h, []) == h
  {}

  // ---------- section 5.1.1: padding, and the digest ----------

  /** The n big-endian bytes of v. */
  function BytesOf(v: nat, n: nat): (b: seq<byte>)
    ensures |b| == n
  {
    Digits(v, 256, n)
  }

  /** How many zero bytes follow the first padding byte. */
  function ZeroCount(l: nat): (k: nat)
    ensures (l + 1 + k + 8) % 64 == 0 && k < 64
  {
    (119 - l % 64) % 64
  }

  /** m padded, with the length field saying v. */
  function PaddedSaying(m: seq<byte>, v: nat): (p: seq<byte>)
    ensures |p| % 64 == 0
  {
    m + [0x80] + Zeros(ZeroCount(|m|)) + BytesOf(v, 8)
  }

  /** The padded message of FIPS 180-4: the length field holds the length in bits. */
  function Padded(m: seq<byte>): (p: seq<byte>)
    ensures |p| % 64 == 0
  {
    PaddedSaying(m, 8 * |m|)
  }

  function StateWords(s: State): (w: seq<Word>)
    ensures |w| == 8
  {
    [s.a, s.b, s.c, s.d, s.e, s.f, s.g, s.h]
  }

  /** The big-endian bytes of a sequence of words. */
  function WordBytes(w: seq<Word>): (d: seq<byte>)
    ensures |d| == 4 * |w|
  {
    if |w| == 0 then [] else WordBytes(w[..|w| - 1]) + BytesOf(w[|w| - 1] as nat, 4)
  }

  lemma WordBytesSnoc(w: seq<Word>, x: Word)
    ensures WordBytes(w + [x]) == WordBytes(w) + BytesOf(x as nat, 4)
  {
    hide BytesOf;
    assert (w + [x])[..|w|] == w;
  }

  function StateBytes(s: State): (d: seq<byte>)
    ensures |d| == 32
  {
    WordBytes(StateWords(s))
  }

  /** The SHA-256 digest of a message. */
  function Digest(m: seq<byte>): (d: seq<byte>)
    ensures |d| == 32
  {
    StateBytes(CompressAll(INITIAL, Padded(m)))
  }
}
