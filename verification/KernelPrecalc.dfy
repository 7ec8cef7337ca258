/** simplePrecalcSHA256 of sha256.cpp: what the mining kernel is given for a block header. The
    word of the nonce is never assigned in the source; no value given out depends on it. */
module KernelPrecalc {
  import opened Bits
  import opened WordLogic
  import opened Sha256
  import opened Sha256Class
  import Sha256Export

  /** A little-endian load of four bytes of the header. */
  function LoadWord(block: seq<byte>, i: nat): Word
    requires i + 4 <= |block|
  {
    JoinBytes(block[i + 3] as bv8, block[i + 2] as bv8, block[i + 1] as bv8, block[i] as bv8)
  }

  function sha2_pack(val: Word): Word { SwapBytes(val) }

  lemma PackLoad(block: seq<byte>, i: nat)
    requires i + 4 <= |block|
    ensures sha2_pack(LoadWord(block, i)) == BigEndian32(block[i], block[i + 1], block[i + 2], block[i + 3])
  {
    hide JoinBytes, SwapBytes;
    SwapJoined(block[i] as bv8, block[i + 1] as bv8, block[i + 2] as bv8, block[i + 3] as bv8);
  }

  /** The second block of the hash of an 80-byte header, whose nonce is one word. */
  ghost function SecondBlock(header: seq<byte>, nonce: Word): (m: seq<Word>)
    requires |header| >= 76
    ensures |m| == 16
  {
    [BigEndian32(header[64], header[65], header[66], header[67]),
     BigEndian32(header[68], header[69], header[70], header[71]),
     BigEndian32(header[72], header[73], header[74], header[75]),
     nonce, 0x80000000, 0, 0, 0, 0, 0, 0, 0, 0, 0, 0, 640]
  }

  lemma Length640()
    ensures BytesOf(640, 8) == [0, 0, 0, 0, 0, 0, 2, 0x80]
  {
    HighDigitsZero(0, 256, 0, 6);
    QuotRemUnique(2, 256, 0, 2);
    QuotRemUnique(640, 256, 2, 128);
    hide Quot, Rem;
    assert Digits(640, 256, 8) == Digits(2, 256, 7) + [128] == Digits(0, 256, 6) + [2] + [128];
  }

  lemma PaddingWords()
    ensures BigEndian32(0x80, 0, 0, 0) == 0x80000000 && BigEndian32(0, 0, 0, 0) == 0 && BigEndian32(0, 0, 2, 0x80) == 640
  {}

  lemma HeaderPadding(header: seq<byte>)
    requires |header| == 80
    ensures |Padded(header)| == 128 && Padded(header)[..64] == header[..64]
    ensures Padded(header)[64..] == header[64..] + [0x80] + Zeros(39) + [0, 0, 0, 0, 0, 0, 2, 0x80]
  {
    hide BytesOf;
    assert ZeroCount(80) == 39;
    Length640();
  }

  /** For a whole header it is the second block of the padded message. */
  lemma SecondBlockIsPadding(header: seq<byte>)
    requires |header| == 80
    ensures |Padded(header)| == 128 && Padded(header)[..64] == header[..64]
    ensures BlockWords(Padded(header)[64..]) == SecondBlock(header, BigEndian32(header[76], header[77], header[78], header[79]))
  {
    hide Padded, BigEndian32, Zeros, SecondBlock, BlockWords;
    HeaderPadding(header);
    var p := Padded(header)[64..];
    forall i | 0 <= i < 16 ensures p[i] == header[64 + i] {}
    assert p[16] == 0x80 && forall i :: 17 <= i < 62 ==> p[i] == 0;
    assert p[62] == 2 && p[63] == 0x80;
    PaddingBlockWords(header, p);
  }

  lemma PaddingBlockWords(header: seq<byte>, p: seq<byte>)
    requires |header| == 80 && |p| == 64 && forall i :: 0 <= i < 16 ==> p[i] == header[64 + i]
    requires p[16] == 0x80 && p[62] == 2 && p[63] == 0x80 && forall i :: 17 <= i < 62 ==> p[i] == 0
    ensures BlockWords(p) == SecondBlock(header, BigEndian32(header[76], header[77], header[78], header[79]))
  {
    PaddingWords();
    hide BigEndian32;
    forall j | 5 <= j < 15
      ensures BigEndian32(p[4 * j], p[4 * j + 1], p[4 * j + 2], p[4 * j + 3]) == 0
    {
      assert p[4 * j] == p[4 * j + 1] == p[4 * j + 2] == p[4 * j + 3] == 0;
    }
    var w, x := BlockWords(p), SecondBlock(header, BigEndian32(header[76], header[77], header[78], header[79]));
    assert forall j :: 0 <= j < 4 ==> w[j] == x[j];
    assert w[4] == x[4] && w[15] == x[15];
    assert forall j :: 5 <= j < 15 ==> w[j] == x[j];
  }

  /** The digest of a header continues the midstate with its second block. */
  lemma DigestFromMidstate(header: seq<byte>)
    requires |header| == 80
    ensures var nonce := BigEndian32(header[76], header[77], header[78], header[79]);
            Digest(header) == StateBytes(CompressWords(Compress(INITIAL, header[..64]), SecondBlock(header, nonce)))
  {
    hide Padded, SecondBlock, CompressWords, BigEndian32, StateBytes, CompressAll;
    SecondBlockIsPadding(header);
    var p := Padded(header);
    assert p == header[..64] + p[64..] && header[..64] == [] + header[..64];
    NothingToCompress(INITIAL);
    CompressOne(INITIAL, [], header[..64]);
    CompressOne(INITIAL, header[..64], p[64..]);
  }

  /** The values given out, by kernel argument number from 4 on. */
  ghost function KernelArguments(mid: State, m: seq<Word>): seq<Word>
    requires |m| == 16
  {
    [m[0], m[1], m[2], Schedule(m, 16), Schedule(m, 17),
     Steps(mid, m, 1).a, Steps(mid, m, 2).a, Steps(mid, m, 3).a,
     Steps(mid, m, 1).e, Steps(mid, m, 2).e, Steps(mid, m, 3).e, T2(Steps(mid, m, 3))]
  }

  lemma {:induction false} StepsIgnoreLaterWords(mid: State, m: seq<Word>, m': seq<Word>, t: nat)
    requires |m| == |m'| == 16 && t <= 16 && m[..t] == m'[..t]
    ensures Steps(mid, m, t) == Steps(mid, m', t)
  {
    hide Step, Constant;
    if t > 0 {
      assert m[..t - 1] == m[..t][..t - 1] && m'[..t - 1] == m'[..t][..t - 1];
      StepsIgnoreLaterWords(mid, m, m', t - 1);
      assert m[t - 1] == m[..t][t - 1] == m'[..t][t - 1];
    }
  }

  /** Words 16 and 17 of the schedule, and the first three rounds, do not see the nonce. */
  lemma ArgumentsIgnoreNonce(mid: State, header: seq<byte>, nonce: Word, nonce': Word)
    requires |header| >= 76
    ensures KernelArguments(mid, SecondBlock(header, nonce)) == KernelArguments(mid, SecondBlock(header, nonce'))
  {
    hide Steps, Sum4, LowerSigma0, LowerSigma1, T2, SecondBlock;
    var m := SecondBlock(header, nonce);
    OnlyTheNonce(header, nonce, nonce');
    var m' := m[3 := nonce'];
    assert m[..1] == m'[..1] && m[..2] == m'[..2] && m[..3] == m'[..3];
    StepsIgnoreLaterWords(mid, m, m', 1);
    StepsIgnoreLaterWords(mid, m, m', 2);
    StepsIgnoreLaterWords(mid, m, m', 3);
    assert Schedule(m, 16) == Schedule(m', 16);
    assert Schedule(m, 17) == Schedule(m', 17);
  }

  lemma OnlyTheNonce(header: seq<byte>, nonce: Word, nonce': Word)
    requires |header| >= 76
    ensures SecondBlock(header, nonce') == SecondBlock(header, nonce)[3 := nonce']
  {
    hide BigEndian32;
  }

  method Midstate(block: seq<byte>) returns (h: array<Word>)
    requires |block| >= 64
    ensures fresh(h) && h.Length == 8 && Load(h[..]) == Compress(INITIAL, block[..64])
  {
    hide Compress, CompressAll, Load, SHA_256.Valid;
    var sha := new SHA_256();
    sha.init();
    sha.transform(block, 1);
    CompressFirst(block);
    h := sha.m_h;
  }

  /** simplePrecalcSHA256: unassigned is whatever msg[3] happens to hold. The midstate is that of
      the header's first block, and the arguments are right for every nonce. */
  method SimplePrecalc(block: seq<byte>, unassigned: Word) returns (midstate: State, arguments: seq<Word>)
    requires |block| >= 76
    ensures midstate == Compress(INITIAL, block[..64])
    ensures forall nonce :: arguments == KernelArguments(midstate, SecondBlock(block, nonce))
  {
    hide Compress, Steps, Schedule, T1, T2, ExportMessage, SecondBlock, Load, Sha256Export.KeptAt, KernelArguments;
    var h := Midstate(block);
    midstate := Load(h[..]);
    var msg := ExportMessage(block, unassigned);
    var w, temp1, temp2, new1, new2 := Sha256Export.Export(msg, h);
    arguments := [msg[0], msg[1], msg[2], w[16], w[17], new1[0], new1[1], new1[2], new2[0], new2[1], new2[2], temp2[3]];
    ArgumentsKept(midstate, msg, w[..], temp1[..], temp2[..], new1[..], new2[..]);
    ArgumentsForEveryNonce(midstate, block, unassigned);
  }

  lemma ArgumentsForEveryNonce(mid: State, block: seq<byte>, unassigned: Word)
    requires |block| >= 76
    ensures forall nonce ::
              KernelArguments(mid, SecondBlock(block, nonce)) == KernelArguments(mid, SecondBlock(block, unassigned))
  {
    hide KernelArguments, SecondBlock;
    forall nonce ensures KernelArguments(mid, SecondBlock(block, nonce)) == KernelArguments(mid, SecondBlock(block, unassigned)) {
      ArgumentsIgnoreNonce(mid, block, unassigned, nonce);
    }
  }

  /** msg as the source fills it in. */
  function ExportMessage(block: seq<byte>, unassigned: Word): (msg: seq<Word>)
    requires |block| >= 76
    ensures msg == SecondBlock(block, unassigned)
  {
    hide LoadWord, BigEndian32, sha2_pack;
    PackLoad(block, 64);
    PackLoad(block, 68);
    PackLoad(block, 72);
    PackMarker();
    [sha2_pack(LoadWord(block, 64)), sha2_pack(LoadWord(block, 68)), sha2_pack(LoadWord(block, 72)),
     unassigned, sha2_pack(0x80), 0, 0, 0, 0, 0, 0, 0, 0, 0, 0, 640]
  }

  lemma PackMarker()
    ensures sha2_pack(0x80) == 0x80000000
  {}

  lemma CompressFirst(block: seq<byte>)
    requires |block| >= 64
    ensures CompressAll(INITIAL, block[..64]) == Compress(INITIAL, block[..64])
  {
    hide Compress;
    NothingToCompress(INITIAL);
    CompressOne(INITIAL, [], block[..64]);
    assert [] + block[..64] == block[..64];
  }

  lemma ArgumentsKept(mid: State, msg: seq<Word>, w: seq<Word>, temp1: seq<Word>, temp2: seq<Word>, new1: seq<Word>, new2: seq<Word>)
    requires |msg| == 16 && |w| == |temp1| == |temp2| == |new1| == |new2| == 64
    requires forall i :: 0 <= i < 64 ==> w[i] == Schedule(msg, i)
    requires forall i :: 0 <= i < 64 ==> Sha256Export.KeptAt(mid, msg, i, temp1[i], temp2[i], new1[i], new2[i])
    ensures KernelArguments(mid, msg)
         == [msg[0], msg[1], msg[2], w[16], w[17], new1[0], new1[1], new1[2], new2[0], new2[1], new2[2], temp2[3]]
  {
    hide Steps, Schedule, T1, T2, Constant, Sha256Export.KeptAt;
    assert forall i :: 0 <= i <= 3 ==> Sha256Export.KeptAt(mid, msg, i, temp1[i], temp2[i], new1[i], new2[i]);
    KeptGives(mid, msg, 0, temp1[0], temp2[0], new1[0], new2[0]);
    KeptGives(mid, msg, 1, temp1[1], temp2[1], new1[1], new2[1]);
    KeptGives(mid, msg, 2, temp1[2], temp2[2], new1[2], new2[2]);
    KeptGives(mid, msg, 3, temp1[3], temp2[3], new1[3], new2[3]);
  }

  lemma KeptGives(s: State, msg: seq<Word>, i: nat, temp1: Word, temp2: Word, new1: Word, new2: Word)
    requires |msg| == 16 && i < 64 && Sha256Export.KeptAt(s, msg, i, temp1, temp2, new1, new2)
    ensures temp2 == T2(Steps(s, msg, i)) && new1 == Steps(s, msg, i + 1).a && new2 == Steps(s, msg, i + 1).e
  {}
}
