/** The class SHA_256 of sha256.cpp: the compression loop over a 64-word schedule, and the
    block-buffered front end, both proved against FIPS 180-4. */
module Sha256Class {
  import opened Bits
  import opened Sha256
  import opened WordLogic

  const BLOCK_SIZE := 64

  // ---------- the macros of sha256.h ----------

  function SHA2_CH(x: Word, y: Word, z: Word): (r: Word)
    ensures r == Ch(x, y, z)
  {
    (x & y) ^ (!x & z)
  }

  function SHA2_MAJ(x: Word, y: Word, z: Word): (r: Word)
    ensures r == Maj(x, y, z)
  {
    (x & y) ^ (x & z) ^ (y & z)
  }

  function SHA256_F1(x: Word): (r: Word)
    ensures r == UpperSigma0(x)
  {
    ((x >> 2) | (x << 30)) ^ ((x >> 13) | (x << 19)) ^ ((x >> 22) | (x << 10))
  }

  function SHA256_F2(x: Word): (r: Word)
    ensures r == UpperSigma1(x)
  {
    ((x >> 6) | (x << 26)) ^ ((x >> 11) | (x << 21)) ^ ((x >> 25) | (x << 7))
  }

  function SHA256_F3(x: Word): (r: Word)
    ensures r == LowerSigma0(x)
  {
    ((x >> 7) | (x << 25)) ^ ((x >> 18) | (x << 14)) ^ ((x >> 3))
  }

  function SHA256_F4(x: Word): (r: Word)
    ensures r == LowerSigma1(x)
  {
    ((x >> 17) | (x << 15)) ^ ((x >> 19) | (x << 13)) ^ ((x >> 10))
  }

  /** SHA2_PACK32: the big-endian word at position i. */
  function SHA2_PACK32(str: seq<byte>, i: nat): Word
    requires i + 4 <= |str|
  {
    BigEndian32(str[i], str[i + 1], str[i + 2], str[i + 3])
  }

  function Load(h: seq<Word>): State
    requires |h| == 8
  {
    State(h[0], h[1], h[2], h[3], h[4], h[5], h[6], h[7])
  }

  // ---------- transform ----------

  /** The first two inner loops of transform: the 64 words of the message schedule. */
  method FillSchedule(sub_block: seq<byte>) returns (w: array<Word>)
    requires |sub_block| == 64
    ensures fresh(w) && w.Length == 64
    ensures forall t :: 0 <= t < 64 ==> w[t] == Schedule(BlockWords(sub_block), t)
  {
    hide BigEndian32;
    ghost var m := BlockWords(sub_block);
    w := new Word[64];
    var j := 0;
    while j < 16
      invariant 0 <= j <= 16
      invariant forall t :: 0 <= t < j ==> w[t] == Schedule(m, t)
    {
      w[j] := SHA2_PACK32(sub_block, 4 * j);
      j := j + 1;
    }
    ExtendSchedule(w, m);
  }

  /** The second inner loop of transform. */
  method ExtendSchedule(w: array<Word>, ghost m: seq<Word>)
    requires w.Length == 64 && |m| == 16 && forall t :: 0 <= t < 16 ==> w[t] == Schedule(m, t)
    modifies w
    ensures forall t :: 0 <= t < 64 ==> w[t] == Schedule(m, t)
  {
    hide Sum4, SHA256_F3, SHA256_F4, LowerSigma0, LowerSigma1, Schedule;
    var j := 16;
    while j < 64
      invariant 16 <= j <= 64
      invariant forall t :: 0 <= t < j ==> w[t] == Schedule(m, t)
    {
      var x := Sum4(SHA256_F4(w[j - 2]), w[j - 7], SHA256_F3(w[j - 15]), w[j - 16]);
      ScheduleAt(m, j, w[..j], x);
      w[j] := x;
      j := j + 1;
    }
  }

  /** The next word from the words before it. */
  lemma ScheduleAt(m: seq<Word>, j: nat, w: seq<Word>, x: Word)
    requires |m| == 16 && 16 <= j == |w|
    requires forall t :: 0 <= t < j ==> w[t] == Schedule(m, t)
    requires x == Sum4(LowerSigma1(w[j - 2]), w[j - 7], LowerSigma0(w[j - 15]), w[j - 16])
    ensures x == Schedule(m, j)
  {
    hide Sum4, LowerSigma0, LowerSigma1;
  }

  /** The 64 rounds on the working variables. */
  method RunRounds(h: array<Word>, w: array<Word>, ghost m: seq<Word>) returns (wv: array<Word>)
    requires h.Length == 8 && w.Length == 64 && |m| == 16
    requires forall t :: 0 <= t < 64 ==> w[t] == Schedule(m, t)
    ensures fresh(wv) && wv.Length == 8 && Load(wv[..]) == Steps(Load(h[..]), m, 64)
  {
    wv := new Word[8];
    var j := 0;
    while j < 8
      invariant 0 <= j <= 8
      invariant wv[..j] == h[..j]
    {
      wv[j] := h[j];
      j := j + 1;
    }
    assert wv[..] == h[..];
    j := 0;
    while j < 64
      invariant 0 <= j <= 64
      invariant Load(wv[..]) == Steps(Load(h[..]), m, j)
    {
      hide Step, Schedule;
      Round(wv, Constant(j), w[j]);
      j := j + 1;
    }
  }

  /** The body of the round loop: all eight variables shift by one. */
  method Round(wv: array<Word>, k: Word, w: Word)
    requires wv.Length == 8
    modifies wv
    ensures Load(wv[..]) == Step(Load(old(wv[..])), k, w)
  {
    hide Plus, Ch, Maj, UpperSigma0, UpperSigma1, SHA256_F1, SHA256_F2, SHA2_CH, SHA2_MAJ;
    var t1 := Plus(Plus(Plus(Plus(wv[7], SHA256_F2(wv[4])), SHA2_CH(wv[4], wv[5], wv[6])), k), w);
    var t2 := Plus(SHA256_F1(wv[0]), SHA2_MAJ(wv[0], wv[1], wv[2]));
    wv[7] := wv[6];
    wv[6] := wv[5];
    wv[5] := wv[4];
    wv[4] := Plus(wv[3], t1);
    wv[3] := wv[2];
    wv[2] := wv[1];
    wv[1] := wv[0];
    wv[0] := Plus(t1, t2);
  }

  // ---------- the front end ----------

  /** The message bytes a front end has taken in, and what the length counters say about them. */
  ghost predicate Buffered(sent: seq<byte>, h: State, block: seq<byte>, len: nat)
  {
    len < BLOCK_SIZE && len <= |block| && len == |sent| % BLOCK_SIZE
    && h == CompressAll(INITIAL, sent[..|sent| - len])
    && block[..len] == sent[|sent| - len..]
  }

  /** A 32-bit counter of n, which wraps around. */
  ghost predicate Wrapped(counter: nat, n: nat) { counter == n % 0x1_0000_0000 }

  /** m_tot_len and m_len are 32-bit unsigned; m_tot_len wraps around. */
  class SHA_256 {
    var m_tot_len: nat
    var m_len: nat
    const m_block: array<byte>
    const m_h: array<Word>
    ghost var sent: seq<byte>     // all bytes given to update since init

    ghost predicate Allocated()
      reads this
    {
      m_block.Length == 2 * BLOCK_SIZE && m_h.Length == 8 && m_tot_len < 0x1_0000_0000
    }

    ghost predicate Valid()
      reads this, m_block, m_h
    {
      Allocated() && Buffered(sent, Load(m_h[..]), m_block[..], m_len)
      && m_len <= |sent| && Wrapped(m_tot_len, |sent| - m_len)
    }

    constructor ()
      ensures Allocated() && fresh(m_block) && fresh(m_h)
    {
      m_tot_len, m_len := 0, 0;
      m_block := new byte[2 * BLOCK_SIZE];
      m_h := new Word[8];
      sent := [];
    }

    method init()
      requires Allocated()
      modifies this, m_h
      ensures Valid() && sent == [] && Load(m_h[..]) == INITIAL
    {
      m_h[0] := 0x6a09e667;
      m_h[1] := 0xbb67ae85;
      m_h[2] := 0x3c6ef372;
      m_h[3] := 0xa54ff53a;
      m_h[4] := 0x510e527f;
      m_h[5] := 0x9b05688c;
      m_h[6] := 0x1f83d9ab;
      m_h[7] := 0x5be0cd19;
      m_len := 0;
      m_tot_len := 0;
      sent := [];
    }

    /** transform: m_h takes in block_nb blocks of the message, one after the other. */
    method transform(message: seq<byte>, block_nb: nat)
      requires m_h.Length == 8 && BLOCK_SIZE * block_nb <= |message|
      modifies m_h
      ensures Load(m_h[..]) == CompressAll(Load(old(m_h[..])), message[..BLOCK_SIZE * block_nb])
    {
      hide Load, Compress, CompressAll;
      var i := 0;
      NoBlocks(Load(m_h[..]));
      while i < block_nb
        invariant 0 <= i <= block_nb
        invariant Load(m_h[..]) == CompressAll(Load(old(m_h[..])), message[..BLOCK_SIZE * i])
      {
        var sub_block := message[BLOCK_SIZE * i..][..BLOCK_SIZE];
        transformBlock(sub_block);
        CompressOne(Load(old(m_h[..])), message[..BLOCK_SIZE * i], sub_block);
        NextBlock(message, i);
        i := i + 1;
      }
    }

    /** One turn of the outer loop of transform. */
    method transformBlock(sub_block: seq<byte>)
      requires m_h.Length == 8 && |sub_block| == BLOCK_SIZE
      modifies m_h
      ensures Load(m_h[..]) == Compress(Load(old(m_h[..])), sub_block)
    {
      hide Schedule, Plus, Steps, BlockWords;
      var w := FillSchedule(sub_block);
      var wv := RunRounds(m_h, w, BlockWords(sub_block));
      ghost var h0, v0 := m_h[..], wv[..];
      var j := 0;
      while j < 8
        invariant 0 <= j <= 8
        invariant wv[..] == v0
        invariant forall i :: 0 <= i < j ==> m_h[i] == Plus(h0[i], v0[i])
        invariant forall i :: j <= i < 8 ==> m_h[i] == h0[i]
      {
        m_h[j] := Plus(m_h[j], wv[j]);
        j := j + 1;
      }
    }

    /** update: the message joins the bytes taken in. Lengths are unsigned ints and block offsets
        ints, so one call takes less than 2^31 bytes. */
    method update(message: seq<byte>)
      requires Valid() && |message| < 0x8000_0000
      modifies this, m_block, m_h
      ensures Valid() && sent == old(sent) + message
    {
      hide Load, Compress, CompressAll, Buffered, Wrapped, Whole, Tail;
      var len := |message|;
      LenIsShort(sent, Load(m_h[..]), m_block[..], m_len);
      var tmp_len := BLOCK_SIZE - m_len;
      var rem_len := if len < tmp_len then len else tmp_len;
      Copy(m_block, m_len, message[..rem_len]);
      ghost var was := old(m_block[..]);
      if m_len + len < BLOCK_SIZE {
        assert message[..rem_len] == message;
        BytesBuffered(sent, Load(m_h[..]), was, m_len, message, m_block[..]);
        m_len := m_len + len;
        sent := sent + message;
        return;
      }
      assert m_block[..BLOCK_SIZE] == was[..m_len] + message[..rem_len];
      rem_len := TakeBlocks(message[rem_len..], was[..m_len] + message[..rem_len]);
      BlocksTaken(sent, Load(old(m_h[..])), was, m_len, message, Load(m_h[..]), m_block[..], m_tot_len);
      m_tot_len := (m_tot_len + BLOCK_SIZE * ((len - (BLOCK_SIZE - m_len)) / BLOCK_SIZE + 1)) % 0x1_0000_0000;
      m_len := rem_len;
      sent := sent + message;
    }

    /** The rest of update once m_block is full: it, and the whole blocks that follow, are
        compressed; what is left starts the next block. */
    method TakeBlocks(shifted_message: seq<byte>, ghost first: seq<byte>) returns (rem_len: nat)
      requires Allocated() && |first| == BLOCK_SIZE && m_block[..BLOCK_SIZE] == first
      modifies m_block, m_h
      ensures Load(m_h[..]) == CompressAll(Load(old(m_h[..])), first + Whole(shifted_message))
      ensures rem_len == |Tail(shifted_message)| && m_block[..rem_len] == Tail(shifted_message)
    {
      hide Load, Compress, CompressAll;
      var block_nb := |shifted_message| / BLOCK_SIZE;
      transform(m_block[..], 1);
      assert m_block[..][..BLOCK_SIZE] == first;
      transform(shifted_message, block_nb);
      CompressAppend(Load(old(m_h[..])), first, Whole(shifted_message));
      rem_len := |shifted_message| % BLOCK_SIZE;
      Copy(m_block, 0, Tail(shifted_message));
    }

    /** final: the padded message is compressed. Its length field holds 32 bits only. */
    method final(digest: array<byte>)
      requires Valid() && digest.Length == 32 && digest != m_block
      modifies m_block, m_h, digest
      ensures digest[..] == StateBytes(CompressAll(INITIAL, PaddedSaying(sent, 8 * |sent| % 0x1_0000_0000)))
    {
      hide Load, Compress, CompressAll, Buffered, StateBytes, PaddedSaying, BytesOf, Zeros, Digits;
      LenIsShort(sent, Load(m_h[..]), m_block[..], m_len);
      var block_nb := 1 + if BLOCK_SIZE - 9 < m_len % BLOCK_SIZE then 1 else 0;
      var len_b := (m_tot_len + m_len) * 8 % 0x1_0000_0000;
      LengthWraps(m_tot_len, |sent| - m_len, m_len);
      var pm_len := BLOCK_SIZE * block_nb;
      ghost var end := m_block[..m_len] + [0x80] + Zeros(pm_len - m_len - 5) + BytesOf(len_b, 4);
      WritePadding(m_block, m_len, pm_len, len_b);
      transform(m_block[..], block_nb);
      PaddingEnds(sent, old(Load(m_h[..])), old(m_block[..]), m_len, len_b, end);
      UnpackWords(m_h, digest);
    }
  }

  lemma NoBlocks(s: State)
    ensures CompressAll(s, []) == s
  {}

  lemma NextBlock(message: seq<byte>, i: nat)
    requires BLOCK_SIZE * (i + 1) <= |message|
    ensures message[..BLOCK_SIZE * i] + message[BLOCK_SIZE * i..][..BLOCK_SIZE] == message[..BLOCK_SIZE * (i + 1)]
  {}

  /** The padding writes of final: zeros, the first byte 0x80, and the length at the end. */
  method WritePadding(m_block: array<byte>, m_len: nat, pm_len: nat, len_b: nat)
    requires m_len + 5 <= pm_len <= m_block.Length
    modifies m_block
    ensures m_block[..pm_len] == old(m_block[..m_len]) + [0x80] + Zeros(pm_len - m_len - 5) + BytesOf(len_b, 4)
  {
    hide BytesOf, Zeros;
    Copy(m_block, m_len, Zeros(pm_len - m_len));
    m_block[m_len] := 0x80;
    Copy(m_block, pm_len - 4, BytesOf(len_b, 4));
  }

  /** The length field computed from wrapped counters. */
  lemma LengthWraps(counter: nat, total: nat, len: nat)
    requires Wrapped(counter, total)
    ensures (counter + len) * 8 % 0x1_0000_0000 == 8 * (total + len) % 0x1_0000_0000
  {
    var q := total / 0x1_0000_0000;
    AddTurns((counter + len) * 8, 8 * q);
    assert (counter + len) * 8 + 8 * q * 0x1_0000_0000 == 8 * (total + len);
  }

  lemma AddTurns(x: nat, q: nat)
    ensures (x + q * 0x1_0000_0000) % 0x1_0000_0000 == x % 0x1_0000_0000
  {}

  /** The four bytes above a 32-bit length are zero. */
  lemma LengthField(v: nat)
    requires v < 0x1_0000_0000
    ensures BytesOf(v, 8) == Zeros(4) + BytesOf(v, 4)
  {
    assert Power(256, 4) == 0x1_0000_0000;
    HighDigitsZero(v, 256, 4, 4);
  }

  /** A number that fits in n digits has k zeros in front of them. */
  lemma {:induction false} HighDigitsZero(v: nat, base: nat, n: nat, k: nat)
    requires base > 0 && v < Power(base, n)
    ensures Digits(v, base, k + n) == seq(k, i => 0) + Digits(v, base, n)
    decreases k + n
  {
    if n > 0 {
      QuotBound(v, base, Power(base, n - 1));
      HighDigitsZero(Quot(v, base), base, n - 1, k);
    } else if k > 0 {
      HighDigitsZero(0, base, 0, k - 1);
    }
  }

  /** The end of the padded message, from the last block boundary of the message on. */
  lemma PaddingEnds(sent: seq<byte>, h: State, block: seq<byte>, len: nat, v: nat, end: seq<byte>)
    requires Buffered(sent, h, block, len) && v < 0x1_0000_0000
    requires |end| == if len <= 55 then 64 else 128
    requires end == block[..len] + [0x80] + Zeros(|end| - len - 5) + BytesOf(v, 4)
    ensures CompressAll(h, end) == CompressAll(INITIAL, PaddedSaying(sent, v))
  {
    hide CompressAll, BytesOf;
    LengthField(v);
    var base := sent[..|sent| - len];
    var k := ZeroCount(|sent|);
    assert k == |end| - len - 9;
    assert Zeros(k) + Zeros(4) == Zeros(k + 4);
    assert PaddedSaying(sent, v) == base + end;
    CompressAppend(INITIAL, base, end);
  }

  /** The whole blocks at the front of s, and what is left. */
  function Whole(s: seq<byte>): (w: seq<byte>)
    ensures |w| % BLOCK_SIZE == 0 && |w| == |s| / BLOCK_SIZE * BLOCK_SIZE
  {
    s[..|s| / BLOCK_SIZE * BLOCK_SIZE]
  }

  function Tail(s: seq<byte>): (t: seq<byte>)
    ensures |t| == |s| % BLOCK_SIZE && Whole(s) + t == s
  {
    s[|s| / BLOCK_SIZE * BLOCK_SIZE..]
  }

  /** Filling up a partial block first does not change the division into blocks. */
  lemma Divide(x: seq<byte>, y: seq<byte>)
    requires |x| < BLOCK_SIZE <= |x| + |y|
    ensures var n := BLOCK_SIZE - |x|;
            Whole(x + y) == x + y[..n] + Whole(y[n..]) && Tail(x + y) == Tail(y[n..])
    ensures |Whole(x + y)| == BLOCK_SIZE * ((|y| - (BLOCK_SIZE - |x|)) / BLOCK_SIZE + 1)
  {
    var n := BLOCK_SIZE - |x|;
    assert x + y == x + y[..n] + y[n..];
  }

  /** What update has done when the message fits into the block. */
  lemma BytesBuffered(sent: seq<byte>, h: State, block: seq<byte>, len: nat, message: seq<byte>, block': seq<byte>)
    requires Buffered(sent, h, block, len) && len + |message| < BLOCK_SIZE && len + |message| <= |block'|
    requires len <= |block| && block'[..len + |message|] == block[..len] + message
    ensures Buffered(sent + message, h, block', len + |message|)
    ensures len + |message| == |sent + message| % BLOCK_SIZE
  {
    hide Buffered, CompressAll;
    NothingToCompress(h);
    LenIsShort(sent, h, block, len);
    var tail := block[..len] + message;
    assert [] + tail == tail;
    Absorb(sent, h, block, len, message, [], tail, h, block');
    LenIsShort(sent + message, h, block', |tail|);
  }

  /** What update has done when the message completed a block. */
  lemma BlocksTaken(sent: seq<byte>, h: State, block: seq<byte>, len: nat, message: seq<byte>,
                    h': State, block': seq<byte>, counter: nat)
    requires Buffered(sent, h, block, len) && len + |message| >= BLOCK_SIZE
    requires var n := BLOCK_SIZE - len;
             var tail := Tail(message[n..]);
             h' == CompressAll(h, block[..len] + message[..n] + Whole(message[n..]))
             && |tail| <= |block'| && block'[..|tail|] == tail
    requires len <= |sent| && Wrapped(counter, |sent| - len)
    ensures var n := BLOCK_SIZE - len;
            Buffered(sent + message, h', block', |Tail(message[n..])|)
            && |Tail(message[n..])| <= |sent + message|
            && Wrapped((counter + BLOCK_SIZE * ((|message| - n) / BLOCK_SIZE + 1)) % 0x1_0000_0000,
                       |sent + message| - |Tail(message[n..])|)
  {
    hide CompressAll, Buffered, Whole, Tail;
    LenIsShort(sent, h, block, len);
    var x := block[..len];
    Divide(x, message);
    var whole, tail := Whole(x + message), Tail(x + message);
    assert |sent + message| - |tail| == |sent| - len + |whole|;
    Absorb(sent, h, block, len, message, whole, tail, h', block');
    TotalWraps(|sent| - len, counter, |whole|);
  }

  lemma LenIsShort(sent: seq<byte>, h: State, block: seq<byte>, len: nat)
    requires Buffered(sent, h, block, len)
    ensures len < BLOCK_SIZE && len <= |block| && len <= |sent| && (|sent| - len) % BLOCK_SIZE == 0
    ensures len == |sent| % BLOCK_SIZE
  {}

  lemma TotalWraps(total: nat, counter: nat, more: nat)
    requires Wrapped(counter, total)
    ensures Wrapped((counter + more) % 0x1_0000_0000, total + more)
  {}

  /** The step of every front end: what was buffered and the new bytes split into whole blocks,
      which the state takes in, and a tail, which stays buffered. */
  lemma Absorb(sent: seq<byte>, h: State, block: seq<byte>, len: nat, message: seq<byte>,
               whole: seq<byte>, tail: seq<byte>, h': State, block': seq<byte>)
    requires Buffered(sent, h, block, len)
    requires |whole| % BLOCK_SIZE == 0 && |tail| < BLOCK_SIZE && |tail| <= |block'|
    requires block[..len] + message == whole + tail
    requires h' == CompressAll(h, whole) && block'[..|tail|] == tail
    ensures Buffered(sent + message, h', block', |tail|)
  {
    hide CompressAll, Buffered;
    Unbuffer(sent, h, block, len);
    var base := sent[..|sent| - len];
    Regrouped(base, block[..len], message, whole, tail);
    CompressAppend(INITIAL, base, whole);
    MultiplesAdd(|base|, |whole|);
    Buffer(base + whole, tail, h', block');
  }

  lemma MultiplesAdd(a: nat, b: nat)
    requires a % BLOCK_SIZE == 0 && b % BLOCK_SIZE == 0
    ensures (a + b) % BLOCK_SIZE == 0
  {}

  lemma Unbuffer(sent: seq<byte>, h: State, block: seq<byte>, len: nat)
    requires Buffered(sent, h, block, len)
    ensures len <= |sent| && len <= |block| && |sent[..|sent| - len]| % BLOCK_SIZE == 0
    ensures sent == sent[..|sent| - len] + block[..len] && h == CompressAll(INITIAL, sent[..|sent| - len])
  {
    hide CompressAll;
  }

  lemma Buffer(base: seq<byte>, tail: seq<byte>, h: State, block: seq<byte>)
    requires |base| % BLOCK_SIZE == 0 && |tail| < BLOCK_SIZE && |tail| <= |block|
    requires h == CompressAll(INITIAL, base) && block[..|tail|] == tail
    ensures Buffered(base + tail, h, block, |tail|)
  {
    hide CompressAll;
    assert (base + tail)[..|base|] == base && (base + tail)[|base|..] == tail;
  }

  lemma Regrouped(base: seq<byte>, x: seq<byte>, message: seq<byte>, whole: seq<byte>, tail: seq<byte>)
    requires x + message == whole + tail
    ensures base + x + message == base + whole + tail
  {
    assert base + x + message == base + (x + message);
    assert base + whole + tail == base + (whole + tail);
  }

  /** SHA2_UNPACK32 of the eight words into the digest. */
  method UnpackWords(h: array<Word>, digest: array<byte>)
    requires h.Length == 8 && digest.Length == 32
    modifies digest
    ensures digest[..] == StateBytes(Load(h[..]))
  {
    hide WordBytes, BytesOf;
    assert WordBytes(h[..0]) == [];
    var i := 0;
    while i < 8
      invariant 0 <= i <= 8
      invariant digest[..4 * i] == WordBytes(h[..i])
    {
      Copy(digest, 4 * i, BytesOf(h[i] as nat, 4));
      WordBytesSnoc(h[..i], h[i]);
      assert h[..i + 1] == h[..i] + [h[i]];
      i := i + 1;
    }
    assert StateWords(Load(h[..])) == h[..8] && digest[..32] == digest[..];
  }

  /** memcpy to a place in an array. */
  method Copy(a: array<byte>, at: nat, bytes: seq<byte>)
    requires at + |bytes| <= a.Length
    modifies a
    ensures a[..] == old(a[..at]) + bytes + old(a[at + |bytes|..])
  {
    var i := 0;
    while i < |bytes|
      invariant 0 <= i <= |bytes|
      invariant forall k :: 0 <= k < a.Length ==> a[k] == if at <= k < at + i then bytes[k - at] else old(a[k])
    {
      a[at + i] := bytes[i];
      i := i + 1;
    }
  }
}
