/** The streaming front end of zcash/blake2b.cpp and the variable-length hash built on it. The
    compression function is any function: what is proved is the sequence of its calls. */
module Blake2b {
  import opened Bits

  const BLOCKBYTES := 128
  const OUTBYTES := 64

  type Words = seq<nat>

  /** The opaque part: the initial state for an output and a key length, the compression of a
      block with the byte counter and the last-block flag, and the bytes of a state. */
  datatype Core = Core(init: (nat, nat) -> Words, compress: (Words, seq<byte>, nat, bool) -> Words, bytes: Words -> seq<byte>)

  ghost predicate FullOutput(core: Core) { forall h :: |core.bytes(h)| == OUTBYTES }

  // ---------- section 3.3 of RFC 7693 ----------

  /** One call of the compression function. */
  datatype Call = Call(block: seq<byte>, counter: nat, last: bool)

  /** How many blocks come before the last one: the last block is never empty, unless the message is. */
  function BlocksBefore(l: nat): (n: nat)
    ensures 128 * n <= l && (l > 0 ==> 128 * n < l) && l <= 128 * n + 128
  {
    if l == 0 then 0 else (l - 1) / 128
  }

  function FullBlocks(m: seq<byte>, n: nat): (c: seq<Call>)
    requires 128 * n <= |m|
    ensures |c| == n
  {
    if n == 0 then [] else FullBlocks(m, n - 1) + [Call(m[128 * (n - 1)..128 * n], 128 * n, false)]
  }

  /** The calls of RFC 7693 for a message: full blocks with the bytes up to their end, then the rest,
      padded with zeros, with the length of the message. */
  function Calls(m: seq<byte>): seq<Call>
  {
    var n := BlocksBefore(|m|);
    FullBlocks(m, n) + [Call(m[128 * n..] + Zeros(128 * (n + 1) - |m|), |m|, true)]
  }

  /** The calls with a 16-bit counter, as the source has it. */
  function Wrapped(calls: seq<Call>): (c: seq<Call>)
    ensures |c| == |calls|
  {
    if |calls| == 0 then []
    else Wrapped(calls[..|calls| - 1]) + [calls[|calls| - 1].(counter := calls[|calls| - 1].counter % 0x1_0000)]
  }

  function Run(core: Core, h: Words, calls: seq<Call>): Words
  {
    if |calls| == 0 then h
    else var c := calls[|calls| - 1]; core.compress(Run(core, h, calls[..|calls| - 1]), c.block, c.counter, c.last)
  }

  /** The byte counter: the source's has 16 bits, that of RFC 7693 never overflows. */
  datatype Counter = Narrow | Wide

  /** The digest of a message, with either counter. */
  function Digest(core: Core, counter: Counter, outlen: nat, m: seq<byte>): (d: seq<byte>)
    requires FullOutput(core) && outlen <= OUTBYTES
    ensures |d| == outlen
  {
    core.bytes(Run(core, core.init(outlen, 0), if counter == Narrow then Wrapped(Calls(m)) else Calls(m)))[..outlen]
  }

  lemma WrappedSnoc(calls: seq<Call>, c: Call)
    ensures Wrapped(calls + [c]) == Wrapped(calls) + [c.(counter := c.counter % 0x1_0000)]
  {
    assert (calls + [c])[..|calls|] == calls;
  }

  lemma RunSnoc(core: Core, h: Words, calls: seq<Call>, c: Call)
    ensures Run(core, h, calls + [c]) == core.compress(Run(core, h, calls), c.block, c.counter, c.last)
  {
    assert (calls + [c])[..|calls|] == calls;
  }

  lemma {:induction false} WrappedAt(calls: seq<Call>, i: nat)
    requires i < |calls|
    ensures Wrapped(calls)[i] == calls[i].(counter := calls[i].counter % 0x1_0000)
    decreases |calls|
  {
    if i < |calls| - 1 { WrappedAt(calls[..|calls| - 1], i); }
  }

  lemma {:induction false} FullBlocksAt(m: seq<byte>, n: nat, i: nat)
    requires 128 * n <= |m| && i < n
    ensures FullBlocks(m, n)[i] == Call(m[128 * i..128 * (i + 1)], 128 * (i + 1), false)
  {
    if i < n - 1 { FullBlocksAt(m, n - 1, i); }
  }

  /** Call i hashes bytes 128 i up to 128 (i + 1) of the message with zeros behind it, and counts those
      of the message up to there; only the last has the flag, and it is the first to reach the end. */
  lemma CallsAre(m: seq<byte>, i: nat)
    requires i < |Calls(m)|
    ensures |m| <= 128 * |Calls(m)| < |m| + 128 || (m == [] && |Calls(m)| == 1)
    ensures var c := Calls(m)[i];
            && c.block == (m + Zeros(128 * |Calls(m)| - |m|))[128 * i..128 * (i + 1)]
            && c.counter == (if 128 * (i + 1) <= |m| then 128 * (i + 1) else |m|)
            && (c.last <==> i == |Calls(m)| - 1)
  {
    var n := BlocksBefore(|m|);
    var all := m + Zeros(128 * (n + 1) - |m|);
    if i < n {
      FullBlocksAt(m, n, i);
      assert all[128 * i..128 * (i + 1)] == m[128 * i..128 * (i + 1)];
    } else {
      assert all[128 * n..128 * (n + 1)] == m[128 * n..] + Zeros(128 * (n + 1) - |m|);
    }
  }

  /** The 16-bit counter makes the calls of RFC 7693 exactly for messages below 2^16 bytes. */
  lemma CounterSuffices(m: seq<byte>)
    ensures Wrapped(Calls(m)) == Calls(m) <==> |m| < 0x1_0000
  {
    hide Calls, Wrapped;
    SomeCalls(m);
    var calls := Calls(m);
    forall i | 0 <= i < |calls|
      ensures Wrapped(calls)[i] == calls[i].(counter := calls[i].counter % 0x1_0000) && calls[i].counter <= |m|
    {
      WrappedAt(calls, i);
      CallsAre(m, i);
    }
    var last := |calls| - 1;
    CallsAre(m, last);
    assert calls[last].counter == |m|;
    if |m| < 0x1_0000 { assert Wrapped(calls) == calls; }
  }

  lemma SomeCalls(m: seq<byte>)
    ensures |Calls(m)| > 0
  {}

  /** Full blocks do not change when the message grows. */
  lemma {:induction false} FullBlocksPrefix(m: seq<byte>, x: seq<byte>, n: nat)
    requires 128 * n <= |m|
    ensures FullBlocks(m + x, n) == FullBlocks(m, n)
  {
    if n > 0 {
      FullBlocksPrefix(m, x, n - 1);
      assert (m + x)[128 * (n - 1)..128 * n] == m[128 * (n - 1)..128 * n];
    }
  }

  // ---------- the state ----------

  /** After n blocks of sent: the state h, and the rest of sent in the buffer. */
  ghost predicate Buffered(core: Core, h0: Words, sent: seq<byte>, n: nat, h: Words, buf: seq<byte>, buflen: nat)
  {
    |sent| == 128 * n + buflen && buflen <= 128 == |buf|
    && h == Run(core, h0, Wrapped(FullBlocks(sent, n))) && buf[..buflen] == sent[128 * n..]
  }

  method CopyInto(a: array<byte>, at: nat, bytes: seq<byte>)
    requires at + |bytes| <= a.Length
    modifies a
    ensures a[..at + |bytes|] == old(a[..at]) + bytes
  {
    var i := 0;
    while i < |bytes|
      invariant 0 <= i <= |bytes| && a[..at] == old(a[..at]) && a[at..at + i] == bytes[..i]
    {
      a[at + i] := bytes[i];
      i := i + 1;
    }
    assert a[..at + |bytes|] == a[..at] + a[at..at + |bytes|];
  }

  /** memset of the rest of the buffer. */
  method ZeroFrom(a: array<byte>, from: nat)
    requires from <= a.Length
    modifies a
    ensures a[..] == old(a[..from]) + Zeros(a.Length - from)
  {
    var i := from;
    while i < a.Length
      invariant from <= i <= a.Length && a[..from] == old(a[..from]) && forall k :: from <= k < i ==> a[k] == 0
    {
      a[i] := 0;
      i := i + 1;
    }
  }

  class Blake2bState {
    const core: Core
    const buf: array<byte>
    var h: Words
    var counter: nat        // uint16_t
    var buflen: nat         // uint8_t
    ghost var h0: Words
    ghost var sent: seq<byte>
    ghost var blocks: nat

    ghost predicate Consistent()
      reads this, buf
    {
      buf.Length == 128 && Buffered(core, h0, sent, blocks, h, buf[..], buflen)
      && counter == 128 * blocks % 0x1_0000
    }

    /** Between calls the buffer is empty only before the first byte. */
    ghost predicate Valid()
      reads this, buf
    {
      Consistent() && (buflen == 0 ==> sent == [])
    }

    /** blake2b_init, and the state of blake2b_init_key before the key block. */
    constructor (core0: Core, outlen: nat, keylen: nat)
      ensures Valid() && sent == [] && core == core0 && h0 == core0.init(outlen, keylen) && fresh(buf)
    {
      core := core0;
      buf := new byte[128](_ => 0);
      h := core0.init(outlen, keylen);
      h0 := core0.init(outlen, keylen);
      counter, buflen, sent, blocks := 0, 0, [], 0;
    }

    /** blake2b_update: the input joins the bytes taken in. A full block is compressed only when
        more bytes follow. */
    method update(input: seq<byte>)
      requires Valid()
      modifies this, buf
      ensures Valid() && sent == old(sent) + input && h0 == old(h0)
    {
      var at := 0;
      while at < |input|
        invariant 0 <= at <= |input| && Consistent() && sent == old(sent) + input[..at] && h0 == old(h0)
        invariant at == |input| && buflen == 0 ==> sent == []
        decreases |input| - at, buflen
      {
        hide Buffered;
        BufferFits(core, h0, sent, blocks, h, buf[..], buflen);
        var fill := 128 - buflen;
        var n := if |input| - at > fill then fill else |input| - at;
        Joined(old(sent), input, at, n);
        fillBuffer(input[at..at + n]);
        if |input| - at > fill { compressBuffer(); }
        at := at + n;
      }
      assert input[..at] == input;
    }

    /** memcpy to the end of the buffer. */
    method fillBuffer(part: seq<byte>)
      requires Consistent() && buflen + |part| <= 128
      modifies this`buflen, this`sent, buf
      ensures Consistent() && sent == old(sent) + part && buflen == old(buflen) + |part|
    {
      CopyInto(buf, buflen, part);
      Longer(core, h0, sent, blocks, h, old(buf[..]), buflen, part, buf[..]);
      buflen := buflen + |part|;
      sent := sent + part;
    }

    /** A full buffer is compressed. */
    method compressBuffer()
      requires Consistent() && buflen == 128
      modifies this`h, this`counter, this`buflen, this`blocks
      ensures Consistent() && buflen == 0
    {
      hide Buffered, FullBlocks, Wrapped, Run;
      counter := (counter + 128) % 0x1_0000;
      CounterNext(blocks);
      BlockTaken(core, h0, sent, blocks, h, buf[..], core.compress(h, buf[..], counter, false));
      h := core.compress(h, buf[..], counter, false);
      buflen := 0;
      blocks := blocks + 1;
    }

    /** blake2b_final: -1 for an output that is too long; otherwise the digest. The branch for a
        buffer of more than one block is never taken. */
    method final(outlen: nat) returns (ok: bool, out: seq<byte>)
      requires Valid() && FullOutput(core)
      modifies this, buf
      ensures ok <==> outlen <= OUTBYTES
      ensures ok ==> out == core.bytes(Run(core, old(h0), Wrapped(Calls(old(sent)))))[..outlen]
    {
      hide Buffered, Calls, Run, Wrapped;
      if outlen > OUTBYTES { return false, []; }
      BufferFits(core, h0, sent, blocks, h, buf[..], buflen);
      assert buflen <= BLOCKBYTES;
      counter := (counter + buflen) % 0x1_0000;
      ZeroFrom(buf, buflen);
      CounterLast(|sent|, blocks, buflen);
      LastCall(core, h0, sent, blocks, h, old(buf[..]), buflen, counter, buf[..]);
      h := core.compress(h, buf[..], counter, true);
      out := core.bytes(h)[..outlen];
      ok := true;
    }
  }

  lemma BufferFits(core: Core, h0: Words, sent: seq<byte>, n: nat, h: Words, buf: seq<byte>, buflen: nat)
    requires Buffered(core, h0, sent, n, h, buf, buflen)
    ensures buflen <= 128 && |sent| == 128 * n + buflen
  {}

  lemma Joined(before: seq<byte>, input: seq<byte>, at: nat, n: nat)
    requires at + n <= |input|
    ensures before + input[..at] + input[at..at + n] == before + input[..at + n]
  {
    assert input[..at] + input[at..at + n] == input[..at + n];
  }

  lemma Longer(core: Core, h0: Words, sent: seq<byte>, n: nat, h: Words, buf: seq<byte>, buflen: nat, part: seq<byte>, buf': seq<byte>)
    requires Buffered(core, h0, sent, n, h, buf, buflen) && buflen + |part| <= 128 == |buf'|
    requires buf'[..buflen + |part|] == buf[..buflen] + part
    ensures Buffered(core, h0, sent + part, n, h, buf', buflen + |part|)
  {
    hide Run, Wrapped;
    FullBlocksPrefix(sent, part, n);
    assert (sent + part)[128 * n..] == sent[128 * n..] + part;
  }

  lemma BlockTaken(core: Core, h0: Words, sent: seq<byte>, n: nat, h: Words, buf: seq<byte>, h': Words)
    requires Buffered(core, h0, sent, n, h, buf, 128) && h' == core.compress(h, buf, 128 * (n + 1) % 0x1_0000, false)
    ensures Buffered(core, h0, sent, n + 1, h', buf, 0)
  {
    hide Run, Wrapped;
    var c := Call(sent[128 * n..128 * (n + 1)], 128 * (n + 1), false);
    assert buf[..128] == buf && c.block == sent[128 * n..];
    WrappedSnoc(FullBlocks(sent, n), c);
    RunSnoc(core, h0, Wrapped(FullBlocks(sent, n)), c.(counter := c.counter % 0x1_0000));
  }

  lemma CounterNext(n: nat)
    ensures (128 * n % 0x1_0000 + 128) % 0x1_0000 == 128 * (n + 1) % 0x1_0000
  {}

  lemma CounterLast(l: nat, n: nat, buflen: nat)
    requires l == 128 * n + buflen
    ensures (128 * n % 0x1_0000 + buflen) % 0x1_0000 == l % 0x1_0000
  {}

  /** The last call is the one that RFC 7693 asks for. */
  lemma LastCall(core: Core, h0: Words, sent: seq<byte>, n: nat, h: Words, buf: seq<byte>, buflen: nat, counter: nat, block: seq<byte>)
    requires Buffered(core, h0, sent, n, h, buf, buflen) && (buflen == 0 ==> sent == [])
    requires counter == |sent| % 0x1_0000 && block == buf[..buflen] + Zeros(128 - buflen)
    ensures core.compress(h, block, counter, true) == Run(core, h0, Wrapped(Calls(sent)))
  {
    hide Run, Wrapped;
    assert n == BlocksBefore(|sent|);
    var c := Call(block, |sent|, true);
    assert Calls(sent) == FullBlocks(sent, n) + [c];
    WrappedSnoc(FullBlocks(sent, n), c);
    RunSnoc(core, h0, Wrapped(FullBlocks(sent, n)), c.(counter := counter));
  }

  // ---------- the variable-length hash ----------

  /** blake2b without a key. */
  method blake2b(core: Core, outlen: nat, input: seq<byte>) returns (out: seq<byte>)
    requires FullOutput(core) && 0 < outlen <= OUTBYTES
    ensures out == Digest(core, Narrow, outlen, input)
  {
    hide Run, Wrapped, Calls;
    var S := new Blake2bState(core, outlen, 0);
    S.update(input);
    assert [] + input == input;
    var ok;
    ok, out := S.final(outlen);
  }

  /** A 32-bit number as the source's memory holds it, least significant byte first. */
  function LittleEndian32(v: nat): (b: seq<byte>)
    ensures |b| == 4
  {
    [v % 256, v / 0x100 % 256, v / 0x1_0000 % 256, v / 0x100_0000 % 256]
  }

  /** The bytes of the length determine it; the first has the lowest weight. */
  lemma BytesOfLength(v: nat)
    requires v < 0x1_0000_0000
    ensures var b: seq<int> := LittleEndian32(v); v == b[0] + 0x100 * b[1] + 0x1_0000 * b[2] + 0x100_0000 * b[3]
  {
    var q := v / 0x100;
    assert v / 0x1_0000 == q / 0x100 && v / 0x100_0000 == q / 0x1_0000;
    var p := q / 0x100;
    assert q / 0x1_0000 == p / 0x100 && p / 0x100 < 0x100;
  }

  /** The chain of section 3.3 of RFC 9106: V_1 is the hash of the length and the input, V_{i+1}
      that of V_i. */
  function V(core: Core, counter: Counter, length: nat, input: seq<byte>, i: nat): (v: seq<byte>)
    requires FullOutput(core) && i > 0
    ensures |v| == OUTBYTES
  {
    if i == 1 then Digest(core, counter, OUTBYTES, LittleEndian32(length) + input) else Digest(core, counter, OUTBYTES, V(core, counter, length, input, i - 1))
  }

  /** W_1 to W_n, the first halves of the chain. */
  function Halves(core: Core, counter: Counter, length: nat, input: seq<byte>, n: nat): (w: seq<byte>)
    requires FullOutput(core)
    ensures |w| == 32 * n
  {
    if n == 0 then [] else Halves(core, counter, length, input, n - 1) + V(core, counter, length, input, n)[..32]
  }

  /** H' of RFC 9106: up to 64 bytes one hash; beyond that r = ceil(T / 32) - 2 halves and a last
      hash for the remaining 33 to 64 bytes. */
  function VariableLength(core: Core, counter: Counter, length: nat, input: seq<byte>): (out: seq<byte>)
    requires FullOutput(core) && length > 0
    ensures |out| == length
  {
    if length <= OUTBYTES then Digest(core, counter, length, LittleEndian32(length) + input)
    else
      var r := (length + 31) / 32 - 2;
      Halves(core, counter, length, input, r) + Digest(core, counter, length - 32 * r, V(core, counter, length, input, r))
  }

  /** Where the bytes of a long output come from: 32 from each hash but the last, and all of that. */
  lemma {:induction false} HalvesAt(core: Core, counter: Counter, length: nat, input: seq<byte>, n: nat, i: nat)
    requires FullOutput(core) && 1 <= i <= n
    ensures Halves(core, counter, length, input, n)[32 * (i - 1)..32 * i] == V(core, counter, length, input, i)[..32]
  {
    hide V;
    var w := Halves(core, counter, length, input, n - 1);
    if i < n {
      HalvesAt(core, counter, length, input, n - 1, i);
      assert Halves(core, counter, length, input, n)[32 * (i - 1)..32 * i] == w[32 * (i - 1)..32 * i];
    }
  }

  /** An output of 96 bytes: half of the hash of the length and the input, and the whole hash of that hash. */
  lemma NinetySixBytes(core: Core, counter: Counter, input: seq<byte>)
    requires FullOutput(core)
    ensures var first := Digest(core, counter, 64, [96, 0, 0, 0] + input);
            VariableLength(core, counter, 96, input) == first[..32] + Digest(core, counter, 64, first)
  {
    hide Digest;
    assert LittleEndian32(96) == [96, 0, 0, 0];
    var first := Digest(core, counter, 64, [96, 0, 0, 0] + input);
    assert V(core, counter, 96, input, 1) == first;
    assert Halves(core, counter, 96, input, 0) == [];
    assert Halves(core, counter, 96, input, 1) == first[..32];
  }

  /** blake2b_long, for an output that the caller has room for. */
  method blake2b_long(core: Core, outlen: nat, input: seq<byte>) returns (out: seq<byte>)
    requires FullOutput(core) && 0 < outlen < 0x1_0000_0000
    ensures out == VariableLength(core, Narrow, outlen, input) && |out| == outlen
  {
    hide Digest;
    if outlen <= OUTBYTES {
      out := HashWithLength(core, outlen, outlen, input);
    } else {
      var out_buffer := HashWithLength(core, OUTBYTES, outlen, input);
      out := out_buffer[..OUTBYTES / 2];
      var toproduce := outlen - OUTBYTES / 2;
      ghost var r := 1;
      assert Halves(core, Narrow, outlen, input, 0) == [];
      while toproduce > OUTBYTES
        invariant r >= 1 && toproduce == outlen - 32 * r > 32
        invariant out_buffer == V(core, Narrow, outlen, input, r) && out == Halves(core, Narrow, outlen, input, r)
        decreases toproduce
      {
        var in_buffer := out_buffer;
        out_buffer := blake2b(core, OUTBYTES, in_buffer);
        out := out + out_buffer[..OUTBYTES / 2];
        toproduce := toproduce - OUTBYTES / 2;
        r := r + 1;
      }
      assert r == (outlen + 31) / 32 - 2;
      var in_buffer := out_buffer;
      out_buffer := blake2b(core, toproduce, in_buffer);
      out := out + out_buffer[..toproduce];
    }
  }

  /** The first hash of blake2b_long: the length is hashed in front of the input. */
  method HashWithLength(core: Core, hashlen: nat, outlen: nat, input: seq<byte>) returns (out: seq<byte>)
    requires FullOutput(core) && 0 < hashlen <= OUTBYTES
    ensures out == Digest(core, Narrow, hashlen, LittleEndian32(outlen) + input)
  {
    hide Run, Wrapped, Calls, LittleEndian32;
    var S := new Blake2bState(core, hashlen, 0);
    S.update(LittleEndian32(outlen));
    S.update(input);
    assert [] + LittleEndian32(outlen) == LittleEndian32(outlen);
    var ok;
    ok, out := S.final(hashlen);
  }

  // ---------- the width of the counter ----------

  lemma SameDigest(core: Core, outlen: nat, m: seq<byte>)
    requires FullOutput(core) && outlen <= OUTBYTES && |m| < 0x1_0000
    ensures Digest(core, Narrow, outlen, m) == Digest(core, Wide, outlen, m)
  {
    hide Run, Calls, Wrapped;
    CounterSuffices(m);
  }

  lemma {:induction false} SameChain(core: Core, length: nat, input: seq<byte>, n: nat)
    requires FullOutput(core) && |input| + 4 < 0x1_0000
    ensures n > 0 ==> V(core, Narrow, length, input, n) == V(core, Wide, length, input, n)
    ensures Halves(core, Narrow, length, input, n) == Halves(core, Wide, length, input, n)
  {
    hide Digest, LittleEndian32;
    if n > 0 {
      SameChain(core, length, input, n - 1);
      if n == 1 {
        SameDigest(core, OUTBYTES, LittleEndian32(length) + input);
      } else {
        SameDigest(core, OUTBYTES, V(core, Narrow, length, input, n - 1));
      }
    }
  }

  /** For inputs below 2^16 - 4 bytes what blake2b_long emits is H' of RFC 9106, over the digest of
      RFC 7693 with its own counter. */
  lemma VariableLengthIsRfc(core: Core, length: nat, input: seq<byte>)
    requires FullOutput(core) && length > 0 && |input| + 4 < 0x1_0000
    ensures VariableLength(core, Narrow, length, input) == VariableLength(core, Wide, length, input)
  {
    hide Digest, V, Halves, LittleEndian32;
    if length <= OUTBYTES {
      SameDigest(core, length, LittleEndian32(length) + input);
    } else {
      var r := (length + 31) / 32 - 2;
      SameChain(core, length, input, r);
      SameDigest(core, length - 32 * r, V(core, Narrow, length, input, r));
    }
  }
}
