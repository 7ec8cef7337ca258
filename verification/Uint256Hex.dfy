/** GetHex and SetHex of uint256.h: the memory of the words, byte by byte, as hexadecimal digits. */
module Uint256Hex {
  import opened Bits
  import opened CStrings
  import opened Uint256

  // ---------- words as bytes ----------

  /** Byte b of the words' memory; words are stored least significant byte first. */
  function ByteAt(s: seq<uint32>, b: nat): byte
    requires b < 4 * |s|
  {
    var x := s[b / 4];
    if b % 4 == 0 then x % 0x100 else if b % 4 == 1 then x / 0x100 % 0x100
    else if b % 4 == 2 then x / 0x1_0000 % 0x100 else x / 0x100_0000 % 0x100
  }

  function WordOf(b0: byte, b1: byte, b2: byte, b3: byte): uint32
  {
    b0 + 0x100 * b1 + 0x1_0000 * b2 + 0x100_0000 * b3
  }

  lemma WordOfBytes(s: seq<uint32>, i: nat)
    requires i < |s|
    ensures WordOf(ByteAt(s, 4 * i), ByteAt(s, 4 * i + 1), ByteAt(s, 4 * i + 2), ByteAt(s, 4 * i + 3)) == s[i]
  {
    FourBytes(s[i]);
    assert (4 * i) / 4 == (4 * i + 1) / 4 == (4 * i + 2) / 4 == (4 * i + 3) / 4 == i;
    assert (4 * i) % 4 == 0 && (4 * i + 1) % 4 == 1 && (4 * i + 2) % 4 == 2 && (4 * i + 3) % 4 == 3;
  }

  lemma FourBytes(x: uint32)
    ensures x == x % 0x100 + 0x100 * (x / 0x100 % 0x100) + 0x1_0000 * (x / 0x1_0000 % 0x100) + 0x100_0000 * (x / 0x100_0000 % 0x100)
  {
    var q := x / 0x100;
    assert x / 0x1_0000 == q / 0x100 && x / 0x100_0000 == q / 0x1_0000;
    var p := q / 0x100;
    assert q / 0x1_0000 == p / 0x100 && p / 0x100 < 0x100;
  }

  // ---------- digits ----------

  function HexChar(d: nat): char
    requires d < 16
  {
    if d < 10 then '0' + d as char else 'a' + (d - 10) as char
  }

  /** The table phexdigit. */
  function HexDigit(c: char): (d: nat)
    ensures d < 16
  {
    if '0' <= c <= '9' then c as nat - '0' as nat
    else if 'A' <= c <= 'F' then c as nat - 'A' as nat + 10
    else if 'a' <= c <= 'f' then c as nat - 'a' as nat + 10
    else 0
  }

  /** What the scan takes as a digit: a table entry that is not zero, or the digit zero itself. */
  predicate IsDigit(c: char) { HexDigit(c) != 0 || c == '0' }

  lemma CharDigit(d: nat)
    requires d < 16
    ensures HexDigit(HexChar(d)) == d && IsDigit(HexChar(d)) && !IsSpace(HexChar(d)) && HexChar(d) != 'x' && HexChar(d) != 'X'
  {}

  // ---------- printing ----------

  /** The digits of the words, most significant byte first. */
  ghost predicate IsHexOf(h: string, s: seq<uint32>)
  {
    |h| == 8 * |s| && forall i :: 0 <= i < 4 * |s| ==>
      h[2 * i] == HexChar(ByteAt(s, 4 * |s| - 1 - i) / 16) && h[2 * i + 1] == HexChar(ByteAt(s, 4 * |s| - 1 - i) % 16)
  }

  method GetHex(pn: array<uint32>) returns (psz: string)
    ensures IsHexOf(psz, pn[..])
  {
    hide HexChar, ByteAt;
    psz := "";
    var i := 0;
    while i < 4 * pn.Length
      invariant 0 <= i <= 4 * pn.Length && |psz| == 2 * i
      invariant forall k :: 0 <= k < i ==>
                  psz[2 * k] == HexChar(ByteAt(pn[..], 4 * pn.Length - 1 - k) / 16)
                  && psz[2 * k + 1] == HexChar(ByteAt(pn[..], 4 * pn.Length - 1 - k) % 16)
    {
      var b := ByteAt(pn[..], 4 * pn.Length - 1 - i);
      psz := psz + [HexChar(b / 16), HexChar(b % 16)];
      i := i + 1;
    }
  }

  // ---------- parsing ----------

  function SkipSpaces(s: string): (r: string)
    ensures |r| <= |s|
  {
    if |s| > 0 && IsSpace(s[0]) then SkipSpaces(s[1..]) else s
  }

  function SkipPrefix(s: string): (r: string)
    ensures |r| <= |s|
  {
    if |s| > 1 && s[0] == '0' && (s[1] == 'x' || s[1] == 'X') then s[2..] else s
  }

  function DigitRun(s: string): (n: nat)
    ensures n <= |s| && (forall i :: 0 <= i < n ==> IsDigit(s[i])) && (n < |s| ==> !IsDigit(s[n]))
  {
    if |s| > 0 && IsDigit(s[0]) then 1 + DigitRun(s[1..]) else 0
  }

  /** The digits that SetHex reads. */
  function HexPart(s: string): string
  {
    var t := SkipPrefix(SkipSpaces(s));
    t[..DigitRun(t)]
  }

  /** Digit i from the right, zero beyond the left end. */
  function DigitFromRight(t: string, i: nat): (d: nat)
    ensures d < 16
  {
    if i < |t| then HexDigit(t[|t| - 1 - i]) else 0
  }

  /** Byte b of the number that t writes. */
  function ParsedByte(t: string, b: nat): byte { DigitFromRight(t, 2 * b) + 16 * DigitFromRight(t, 2 * b + 1) }

  /** SetHex: byte b of the words comes from two digits counted from the right; digits beyond the
      width are dropped, missing ones are zero. */
  method SetHex(pn: array<uint32>, psz0: string)
    requires '\0' !in psz0
    modifies pn
    ensures forall i :: 0 <= i < pn.Length ==>
              pn[i] == WordOf(ParsedByte(HexPart(psz0), 4 * i), ParsedByte(HexPart(psz0), 4 * i + 1),
                              ParsedByte(HexPart(psz0), 4 * i + 2), ParsedByte(HexPart(psz0), 4 * i + 3))
  {
    hide HexDigit;
    var psz := psz0;
    while |psz| > 0 && IsSpace(psz[0])
      invariant SkipSpaces(psz) == SkipSpaces(psz0)
      decreases |psz|
    {
      psz := psz[1..];
    }
    if |psz| > 1 && psz[0] == '0' && (psz[1] == 'x' || psz[1] == 'X') { psz := psz[2..]; }
    var end := 0;
    while end < |psz| && IsDigit(psz[end])
      invariant 0 <= end <= |psz| && DigitRun(psz) == end + DigitRun(psz[end..])
    {
      assert psz[end..][1..] == psz[end + 1..];
      end := end + 1;
    }
    var memory := ReadDigits(psz[..end], 4 * pn.Length);
    StoreWords(pn, memory, psz[..end]);
  }

  /** The last loop of SetHex, from the last digit backwards, on the words seen as bytes. */
  method ReadDigits(t: string, n: nat) returns (memory: array<byte>)
    ensures fresh(memory) && memory.Length == n && forall b :: 0 <= b < n ==> memory[b] == ParsedByte(t, b)
  {
    hide HexDigit;
    memory := new byte[n](_ => 0);
    var at := |t| - 1;
    var p1 := 0;
    while at >= 0 && p1 < n
      invariant 0 <= p1 <= n && at == (if 2 * p1 <= |t| then |t| - 1 - 2 * p1 else -1)
      invariant forall b :: 0 <= b < p1 ==> memory[b] == ParsedByte(t, b)
      invariant forall b :: p1 <= b < n ==> memory[b] == 0
      decreases at + 2
    {
      memory[p1] := HexDigit(t[at]);
      at := at - 1;
      if at >= 0 {
        memory[p1] := memory[p1] + 16 * HexDigit(t[at]);
        at := at - 1;
      }
      p1 := p1 + 1;
    }
  }

  /** The bytes of the words are in place. */
  method StoreWords(pn: array<uint32>, memory: array<byte>, ghost t: string)
    requires memory.Length == 4 * pn.Length && forall b :: 0 <= b < memory.Length ==> memory[b] == ParsedByte(t, b)
    modifies pn
    ensures forall i :: 0 <= i < pn.Length ==>
              pn[i] == WordOf(ParsedByte(t, 4 * i), ParsedByte(t, 4 * i + 1), ParsedByte(t, 4 * i + 2), ParsedByte(t, 4 * i + 3))
  {
    hide ParsedByte;
    var i := 0;
    while i < pn.Length
      invariant 0 <= i <= pn.Length
      invariant forall k :: 0 <= k < i ==>
                  pn[k] == WordOf(ParsedByte(t, 4 * k), ParsedByte(t, 4 * k + 1), ParsedByte(t, 4 * k + 2), ParsedByte(t, 4 * k + 3))
    {
      pn[i] := WordOf(memory[4 * i], memory[4 * i + 1], memory[4 * i + 2], memory[4 * i + 3]);
      i := i + 1;
    }
  }

  // ---------- the round trip ----------

  /** Digit i from the right of the printed words. */
  lemma PrintedDigits(h: string, s: seq<uint32>, b: nat)
    requires IsHexOf(h, s) && b < 4 * |s|
    ensures ParsedByte(h, b) == ByteAt(s, b)
  {
    hide HexChar, HexDigit, ByteAt;
    var i := 4 * |s| - 1 - b;
    assert |h| - 1 - 2 * b == 2 * i + 1 && |h| - 1 - (2 * b + 1) == 2 * i;
    CharDigit(ByteAt(s, b) % 16);
    CharDigit(ByteAt(s, b) / 16);
  }

  lemma {:induction false} AllDigits(h: string)
    requires forall i :: 0 <= i < |h| ==> IsDigit(h[i])
    ensures DigitRun(h) == |h|
  {
    if |h| > 0 { AllDigits(h[1..]); }
  }

  /** What GetHex prints, SetHex reads whole. */
  lemma PrintedIsRead(h: string, s: seq<uint32>)
    requires IsHexOf(h, s)
    ensures HexPart(h) == h
  {
    hide ByteAt;
    forall k | 0 <= k < |h| ensures IsDigit(h[k]) && !IsSpace(h[k]) && h[k] != 'x' && h[k] != 'X' {
      var i := k / 2;
      CharDigit(ByteAt(s, 4 * |s| - 1 - i) / 16);
      CharDigit(ByteAt(s, 4 * |s| - 1 - i) % 16);
      assert k == 2 * i || k == 2 * i + 1;
    }
    AllDigits(h);
    assert h[..|h|] == h;
  }

  /** SetHex(GetHex(x)) == x, whatever the target held before. */
  method RoundTrip(pn: array<uint32>, target: array<uint32>)
    requires target != pn && target.Length == pn.Length
    modifies target
    ensures target[..] == pn[..]
  {
    hide HexPart, ParsedByte, ByteAt, WordOf;
    var psz := GetHex(pn);
    NoNul(psz, pn[..]);
    SetHex(target, psz);
    PrintedIsRead(psz, pn[..]);
    forall i | 0 <= i < pn.Length ensures target[i] == pn[..][i] {
      WordOfBytes(pn[..], i);
      PrintedDigits(psz, pn[..], 4 * i);
      PrintedDigits(psz, pn[..], 4 * i + 1);
      PrintedDigits(psz, pn[..], 4 * i + 2);
      PrintedDigits(psz, pn[..], 4 * i + 3);
    }
  }

  lemma NoNul(h: string, s: seq<uint32>)
    requires IsHexOf(h, s)
    ensures '\0' !in h
  {
    hide ByteAt;
    forall k | 0 <= k < |h| ensures h[k] != '\0' {
      var i := k / 2;
      assert k == 2 * i || k == 2 * i + 1;
      assert h[2 * i] == HexChar(ByteAt(s, 4 * |s| - 1 - i) / 16);
    }
  }
}
