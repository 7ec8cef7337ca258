/** The digits that GetHex prints and SetHex reads are hexadecimal notation: the number that they
    write is the number in the words. */
module HexNumbers {
  import opened Bits
  import opened Uint256
  import opened Uint256Hex

  // ---------- notation ----------

  const LOWER := "0123456789abcdef"
  const UPPER := "0123456789ABCDEF"

  /** The digit with the value d is printed as the lower-case one, and read in either case. */
  lemma DigitsAre(c: char, d: nat)
    requires d < 16
    ensures HexChar(d) == LOWER[d]
    ensures (IsDigit(c) && HexDigit(c) == d) <==> (c == LOWER[d] || c == UPPER[d])
  {}

  /** The number that the digits write, the most significant first. */
  function HexNumber(t: string): nat
  {
    if |t| == 0 then 0 else 16 * HexNumber(t[..|t| - 1]) + HexDigit(t[|t| - 1])
  }

  // ---------- its last digits ----------

  /** The number that the last n digits write. */
  function LastDigits(t: string, n: nat): nat
    decreases n
  {
    if n == 0 || |t| == 0 then 0 else 16 * LastDigits(t[..|t| - 1], n - 1) + HexDigit(t[|t| - 1])
  }

  lemma {:induction false} LastIsRemainder(t: string, n: nat)
    ensures Power(16, n) > 0 && Rem(HexNumber(t), Power(16, n)) == LastDigits(t, n)
    decreases n
  {
    hide HexDigit, Rem;
    if |t| == 0 || n == 0 {
      PowerPositive(n);
      QuotRemUnique(HexNumber(t), Power(16, n), if n == 0 then HexNumber(t) else 0, 0);
    } else {
      var h, p := HexNumber(t[..|t| - 1]), Power(16, n - 1);
      PowerPositive(n - 1);
      LastIsRemainder(t[..|t| - 1], n - 1);
      QuotRem(h, p);
      var q, r, d := Quot(h, p), Rem(h, p), HexDigit(t[|t| - 1]);
      TimesSixteen(q, p, r, d);
      QuotRemUnique(HexNumber(t), p * 16, q, 16 * r + d);
    }
  }

  lemma {:induction false} PowerPositive(n: nat)
    ensures Power(16, n) > 0
  {
    if n > 0 { PowerPositive(n - 1); }
  }

  lemma TimesSixteen(q: nat, p: nat, r: nat, d: nat)
    ensures 16 * (q * p + r) + d == q * (p * 16) + (16 * r + d)
  {}

  lemma {:induction false} AllDigitsWrite(t: string)
    ensures LastDigits(t, |t|) == HexNumber(t)
  {
    if |t| > 0 { AllDigitsWrite(t[..|t| - 1]); }
  }

  /** One more digit. */
  lemma {:induction false} NextDigit(t: string, n: nat)
    ensures LastDigits(t, n + 1) == LastDigits(t, n) + DigitFromRight(t, n) * Power(16, n)
    decreases n
  {
    hide HexDigit;
    if |t| > 0 && n > 0 {
      var s := t[..|t| - 1];
      NextDigit(s, n - 1);
      assert DigitFromRight(t, n) == DigitFromRight(s, n - 1);
      Sixteenfold(LastDigits(s, n - 1), DigitFromRight(s, n - 1), Power(16, n - 1));
    }
  }

  lemma Sixteenfold(l: nat, d: nat, p: nat)
    ensures 16 * (l + d * p) == 16 * l + d * (p * 16)
  {}

  // ---------- bytes and words ----------

  lemma NextByte(t: string, b: nat)
    ensures LastDigits(t, 2 * b + 2) == LastDigits(t, 2 * b) + ParsedByte(t, b) * Power(16, 2 * b)
    ensures Power(16, 2 * b + 2) == 256 * Power(16, 2 * b)
  {
    hide LastDigits, DigitFromRight;
    var p, d, e := Power(16, 2 * b), DigitFromRight(t, 2 * b), DigitFromRight(t, 2 * b + 1);
    NextDigit(t, 2 * b);
    NextDigit(t, 2 * b + 1);
    assert d * p + e * (p * 16) == (d + 16 * e) * p;
  }

  lemma NextWord(t: string, i: nat)
    ensures LastDigits(t, 8 * (i + 1))
         == LastDigits(t, 8 * i)
            + WordOf(ParsedByte(t, 4 * i), ParsedByte(t, 4 * i + 1), ParsedByte(t, 4 * i + 2), ParsedByte(t, 4 * i + 3)) * Power(16, 8 * i)
    ensures Power(16, 8 * (i + 1)) == Power(16, 8 * i) * B
  {
    hide LastDigits, ParsedByte, Power;
    NextByte(t, 4 * i);
    NextByte(t, 4 * i + 1);
    NextByte(t, 4 * i + 2);
    NextByte(t, 4 * i + 3);
    FourDigits(ParsedByte(t, 4 * i), ParsedByte(t, 4 * i + 1), ParsedByte(t, 4 * i + 2), ParsedByte(t, 4 * i + 3), Power(16, 8 * i));
  }

  lemma FourDigits(b0: byte, b1: byte, b2: byte, b3: byte, p: nat)
    ensures WordOf(b0, b1, b2, b3) * p == b0 * p + b1 * (256 * p) + b2 * (256 * (256 * p)) + b3 * (256 * (256 * (256 * p)))
  {}

  lemma {:induction false} WordWeight(n: nat)
    ensures P(n) == Power(16, 8 * n)
  {
    if n > 0 {
      WordWeight(n - 1);
      NextWord("", n - 1);
    }
  }

  /** The words that SetHex leaves, as its contract gives them. */
  ghost predicate AreWordsOf(s: seq<uint32>, t: string)
  {
    forall i :: 0 <= i < |s| ==>
      s[i] == WordOf(ParsedByte(t, 4 * i), ParsedByte(t, 4 * i + 1), ParsedByte(t, 4 * i + 2), ParsedByte(t, 4 * i + 3))
  }

  lemma {:induction false} WordsHoldDigits(s: seq<uint32>, t: string)
    requires AreWordsOf(s, t)
    ensures Val(s) == LastDigits(t, 8 * |s|)
  {
    hide LastDigits, ParsedByte, WordOf;
    if |s| > 0 {
      WordsHoldDigits(s[..|s| - 1], t);
      NextWord(t, |s| - 1);
      WordWeight(|s| - 1);
    } else {
      assert LastDigits(t, 0) == 0 by { NoDigits(t); }
    }
  }

  lemma NoDigits(t: string)
    ensures LastDigits(t, 0) == 0
  {}

  // ---------- the methods ----------

  /** SetHex leaves the number that the digits write, modulo the width. */
  lemma WordsAreNumber(s: seq<uint32>, t: string)
    requires AreWordsOf(s, t)
    ensures P(|s|) > 0 && Val(s) == Rem(HexNumber(t), P(|s|))
  {
    hide AreWordsOf, HexNumber, LastDigits, Rem, Power, P;
    WordsHoldDigits(s, t);
    LastIsRemainder(t, 8 * |s|);
    WordWeight(|s|);
  }

  /** GetHex prints the number in the words. */
  lemma PrintedIsNumber(h: string, s: seq<uint32>)
    requires IsHexOf(h, s)
    ensures HexNumber(h) == Val(s)
  {
    hide HexNumber, LastDigits, ParsedByte, ByteAt, WordOf;
    forall i | 0 <= i < |s|
      ensures s[i] == WordOf(ParsedByte(h, 4 * i), ParsedByte(h, 4 * i + 1), ParsedByte(h, 4 * i + 2), ParsedByte(h, 4 * i + 3))
    {
      WordOfBytes(s, i);
      PrintedDigits(h, s, 4 * i);
      PrintedDigits(h, s, 4 * i + 1);
      PrintedDigits(h, s, 4 * i + 2);
      PrintedDigits(h, s, 4 * i + 3);
    }
    WordsHoldDigits(s, h);
    AllDigitsWrite(h);
  }

  /** A number printed and read into any width: the number modulo that width. */
  method Transfer(x: base_uint, target: base_uint)
    requires x.Valid() && target.Valid() && x != target && x.pn != target.pn
    modifies target.pn
    ensures target.Value() == Rem(x.Value(), P(target.pn.Length))
  {
    hide HexPart, ParsedByte, WordOf, Rem, P, Val;
    var psz := GetHex(x.pn);
    NoNul(psz, x.pn[..]);
    SetHex(target.pn, psz);
    PrintedIsRead(psz, x.pn[..]);
    assert AreWordsOf(target.pn[..], psz);
    WordsAreNumber(target.pn[..], psz);
    PrintedIsNumber(psz, x.pn[..]);
  }
}
