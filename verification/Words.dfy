/** Shifts and masks of unsigned 32-bit words. */
module Words {
  import opened Bits

  function Shr(x: nat, s: nat): nat { Quot(x, Pow2(s)) }

  /** The s low bits. */
  function Low(x: nat, s: nat): (r: nat)
    ensures r < Pow2(s)
  {
    Rem(x, Pow2(s))
  }

  /** x << s in 32 bits: what overflows is lost. */
  function Shl32(x: nat, s: nat): nat { Low(x * Pow2(s), 32) }

  lemma LowSmall(x: nat, s: nat)
    requires x < Pow2(s)
    ensures Low(x, s) == x && Shr(x, s) == 0
  {}

  /** Bits below position s do not disturb the bits above it. */
  lemma LowOfSum(q: nat, s: nat, r: nat, k: nat)
    requires r < Pow2(s)
    ensures Low(q * Pow2(s) + r, k + s) == Low(q, k) * Pow2(s) + r
    ensures Shr(q * Pow2(s) + r, k + s) == Shr(q, k)
  {
    Pow2Add(s, k);
    QuotRemMulAdd(q, Pow2(s), r, Pow2(k));
  }

  lemma LowLow(x: nat, s: nat, t: nat)
    requires s <= t
    ensures Low(Low(x, t), s) == Low(x, s)
  {
    QuotRem(x, Pow2(s));
    LowOfSum(Shr(x, s), s, Low(x, s), t - s);
    QuotRemUnique(Low(x, t), Pow2(s), Low(Shr(x, s), t - s), Low(x, s));
  }

  lemma ShlMultiple(x: nat, s: nat)
    requires s <= 32
    ensures Shl32(x, s) == Low(x, 32 - s) * Pow2(s)
  {
    LowOfSum(x, s, 0, 32 - s);
  }

  /** Shifting s new bits r into the accumulator keeps the k live bits above them. */
  lemma ShiftIn(acc: nat, k: nat, s: nat, r: nat)
    requires k + s <= 32 && r < Pow2(s)
    ensures Low(BitOr(Shl32(acc, s), r), k + s) == Low(acc, k) * Pow2(s) + r
  {
    hide Pow2, BitOr, Shl32;
    ShlMultiple(acc, s);
    OrDisjoint(Low(acc, 32 - s), s, r);
    LowOfSum(Low(acc, 32 - s), s, r, k);
    LowLow(acc, k, 32 - s);
  }

  /** The a + b low bits are the b bits above position a, then the a bits below it. */
  lemma SplitLow(x: nat, a: nat, b: nat)
    ensures Low(x, a + b) == Low(Shr(x, a), b) * Pow2(a) + Low(x, a)
    ensures Shr(Low(x, a + b), a) == Low(Shr(x, a), b)
    ensures Shr(x, a + b) == Shr(Shr(x, a), b)
  {
    QuotRem(x, Pow2(a));
    LowOfSum(Shr(x, a), a, Low(x, a), b);
    QuotRemUnique(Low(x, a + b), Pow2(a), Low(Shr(x, a), b), Low(x, a));
  }

  function Min(a: nat, b: nat): nat { if a <= b then a else b }

  lemma MaskLow(s: nat, t: nat)
    ensures Low(Pow2(s) - 1, t) == Pow2(Min(s, t)) - 1
  {
    hide Pow2;
    if s <= t {
      Pow2Mono(s, t);
    } else {
      Pow2Add(t, s - t);
      var p, q := Pow2(t), Pow2(s - t);
      assert (q - 1) * p == p * q - p;
      QuotRemUnique(Pow2(s) - 1, p, q - 1, p - 1);
    }
  }

  lemma MaskShr(s: nat, t: nat)
    requires t <= s
    ensures Shr(Pow2(s) - 1, t) == Pow2(s - t) - 1
  {
    Pow2Add(t, s - t);
    var p, q := Pow2(t), Pow2(s - t);
    assert (q - 1) * p == p * q - p;
    QuotRemUnique(Pow2(s) - 1, p, q - 1, p - 1);
  }

  /** The byte of the element mask that lies k bytes from the right. */
  lemma MaskByte(bitLen: nat, k: nat)
    requires 8 * k < bitLen
    ensures BitAnd(Shr(Pow2(bitLen) - 1, 8 * k), 0xFF) == Pow2(Min(bitLen - 8 * k, 8)) - 1
  {
    MaskShr(bitLen, 8 * k);
    Pow2Values();
    AndMask(Pow2(bitLen - 8 * k) - 1, 8);
    MaskLow(bitLen - 8 * k, 8);
  }
}
