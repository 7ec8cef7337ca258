/** base_uint of uint256.h: numbers of any width in 32-bit words, least significant first, whose
    operators are arithmetic modulo the width. */
module Uint256 {
  import opened Bits
  import opened Words

  const B := 0x1_0000_0000

  type uint32 = x: int | 0 <= x < 0x1_0000_0000

  /** The weight of word n. */
  function P(n: nat): (p: nat)
    ensures p > 0
  {
    if n == 0 then 1 else P(n - 1) * B
  }

  function Val(s: seq<uint32>): nat
  {
    if |s| == 0 then 0 else Val(s[..|s| - 1]) + s[|s| - 1] * P(|s| - 1)
  }

  lemma ValSnoc(s: seq<uint32>, x: uint32)
    ensures Val(s + [x]) == Val(s) + x * P(|s|)
  {
    assert (s + [x])[..|s|] == s;
  }

  lemma ValPrefix(s: seq<uint32>, i: nat)
    requires i < |s|
    ensures Val(s[..i + 1]) == Val(s[..i]) + s[i] * P(i)
  {
    assert s[..i + 1] == s[..i] + [s[i]];
    ValSnoc(s[..i], s[i]);
  }

  lemma {:induction false} ValBound(s: seq<uint32>)
    ensures Val(s) < P(|s|)
  {
    if |s| > 0 {
      var n := |s| - 1;
      ValBound(s[..n]);
      TwoDigitBound(s[n], Val(s[..n]), B, P(n));
      Commute(B, P(n));
    }
  }

  /** One column of an addition. */
  lemma Column(n: nat, p: nat)
    ensures (n % B) * p + (n / B) * (p * B) == n * p
  {
    var q, r := n / B, n % B;
    assert n == q * B + r;
    assert (q * B + r) * p == q * B * p + r * p;
    assert q * (p * B) == q * B * p;
  }

  lemma Spread(a: nat, b: nat, c: nat, p: nat)
    ensures (a + b + c) * p == a * p + b * p + c * p
  {}

  class base_uint {
    const pn: array<uint32>

    ghost predicate Valid()
    {
      pn.Length > 0
    }

    ghost function Value(): (v: nat)
      reads pn
      ensures v < P(pn.Length)
    {
      ValBound(pn[..]);
      Val(pn[..])
    }

    constructor (width: nat)
      requires width > 0
      ensures Valid() && fresh(pn) && pn.Length == width
    {
      pn := new uint32[width](_ => 0);
    }

    /** += : also when b is the same object. */
    method Add(b: base_uint)
      requires Valid() && b.pn.Length == pn.Length
      modifies pn
      ensures Value() == Rem(old(Value()) + old(b.Value()), P(pn.Length))
    {
      hide Rem, Val, P;
      ghost var x, y := pn[..], b.pn[..];
      var carry := 0;
      var i := 0;
      NoWords(x, y);
      while i < pn.Length
        invariant 0 <= i <= pn.Length && 0 <= carry <= 1
        invariant pn[i..] == x[i..] && b.pn[i..] == y[i..]
        invariant Val(pn[..i]) + carry * P(i) == Val(x[..i]) + Val(y[..i])
      {
        assert pn[i] == x[i] && b.pn[i] == y[i];
        var n := carry + pn[i] + b.pn[i];
        AddColumn(pn[..i], x, y, i, carry, n);
        pn[i] := n % B;
        assert pn[..i + 1] == pn[..i] + [n % B];
        carry := n / B;
        i := i + 1;
      }
      assert pn[..i] == pn[..] && x[..i] == x && y[..i] == y;
      ValBound(pn[..]);
      QuotRemUnique(Val(x) + Val(y), P(pn.Length), carry, Val(pn[..]));
    }

    /** Prefix ++: words turn to zero as long as the carry lasts. */
    method Increment()
      requires Valid()
      modifies pn
      ensures Value() == Rem(old(Value()) + 1, P(pn.Length))
    {
      hide Rem, Val, P;
      ghost var x := pn[..];
      var i := 0;
      NoWords(x, x);
      Nothing();
      assert x[..0] == [];
      Incremented(x, 0, []);
      pn[0] := (pn[0] + 1) % B;
      assert pn[..1] == [] + [pn[0]] && x[..0] == [];
      while pn[i] == 0 && i < pn.Length - 1
        invariant 0 <= i < pn.Length && pn[i + 1..] == x[i + 1..]
        invariant Val(pn[..i + 1]) + (if pn[i] == 0 then P(i + 1) else 0) == Val(x[..i + 1]) + 1
      {
        assert pn[i + 1] == x[i + 1];
        Incremented(x, i + 1, pn[..i + 1]);
        i := i + 1;
        pn[i] := (pn[i] + 1) % B;
        assert pn[..i + 1] == pn[..i] + [pn[i]];
      }
      RestSame(pn[..], x, i);
      ValBound(pn[..]);
      ValBound(x);
      if pn[i] == 0 {
        assert pn[..i + 1] == pn[..] && x[..i + 1] == x;
        QuotRemUnique(Val(x) + 1, P(pn.Length), 1, Val(pn[..]));
      } else {
        QuotRemUnique(Val(x) + 1, P(pn.Length), 0, Val(pn[..]));
      }
    }

    /** Prefix --: words turn to all ones as long as the borrow lasts. */
    method Decrement()
      requires Valid()
      modifies pn
      ensures Value() == Rem(old(Value()) + P(pn.Length) - 1, P(pn.Length))
    {
      hide Rem, Val, P;
      ghost var x := pn[..];
      var i := 0;
      NoWords(x, x);
      Nothing();
      assert x[..0] == [];
      Decremented(x, 0, []);
      pn[0] := (pn[0] - 1) % B;
      assert pn[..1] == [] + [pn[0]] && x[..0] == [];
      while pn[i] == 0xFFFF_FFFF && i < pn.Length - 1
        invariant 0 <= i < pn.Length && pn[i + 1..] == x[i + 1..]
        invariant Val(pn[..i + 1]) + 1 == Val(x[..i + 1]) + (if pn[i] == 0xFFFF_FFFF then P(i + 1) else 0)
      {
        assert pn[i + 1] == x[i + 1];
        Decremented(x, i + 1, pn[..i + 1]);
        i := i + 1;
        pn[i] := (pn[i] - 1) % B;
        assert pn[..i + 1] == pn[..i] + [pn[i]];
      }
      RestSame(pn[..], x, i);
      ValBound(pn[..]);
      ValBound(x);
      if pn[i] == 0xFFFF_FFFF {
        assert pn[..i + 1] == pn[..] && x[..i + 1] == x;
        QuotRemUnique(Val(x) + P(pn.Length) - 1, P(pn.Length), 0, Val(pn[..]));
      } else {
        QuotRemUnique(Val(x) + P(pn.Length) - 1, P(pn.Length), 1, Val(pn[..]));
      }
    }

    /** Unary minus: the complement plus one. */
    method Negate() returns (ret: base_uint)
      requires Valid()
      ensures ret.Valid() && fresh(ret) && fresh(ret.pn) && ret.pn.Length == pn.Length
      ensures ret.Value() == Rem(P(pn.Length) - Value(), P(pn.Length))
    {
      ret := new base_uint(pn.Length);
      var i := 0;
      while i < pn.Length
        invariant 0 <= i <= pn.Length
        invariant forall k :: 0 <= k < i ==> ret.pn[k] == 0xFFFF_FFFF - pn[k]
      {
        ret.pn[i] := 0xFFFF_FFFF - pn[i];
        i := i + 1;
      }
      Complement(pn[..], ret.pn[..]);
      ret.Increment();
    }

    /** -= : the sum with the negation. */
    method Subtract(b: base_uint)
      requires Valid() && b.pn.Length == pn.Length
      modifies pn
      ensures Value() == Rem(old(Value()) + (P(pn.Length) - old(b.Value())), P(pn.Length))
    {
      hide Val, P;
      var c := b.Negate();
      ValBound(b.pn[..]);
      RemOfSum(Value(), P(pn.Length) - b.Value(), P(pn.Length));
      Add(c);
    }

    /** operator< : the highest words that differ decide. The other order operators differ in what
        they answer for equal numbers, or in which side is less. */
    method Less(b: base_uint, orEqual: bool) returns (r: bool)
      requires b.pn.Length == pn.Length
      ensures r <==> Value() < b.Value() || (orEqual && Value() == b.Value())
    {
      hide Val, P;
      var i := pn.Length - 1;
      assert pn[i + 1..] == b.pn[i + 1..];
      while i >= 0
        invariant -1 <= i < pn.Length && pn[i + 1..] == b.pn[i + 1..]
      {
        if pn[i] < b.pn[i] {
          Decides(pn[..], b.pn[..], i);
          return true;
        } else if pn[i] > b.pn[i] {
          Decides(b.pn[..], pn[..], i);
          return false;
        }
        i := i - 1;
      }
      assert pn[0..] == pn[..] && b.pn[0..] == b.pn[..];
      r := orEqual;
    }

    /** <<= : each word goes to two neighbours, its high bits to the upper one. */
    method ShiftLeft(shift0: nat)
      requires Valid()
      modifies pn
      ensures Value() == Rem(old(Value()) * Pow2(shift0), P(pn.Length))
    {
      hide Pow2, P, Val, Rem, Lo, Hi, BitOr;
      ghost var W := pn.Length;
      var a := pn[..];
      var k, shift := shift0 / 32, shift0 % 32;
      Clear();
      var i := 0;
      while i < pn.Length
        invariant 0 <= i <= W && forall j :: 0 <= j < W ==> pn[j] == LeftPart(a, k, shift, j, i)
      {
        LeftStep(a, k, shift, i);
        if i + k + 1 < pn.Length && shift != 0 { pn[i + k + 1] := Or(pn[i + k + 1], Hi(a[i], shift)); }
        if i + k < pn.Length { pn[i + k] := Or(pn[i + k], Lo(a[i], shift)); }
        i := i + 1;
      }
      assert pn[..] == Left(a, k, shift);
      LeftValue(a, k, shift);
      assert 32 * k + shift == shift0;
    }

    /** >>= */
    method ShiftRight(shift0: nat)
      requires Valid()
      modifies pn
      ensures Value() == Quot(old(Value()), Pow2(shift0))
    {
      hide Pow2, P, Val, Quot, Up, Down, BitOr;
      ghost var W := pn.Length;
      var a := pn[..];
      var k, shift := shift0 / 32, shift0 % 32;
      Clear();
      var i := 0;
      while i < pn.Length
        invariant 0 <= i <= W && forall j :: 0 <= j < W ==> pn[j] == RightPart(a, k, shift, j, i)
      {
        RightStep(a, k, shift, i);
        if i - k - 1 >= 0 && shift != 0 { pn[i - k - 1] := Or(pn[i - k - 1], Up(a[i], shift)); }
        if i - k >= 0 { pn[i - k] := Or(pn[i - k], Down(a[i], shift)); }
        i := i + 1;
      }
      assert pn[..] == Right(a, k, shift);
      RightValue(a, k, shift);
      assert 32 * k + shift == shift0;
    }

    /** All words to zero. */
    method Clear()
      modifies pn
      ensures forall j :: 0 <= j < pn.Length ==> pn[j] == 0
    {
      var i := 0;
      while i < pn.Length
        invariant 0 <= i <= pn.Length && forall j :: 0 <= j < i ==> pn[j] == 0
      {
        pn[i] := 0;
        i := i + 1;
      }
    }
  }

  lemma Incremented(x: seq<uint32>, i: nat, done: seq<uint32>)
    requires i == |done| < |x| && Val(done) + P(i) == Val(x[..i]) + 1
    ensures var w := (x[i] + 1) % B;
            Val(done + [w]) + (if w == 0 then P(i + 1) else 0) == Val(x[..i + 1]) + 1
  {
    ValSnoc(done, (x[i] + 1) % B);
    ValPrefix(x, i);
    Column((x[i] as int) + 1, P(i));
    Spread(x[i], 1, 0, P(i));
  }

  lemma Decremented(x: seq<uint32>, i: nat, done: seq<uint32>)
    requires i == |done| < |x| && Val(done) + 1 == Val(x[..i]) + P(i)
    ensures var w := (x[i] - 1) % B;
            Val(done + [w]) + 1 == Val(x[..i + 1]) + (if w == 0xFFFF_FFFF then P(i + 1) else 0)
  {
    var w := (x[i] - 1) % B;
    ValSnoc(done, w);
    ValPrefix(x, i);
    if x[i] == 0 {
      assert w == 0xFFFF_FFFF;
      Spread(0xFFFF_FFFF, 1, 0, P(i));
    } else {
      assert w == x[i] - 1;
      Spread(w, 1, 0, P(i));
    }
  }

  /** Equal words above position i make equal differences. */
  lemma {:induction false} RestSame(x: seq<uint32>, y: seq<uint32>, i: nat)
    requires i < |x| == |y| && x[i + 1..] == y[i + 1..]
    ensures Val(x) - Val(x[..i + 1]) == Val(y) - Val(y[..i + 1])
    decreases |x|
  {
    var n := |x| - 1;
    if i < n {
      assert x[n] == x[i + 1..][n - i - 1] && y[n] == y[i + 1..][n - i - 1];
      assert x[..n][i + 1..] == x[i + 1..][..n - i - 1] && y[..n][i + 1..] == y[i + 1..][..n - i - 1];
      RestSame(x[..n], y[..n], i);
      assert x[..n][..i + 1] == x[..i + 1] && y[..n][..i + 1] == y[..i + 1];
    } else {
      assert x[..i + 1] == x && y[..i + 1] == y;
    }
  }

  lemma {:induction false} Complement(x: seq<uint32>, y: seq<uint32>)
    requires |x| == |y| && forall k :: 0 <= k < |x| ==> y[k] == 0xFFFF_FFFF - x[k]
    ensures Val(y) + Val(x) + 1 == P(|x|)
  {
    if |x| > 0 {
      var n := |x| - 1;
      Complement(x[..n], y[..n]);
      Spread(x[n], y[n], 1, P(n));
      Commute(B, P(n));
    }
  }

  lemma RemOfSum(a: nat, b: nat, n: nat)
    requires n > 0
    ensures Rem(a + Rem(b, n), n) == Rem(a + b, n)
  {
    hide Quot, Rem;
    QuotRem(b, n);
    QuotRem(a + Rem(b, n), n);
    var q, k := Quot(b, n), Quot(a + Rem(b, n), n);
    assert q * n + k * n == (q + k) * n;
    QuotRemUnique(a + b, n, q + k, Rem(a + Rem(b, n), n));
  }

  lemma Decides(x: seq<uint32>, y: seq<uint32>, i: nat)
    requires i < |x| == |y| && x[i + 1..] == y[i + 1..] && x[i] < y[i]
    ensures Val(x) < Val(y)
  {
    hide Val;
    RestSame(x, y, i);
    ValPrefix(x, i);
    ValPrefix(y, i);
    ValBound(x[..i]);
    MulMono(x[i] + 1, y[i], P(i));
    Spread(x[i], 1, 0, P(i));
  }

  lemma Nothing()
    ensures Val([]) == 0
  {}

  lemma NoWords(x: seq<uint32>, y: seq<uint32>)
    ensures Val(x[..0]) == Val(y[..0]) == 0 && P(0) == 1
  {}

  lemma AddColumn(done: seq<uint32>, x: seq<uint32>, y: seq<uint32>, i: nat, carry: nat, n: nat)
    requires i == |done| < |x| == |y| && n == carry + x[i] + y[i] && carry <= 1
    requires Val(done) + carry * P(i) == Val(x[..i]) + Val(y[..i])
    ensures Val(done + [n % B]) + (n / B) * P(i + 1) == Val(x[..i + 1]) + Val(y[..i + 1])
  {
    ValSnoc(done, n % B);
    ValPrefix(x, i);
    ValPrefix(y, i);
    hide Val;
    Column(n, P(i));
    Spread(carry, x[i], y[i], P(i));
  }

  // ---------- shifts by less than a word ----------

  /** What a << s leaves in the word, in 32 bits. */
  function Lo(x: uint32, s: nat): (r: uint32)
    requires s < 32
  {
    Pow2Values();
    Shl32(x, s)
  }

  /** What it moves into the next word: x >> (32 - s). */
  function Hi(x: uint32, s: nat): (r: uint32)
    requires s < 32
  {
    ShrSmall(x, 32 - s);
    if s == 0 then 0 else Shr(x, 32 - s)
  }

  function Down(x: uint32, s: nat): (r: uint32)
    requires s < 32
  {
    ShrSmall(x, s);
    Shr(x, s)
  }

  /** What x >> s moves into the word below: x << (32 - s). */
  function Up(x: uint32, s: nat): (r: uint32)
    requires s < 32
  {
    Pow2Values();
    if s == 0 then 0 else Shl32(x, 32 - s)
  }

  function Or(x: uint32, y: uint32): uint32
  {
    Pow2Values();
    OrBound(x, y, 32);
    BitOr(x, y)
  }

  lemma ShrSmall(x: nat, s: nat)
    requires x < B
    ensures Shr(x, s) < B
  {
    QuotRem(x, Pow2(s));
    MulMono(1, Pow2(s), Quot(x, Pow2(s)));
    Commute(Pow2(s), Quot(x, Pow2(s)));
  }

  lemma {:induction false} OrBound(x: nat, y: nat, n: nat)
    requires x < Pow2(n) && y < Pow2(n)
    ensures BitOr(x, y) < Pow2(n)
    decreases n
  {
    if n > 0 { OrBound(x / 2, y / 2, n - 1); }
  }

  lemma {:induction false} OrCommutes(x: nat, y: nat)
    ensures BitOr(x, y) == BitOr(y, x)
    decreases x + y
  {
    if x > 0 && y > 0 { OrCommutes(x / 2, y / 2); }
  }

  ghost predicate IsMultiple(x: nat, t: nat) { exists q: nat :: x == q * Pow2(t) }

  /** The two parts of a shifted word. */
  lemma LoHi(x: uint32, s: nat)
    requires s < 32
    ensures x * Pow2(s) == Hi(x, s) * B + Lo(x, s)
    ensures IsMultiple(Lo(x, s), s)
    ensures Hi(x, s) < Pow2(s)
  {
    if s == 0 {
      One();
      Pow2Values();
      LowSmall(x, 32);
      assert x * 1 == x && Lo(x, 0) == x * Pow2(0);
    } else {
      LoHiMoved(x, s);
    }
  }

  lemma LoHiMoved(x: uint32, s: nat)
    requires 0 < s < 32
    ensures x * Pow2(s) == Hi(x, s) * B + Lo(x, s) && IsMultiple(Lo(x, s), s) && Hi(x, s) < Pow2(s)
  {
    hide Pow2, Quot, Rem;
    Pow2Values();
    ShlMultiple(x, s);
    QuotRem(x, Pow2(32 - s));
    Pow2Add(32 - s, s);
    var q, r, t, u := Shr(x, 32 - s), Low(x, 32 - s), Pow2(s), Pow2(32 - s);
    assert Lo(x, s) == r * t && x == q * u + r;
    Distribute(q, u, r, t);
    Commute(u, t);
    QuotBound(x, u, t);
  }

  lemma Distribute(q: nat, u: nat, r: nat, t: nat)
    ensures (q * u + r) * t == q * (u * t) + r * t
  {
    assert q * u * t == q * (u * t);
  }

  lemma One()
    ensures Pow2(0) == 1
  {}

  /** The parts of two words with different bits do not overlap. */
  lemma OrIsSum(q: nat, t: nat, y: nat)
    requires y < Pow2(t)
    ensures BitOr(y, q * Pow2(t)) == q * Pow2(t) + y
  {
    hide Pow2;
    OrDisjoint(q, t, y);
    OrCommutes(y, q * Pow2(t));
  }

  lemma OrZero(y: uint32)
    ensures Or(0, y) == y
  {}

  lemma OrHiLo(y: uint32, x: uint32, s: nat)
    requires s < 32
    ensures Or(Hi(y, s), Lo(x, s)) == Lo(x, s) + Hi(y, s)
  {
    hide Pow2, Lo, Hi;
    LoHi(y, s);
    LoHi(x, s);
    var q: nat :| Lo(x, s) == q * Pow2(s);
    OrIsSum(q, s, Hi(y, s));
  }

  // ---------- shifting left ----------

  /** Word j of the result while the words below i have been moved. */
  ghost function LeftPart(a: seq<uint32>, k: nat, s: nat, j: nat, i: nat): nat
    requires s < 32 && i <= |a|
  {
    (if k <= j && j - k < i then Lo(a[j - k], s) else 0) + (if k + 1 <= j && j - k - 1 < i then Hi(a[j - k - 1], s) else 0)
  }

  ghost function Left(a: seq<uint32>, k: nat, s: nat): (r: seq<uint32>)
    requires s < 32
    ensures |r| == |a| && forall j :: 0 <= j < |a| ==> r[j] == LeftPart(a, k, s, j, |a|)
  {
    LeftFits(a, k, s);
    seq(|a|, j requires 0 <= j < |a| => LeftPart(a, k, s, j, |a|))
  }

  lemma LeftFits(a: seq<uint32>, k: nat, s: nat)
    requires s < 32
    ensures forall j, i :: 0 <= j && 0 <= i <= |a| ==> 0 <= LeftPart(a, k, s, j, i) < B
  {
    hide Lo, Hi, Or;
    forall j, i | 0 <= j && 0 <= i <= |a| ensures LeftPart(a, k, s, j, i) < B {
      if k + 1 <= j && j - k < i { OrHiLo(a[j - k - 1], a[j - k], s); }
    }
  }

  /** The two writes of one turn. */
  lemma LeftStep(a: seq<uint32>, k: nat, s: nat, i: nat)
    requires s < 32 && i < |a|
    ensures LeftPart(a, k, s, i + k + 1, i) == 0 && Or(0, Hi(a[i], s)) == Hi(a[i], s) == LeftPart(a, k, s, i + k + 1, i + 1)
    ensures s == 0 ==> Hi(a[i], s) == 0
    ensures 0 <= LeftPart(a, k, s, i + k, i) < B && Or(LeftPart(a, k, s, i + k, i), Lo(a[i], s)) == LeftPart(a, k, s, i + k, i + 1)
    ensures forall j :: 0 <= j && j != i + k && j != i + k + 1 ==> LeftPart(a, k, s, j, i) == LeftPart(a, k, s, j, i + 1)
  {
    OrZero(Hi(a[i], s));
    OrZero(Lo(a[i], s));
    hide Lo, Or;
    LeftFits(a, k, s);
    if i > 0 { OrHiLo(a[i - 1], a[i], s); }
  }

  lemma {:induction false} WeightAdd(m: nat, n: nat)
    ensures P(m + n) == P(m) * P(n)
    decreases n
  {
    if n > 0 {
      WeightAdd(m, n - 1);
      Regroup(P(m), P(n - 1), 0, B, 0);
    }
  }

  lemma {:induction false} WeightIsPow2(k: nat)
    ensures P(k) == Pow2(32 * k)
  {
    if k > 0 {
      hide Pow2;
      WeightIsPow2(k - 1);
      Pow2Add(32 * (k - 1), 32);
      Pow2Values();
    } else {
      One();
    }
  }

  lemma {:induction false} ZeroWords(s: seq<uint32>)
    requires forall i :: 0 <= i < |s| ==> s[i] == 0
    ensures Val(s) == 0
  {
    if |s| > 0 { ZeroWords(s[..|s| - 1]); }
  }

  /** The value of the first k + m words of the result. */
  lemma {:induction false} LeftPrefix(a: seq<uint32>, k: nat, s: nat, m: nat)
    requires s < 32 && k + m <= |a|
    ensures Val(Left(a, k, s)[..k + m]) + (if m == 0 then 0 else Hi(a[m - 1], s) * P(k + m)) == Val(a[..m]) * (Pow2(s) * P(k))
  {
    hide Lo, Hi, Pow2, Val, P;
    var r := Left(a, k, s);
    if m == 0 {
      ZeroWords(r[..k]);
      NoWords(a, a);
      assert 0 * (Pow2(s) * P(k)) == 0;
    } else {
      LeftPrefix(a, k, s, m - 1);
      ValPrefix(r, k + m - 1);
      ValPrefix(a, m - 1);
      LoHi(a[m - 1], s);
      NextWeight(k + m - 1);
      WeightAdd(k, m - 1);
      LeftAlgebra(Val(r[..k + m - 1]), Lo(a[m - 1], s), if m == 1 then 0 else Hi(a[m - 2], s), P(k + m - 1), Hi(a[m - 1], s),
                  Val(a[..m - 1]), a[m - 1], P(m - 1), Pow2(s), P(k));
    }
  }

  lemma NextWeight(n: nat)
    ensures P(n + 1) == P(n) * B
  {}

  lemma LeftAlgebra(v: nat, lo: nat, below: nat, p: nat, hi: nat, w: nat, x: nat, pm: nat, t: nat, pk: nat)
    requires v + below * p == w * (t * pk) && x * t == hi * B + lo && p == pk * pm
    ensures (v + (lo + below) * p) + hi * (p * B) == (w + x * pm) * (t * pk)
  {
    assert (lo + below) * p == lo * p + below * p;
    assert hi * (p * B) == hi * B * p;
    assert hi * B * p + lo * p == (hi * B + lo) * p == (x * t) * p;
    assert (x * t) * (pk * pm) == (x * pm) * (t * pk) by { Four(x, t, pk, pm); }
    assert (w + x * pm) * (t * pk) == w * (t * pk) + (x * pm) * (t * pk);
  }

  lemma Four(a: nat, b: nat, c: nat, d: nat)
    ensures (a * b) * (c * d) == (a * d) * (b * c)
  {
    assert (a * b) * (c * d) == a * (b * c) * d;
    assert (a * d) * (b * c) == a * (b * c) * d;
  }

  lemma {:induction false} ValJoin(x: seq<uint32>, y: seq<uint32>)
    ensures Val(x + y) == Val(x) + Val(y) * P(|x|)
    decreases |y|
  {
    hide P;
    if |y| == 0 {
      assert x + y == x;
    } else {
      var n := |y| - 1;
      ValJoin(x, y[..n]);
      assert (x + y)[..|x| + n] == x + y[..n];
      WeightAdd(|x|, n);
      assert y[n] * (P(|x|) * P(n)) == y[n] * P(n) * P(|x|);
      assert (Val(y[..n]) + y[n] * P(n)) * P(|x|) == Val(y[..n]) * P(|x|) + y[n] * P(n) * P(|x|);
    }
  }

  /** <<= multiplies by 2^shift, modulo the width. */
  lemma LeftValue(a: seq<uint32>, k: nat, s: nat)
    requires s < 32
    ensures Val(Left(a, k, s)) == Rem(Val(a) * Pow2(32 * k + s), P(|a|))
  {
    hide Lo, Hi, Pow2, Val, P, Rem, Quot;
    var r, W := Left(a, k, s), |a|;
    WeightIsPow2(k);
    Pow2Add(32 * k, s);
    Commute(Pow2(s), P(k));
    var t := Pow2(s) * P(k);
    ValBound(r);
    if k <= W {
      var m := W - k;
      LeftPrefix(a, k, s, m);
      assert r[..k + m] == r && a == a[..m] + a[m..];
      ValJoin(a[..m], a[m..]);
      WeightAdd(k, m);
      var hi := if m == 0 then 0 else Hi(a[m - 1], s);
      assert Val(a[m..]) * P(m) * (Pow2(s) * P(k)) == Val(a[m..]) * Pow2(s) * (P(k) * P(m)) by { Swap(Val(a[m..]), P(m), Pow2(s), P(k)); }
      assert (Val(a[..m]) + Val(a[m..]) * P(m)) * t == Val(a[..m]) * t + Val(a[m..]) * P(m) * t;
      assert hi * P(W) + Val(a[m..]) * Pow2(s) * P(W) == (hi + Val(a[m..]) * Pow2(s)) * P(W);
      QuotRemUnique(Val(a) * t, P(W), hi + Val(a[m..]) * Pow2(s), Val(r));
    } else {
      ZeroWords(r);
      WeightAdd(k - W, W);
      assert Val(a) * (Pow2(s) * (P(k - W) * P(W))) == Val(a) * Pow2(s) * P(k - W) * P(W) by { Left4(Val(a), Pow2(s), P(k - W), P(W)); }
      QuotRemUnique(Val(a) * t, P(W), Val(a) * Pow2(s) * P(k - W), 0);
    }
  }

  lemma Swap(a: nat, b: nat, c: nat, d: nat)
    ensures a * b * (c * d) == a * c * (d * b)
  {
    assert a * b * (c * d) == a * (b * c) * d;
    assert a * c * (d * b) == a * (b * c) * d;
  }

  lemma Left4(a: nat, b: nat, c: nat, d: nat)
    ensures a * (b * (c * d)) == a * b * c * d
  {
    assert a * (b * (c * d)) == a * b * (c * d) == a * b * c * d;
  }

  // ---------- shifting right ----------

  /** The parts of a word that is shifted to the right. */
  lemma DownUp(x: uint32, s: nat)
    requires s < 32
    ensures x == Down(x, s) * Pow2(s) + Low(x, s)
    ensures Up(x, s) * Pow2(s) == (if s == 0 then 0 else Low(x, s) * B)
    ensures IsMultiple(Up(x, s), 32 - s)
    ensures Down(x, s) < Pow2(32 - s)
  {
    hide Pow2, Quot, Rem;
    Pow2Values();
    QuotRem(x, Pow2(s));
    Pow2Add(32 - s, s);
    QuotBound(x, Pow2(s), Pow2(32 - s));
    if s == 0 {
      assert Up(x, s) == 0 * Pow2(32 - s);
    } else {
      ShlMultiple(x, 32 - s);
      var l := Low(x, s);
      assert 32 - (32 - s) == s;
      assert Up(x, s) == l * Pow2(32 - s);
      Regroup(l, Pow2(32 - s), 0, Pow2(s), 0);
    }
  }

  lemma OrDownUp(y: uint32, x: uint32, s: nat)
    requires s < 32
    ensures Or(Down(y, s), Up(x, s)) == Up(x, s) + Down(y, s)
  {
    hide Pow2, Down, Up;
    DownUp(y, s);
    DownUp(x, s);
    var q: nat :| Up(x, s) == q * Pow2(32 - s);
    OrIsSum(q, 32 - s, Down(y, s));
  }

  /** Word j of the result while the words below i have been moved. */
  ghost function RightPart(a: seq<uint32>, k: nat, s: nat, j: nat, i: nat): nat
    requires s < 32 && i <= |a|
  {
    (if j + k < i then Down(a[j + k], s) else 0) + (if j + k + 1 < i then Up(a[j + k + 1], s) else 0)
  }

  lemma RightFits(a: seq<uint32>, k: nat, s: nat)
    requires s < 32
    ensures forall j, i :: 0 <= j && 0 <= i <= |a| ==> 0 <= RightPart(a, k, s, j, i) < B
  {
    hide Down, Up, Or;
    forall j, i | 0 <= j && 0 <= i <= |a| ensures RightPart(a, k, s, j, i) < B {
      if j + k + 1 < i { OrDownUp(a[j + k], a[j + k + 1], s); }
    }
  }

  ghost function Right(a: seq<uint32>, k: nat, s: nat): (r: seq<uint32>)
    requires s < 32
    ensures |r| == |a| && forall j :: 0 <= j < |a| ==> r[j] == RightPart(a, k, s, j, |a|)
  {
    RightFits(a, k, s);
    seq(|a|, j requires 0 <= j < |a| => RightPart(a, k, s, j, |a|))
  }

  /** The two writes of one turn. */
  lemma RightStep(a: seq<uint32>, k: nat, s: nat, i: nat)
    requires s < 32 && i < |a|
    ensures s == 0 ==> Up(a[i], s) == 0
    ensures i >= k + 1 ==> RightPart(a, k, s, i - k - 1, i) < B
                           && Or(RightPart(a, k, s, i - k - 1, i), Up(a[i], s)) == RightPart(a, k, s, i - k - 1, i + 1)
    ensures i >= k ==> RightPart(a, k, s, i - k, i) == 0 && Or(0, Down(a[i], s)) == RightPart(a, k, s, i - k, i + 1)
    ensures forall j :: 0 <= j && j + k != i && j + k + 1 != i ==> RightPart(a, k, s, j, i) == RightPart(a, k, s, j, i + 1)
  {
    OrZero(Down(a[i], s));
    hide Down, Or;
    RightFits(a, k, s);
    if i >= k + 1 { OrDownUp(a[i - 1], a[i], s); }
  }

  /** The bits that fall out of word n, or would if there were one. */
  ghost function Out(a: seq<uint32>, n: nat, s: nat): nat { if n < |a| then Low(a[n], s) else 0 }

  /** The first m words of the result, from word k of the source on. */
  lemma {:induction false} RightPrefix(a: seq<uint32>, k: nat, s: nat, m: nat)
    requires s < 32 && k < |a| && k + m <= |a|
    ensures Val(Right(a, k, s)[..m]) * Pow2(s) + Out(a, k, s) == Val(a[k..][..m]) + Out(a, k + m, s) * P(m)
  {
    hide Down, Up, Pow2, Val, P, Low;
    var r := Right(a, k, s);
    if m == 0 {
      NoWords(r, a[k..]);
    } else {
      RightPrefix(a, k, s, m - 1);
      ValPrefix(r, m - 1);
      ValPrefix(a[k..], m - 1);
      DownUp(a[k + m - 1], s);
      if k + m < |a| { DownUp(a[k + m], s); }
      NoBits(a, k + m, s);
      NextWeight(m - 1);
      RightAlgebra(Val(r[..m - 1]), Pow2(s), Down(a[k + m - 1], s), if k + m < |a| then Up(a[k + m], s) else 0, P(m - 1),
                   Out(a, k, s), Val(a[k..][..m - 1]), Out(a, k + m - 1, s), a[k + m - 1], Out(a, k + m, s));
    }
  }

  lemma NoBits(a: seq<uint32>, n: nat, s: nat)
    ensures s == 0 ==> Out(a, n, s) == 0
  {
    One();
  }

  lemma RightAlgebra(v: nat, t: nat, down: nat, up: nat, p: nat, o: nat, w: nat, low: nat, x: nat, next: nat)
    requires v * t + o == w + low * p && x == down * t + low && up * t == next * B
    ensures (v + (down + up) * p) * t + o == w + x * p + next * (p * B)
  {
    assert (v + (down + up) * p) * t == v * t + down * t * p + up * t * p;
    assert (down * t + low) * p == down * t * p + low * p;
    assert next * B * p == next * (p * B);
  }

  /** >>= divides by 2^shift. */
  lemma RightValue(a: seq<uint32>, k: nat, s: nat)
    requires s < 32
    ensures Val(Right(a, k, s)) == Quot(Val(a), Pow2(32 * k + s))
  {
    hide Down, Up, Pow2, Val, P, Rem, Quot, Low;
    var r, W := Right(a, k, s), |a|;
    WeightIsPow2(k);
    Pow2Add(32 * k, s);
    var t := P(k) * Pow2(s);
    if k < W {
      var m := W - k;
      RightPrefix(a, k, s, m);
      assert a[k..][..m] == a[k..] && a == a[..k] + a[k..];
      ValJoin(a[..k], a[k..]);
      ValBound(a[..k]);
      ZeroTail(r, m);
      var low := Out(a, k, s);
      var v := Val(r);
      assert low < Pow2(s);
      TwoDigitBound(low, Val(a[..k]), Pow2(s), P(k));
      Commute(Pow2(s), P(k));
      assert (v * Pow2(s) + low) * P(k) == v * (P(k) * Pow2(s)) + low * P(k);
      QuotRemUnique(Val(a), t, v, low * P(k) + Val(a[..k]));
    } else {
      ZeroWords(r);
      ValBound(a);
      WeightAdd(W, k - W);
      MulMono(1, P(k - W), P(W));
      Commute(P(W), P(k - W));
      MulMono(1, Pow2(s), P(k));
      Commute(P(k), Pow2(s));
      QuotRemUnique(Val(a), t, 0, Val(a));
    }
  }

  lemma ZeroTail(r: seq<uint32>, m: nat)
    requires m <= |r| && forall j :: m <= j < |r| ==> r[j] == 0
    ensures Val(r) == Val(r[..m])
  {
    hide Val, P;
    assert r == r[..m] + r[m..];
    ZeroWords(r[m..]);
    ValJoin(r[..m], r[m..]);
  }
}
