/** sha256Export and simplePrecalcSHA256 of sha256.cpp: the compression function that keeps its
    intermediate values, and the values handed to the mining kernel. */
module Sha256Export {
  import opened Bits
  import opened Sha256
  import opened Sha256Class
  import opened WordLogic

  // ---------- the macros: rotations to the left ----------

  function ZR25(n: Word): (r: Word)
    ensures r == LowerSigma0(n)
  {
    ((n << 25) | (n >> 7)) ^ ((n << 14) | (n >> 18)) ^ (n >> 3)
  }

  function ZR15(n: Word): (r: Word)
    ensures r == LowerSigma1(n)
  {
    ((n << 15) | (n >> 17)) ^ ((n << 13) | (n >> 19)) ^ (n >> 10)
  }

  function ZR26(n: Word): (r: Word)
    ensures r == UpperSigma1(n)
  {
    ((n << 26) | (n >> 6)) ^ ((n << 21) | (n >> 11)) ^ ((n << 7) | (n >> 25))
  }

  function ZR30(n: Word): (r: Word)
    ensures r == UpperSigma0(n)
  {
    ((n << 30) | (n >> 2)) ^ ((n << 19) | (n >> 13)) ^ ((n << 10) | (n >> 22))
  }

  function ChMacro(x: Word, y: Word, z: Word): (r: Word)
    ensures r == Ch(x, y, z)
  {
    ChooseForm(x, y, z);
    z ^ (x & (y ^ z))
  }

  function MaMacro(x: Word, y: Word, z: Word): (r: Word)
    ensures r == Maj(x, y, z)
  {
    MajorityForm2(x, y, z);
    (x & z) | (y & (x | z))
  }

  /** The first two loops: the message schedule. */
  method ScheduleWords(msg: seq<Word>) returns (w: array<Word>)
    requires |msg| == 16
    ensures fresh(w) && w.Length == 64 && forall t :: 0 <= t < 64 ==> w[t] == Schedule(msg, t)
  {
    hide Sum4, LowerSigma0, LowerSigma1, ZR15, ZR25;
    w := new Word[64];
    var i := 0;
    while i < 16
      invariant 0 <= i <= 16
      invariant forall t :: 0 <= t < i ==> w[t] == Schedule(msg, t)
    {
      w[i] := msg[i];
      i := i + 1;
    }
    while i < 64
      invariant 16 <= i <= 64
      invariant forall t :: 0 <= t < i ==> w[t] == Schedule(msg, t)
    {
      hide Schedule;
      var s0 := ZR25(w[i - 15]);
      var s1 := ZR15(w[i - 2]);
      var x := Sum4(w[i - 16], s0, w[i - 7], s1);
      Sum4Reversed(w[i - 16], s0, w[i - 7], s1);
      ScheduleAt(msg, i, w[..i], x);
      w[i] := x;
      i := i + 1;
    }
  }

  /** What the four arrays of intermediate values hold at position i. */
  ghost predicate KeptAt(s: State, msg: seq<Word>, i: nat, temp1: Word, temp2: Word, new1: Word, new2: Word)
    requires |msg| == 16 && i < 64
  {
    temp1 == T1(Steps(s, msg, i), Constant(i), Schedule(msg, i)) && temp2 == T2(Steps(s, msg, i))
    && new1 == Steps(s, msg, i + 1).a && new2 == Steps(s, msg, i + 1).e
  }

  /** sha256Export: s is compressed with msg, and the schedule and the intermediate values of all
      rounds come out. The source writes them to buffers of the caller. */
  method Export(msg: seq<Word>, s: array<Word>)
    returns (w: array<Word>, temp1Data: array<Word>, temp2Data: array<Word>, new1Data: array<Word>, new2Data: array<Word>)
    requires |msg| == 16 && s.Length == 8
    modifies s
    ensures Load(s[..]) == CompressWords(Load(old(s[..])), msg)
    ensures w.Length == temp1Data.Length == temp2Data.Length == new1Data.Length == new2Data.Length == 64
    ensures forall i :: 0 <= i < 64 ==> w[i] == Schedule(msg, i)
    ensures forall i :: 0 <= i < 64 ==>
              KeptAt(Load(old(s[..])), msg, i, temp1Data[i], temp2Data[i], new1Data[i], new2Data[i])
  {
    hide Schedule, KeptAt, Load, CompressWords;
    w := ScheduleWords(msg);
    temp1Data, temp2Data, new1Data, new2Data := new Word[64], new Word[64], new Word[64], new Word[64];
    var v := ExportRounds(msg, s, w, temp1Data, temp2Data, new1Data, new2Data);
    AddToState(s, v);
    CompressWordsIs(Load(old(s[..])), msg);
  }

  lemma CompressWordsIs(s: State, msg: seq<Word>)
    requires |msg| == 16
    ensures CompressWords(s, msg) == Add(s, Steps(s, msg, 64))
  {}

  /** The third loop: 64 rounds, whose intermediate values are kept. */
  method ExportRounds(msg: seq<Word>, s: array<Word>, w: array<Word>,
                      temp1Data: array<Word>, temp2Data: array<Word>, new1Data: array<Word>, new2Data: array<Word>)
    returns (v: State)
    requires |msg| == 16 && s.Length == 8 && w.Length == 64 && forall t :: 0 <= t < 64 ==> w[t] == Schedule(msg, t)
    requires temp1Data.Length == temp2Data.Length == new1Data.Length == new2Data.Length == 64
    requires {s, w} !! {temp1Data, temp2Data, new1Data, new2Data} && temp1Data != temp2Data && new1Data != new2Data
    requires {temp1Data, temp2Data} !! {new1Data, new2Data}
    modifies temp1Data, temp2Data, new1Data, new2Data
    ensures v == Steps(Load(s[..]), msg, 64)
    ensures forall i :: 0 <= i < 64 ==> KeptAt(Load(s[..]), msg, i, temp1Data[i], temp2Data[i], new1Data[i], new2Data[i])
  {
    hide Plus, LowerSigma0, LowerSigma1, UpperSigma0, UpperSigma1, Ch, Maj, ZR26, ZR30, ChMacro, MaMacro, T1, T2;
    hide Schedule, Constant, Steps, KeptAt;
    var a, b, c, d, e, f, g, h := s[0], s[1], s[2], s[3], s[4], s[5], s[6], s[7];
    ghost var s0 := Load(s[..]);
    NoSteps(s0, msg);
    var i := 0;
    while i < 64
      invariant 0 <= i <= 64 && State(a, b, c, d, e, f, g, h) == Steps(s0, msg, i)
      invariant forall j :: 0 <= j < i ==> KeptAt(s0, msg, j, temp1Data[j], temp2Data[j], new1Data[j], new2Data[j])
    {
      var S1 := ZR26(e);
      var ch := ChMacro(e, f, g);
      var temp1 := Plus(Plus(Plus(Plus(h, S1), ch), Constant(i)), w[i]);
      var S0 := ZR30(a);
      var maj := MaMacro(a, b, c);
      var temp2 := Plus(S0, maj);
      RoundMacros(State(a, b, c, d, e, f, g, h), Constant(i), w[i]);
      RoundKept(s0, msg, i, State(a, b, c, d, e, f, g, h), temp1, temp2);
      h := g;
      g := f;
      f := e;
      e := Plus(d, temp1);
      d := c;
      c := b;
      b := a;
      a := Plus(temp1, temp2);
      temp1Data[i] := temp1;
      temp2Data[i] := temp2;
      new1Data[i] := a;
      new2Data[i] := e;
      i := i + 1;
    }
    v := State(a, b, c, d, e, f, g, h);
  }

  /** The last lines: the working variables are added to the state. */
  method AddToState(s: array<Word>, v: State)
    requires s.Length == 8
    modifies s
    ensures Load(s[..]) == Add(Load(old(s[..])), v)
  {
    hide Plus;
    s[0] := Plus(s[0], v.a);
    s[1] := Plus(s[1], v.b);
    s[2] := Plus(s[2], v.c);
    s[3] := Plus(s[3], v.d);
    s[4] := Plus(s[4], v.e);
    s[5] := Plus(s[5], v.f);
    s[6] := Plus(s[6], v.g);
    s[7] := Plus(s[7], v.h);
  }

  lemma NoSteps(s: State, msg: seq<Word>)
    requires |msg| == 16
    ensures Steps(s, msg, 0) == s
  {}

  /** The two sums of a round, written with the macros. */
  lemma RoundMacros(v: State, k: Word, w: Word)
    ensures Plus(Plus(Plus(Plus(v.h, ZR26(v.e)), ChMacro(v.e, v.f, v.g)), k), w) == T1(v, k, w)
    ensures Plus(ZR30(v.a), MaMacro(v.a, v.b, v.c)) == T2(v)
  {
    hide Plus, UpperSigma0, UpperSigma1, Ch, Maj;
  }

  lemma RoundKept(s: State, msg: seq<Word>, i: nat, v: State, temp1: Word, temp2: Word)
    requires |msg| == 16 && i < 64 && v == Steps(s, msg, i)
    requires temp1 == T1(v, Constant(i), Schedule(msg, i)) && temp2 == T2(v)
    ensures Steps(s, msg, i + 1) == State(Plus(temp1, temp2), v.a, v.b, v.c, Plus(v.d, temp1), v.e, v.f, v.g)
    ensures KeptAt(s, msg, i, temp1, temp2, Plus(temp1, temp2), Plus(v.d, temp1))
  {
    hide Plus, T1, T2, Constant, Schedule;
  }
}
