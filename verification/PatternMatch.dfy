/** The wildcard matcher of config4cpp's Configuration. */
module PatternMatch {
  import opened CStrings

  /** What a pattern means: '*' stands for zero or more characters, all others for themselves. */
  ghost predicate Matches(s: string, p: string)
    decreases |p|
  {
    if |p| == 0 then |s| == 0
    else if p[0] == '*' then exists k :: 0 <= k <= |s| && Matches(s[k..], p[1..])
    else |s| > 0 && s[0] == p[0] && Matches(s[1..], p[1..])
  }

  lemma StarMatches(s: string, k: nat, p: string)
    requires k <= |s| && Matches(s[k..], p)
    ensures Matches(s, "*" + p)
  {
    assert ("*" + p)[1..] == p;
  }

  lemma StarSplits(s: string, p: string) returns (k: nat)
    requires Matches(s, "*" + p)
    ensures k <= |s| && Matches(s[k..], p)
  {
    assert ("*" + p)[1..] == p;
    k :| 0 <= k <= |s| && Matches(s[k..], p);
  }

  /** A final star matches everything. */
  lemma FinalStar(s: string)
    ensures Matches(s, "*")
  {
    assert s[|s|..] == [] && "*" == "*" + "";
    StarMatches(s, |s|, "");
  }

  /** A run of stars means the same as one star. */
  lemma TwoStars(s: string, p: string)
    ensures Matches(s, "**" + p) <==> Matches(s, "*" + p)
  {
    hide Matches;
    assert "*" + ("*" + p) == "**" + p;
    if Matches(s, "**" + p) {
      var k := StarSplits(s, "*" + p);
      var j := StarSplits(s[k..], p);
      assert s[k..][j..] == s[k + j..];
      StarMatches(s, k + j, p);
    }
    if Matches(s, "*" + p) {
      assert s[0..] == s;
      StarMatches(s, 0, "*" + p);
    }
  }

  // ---------- the texts that match ----------

  function Stars(p: string): nat
  {
    if |p| == 0 then 0 else Stars(p[1..]) + if p[0] == '*' then 1 else 0
  }

  /** The pattern with a text in the place of each star. */
  function Filled(p: string, texts: seq<string>): string
    requires |texts| == Stars(p)
  {
    if |p| == 0 then ""
    else if p[0] == '*' then texts[0] + Filled(p[1..], texts[1..])
    else [p[0]] + Filled(p[1..], texts)
  }

  ghost predicate IsFilling(s: string, p: string, texts: seq<string>)
  {
    |texts| == Stars(p) && s == Filled(p, texts)
  }

  /** The texts that match are those that the pattern becomes when its stars are replaced. */
  lemma {:induction false} MatchesAreFillings(s: string, p: string)
    ensures Matches(s, p) <==> exists texts :: IsFilling(s, p, texts)
    decreases |p|
  {
    if |p| == 0 {
      assert s == "" ==> IsFilling(s, p, []);
    } else if p[0] == '*' {
      StarFillings(s, p);
    } else {
      PlainFillings(s, p);
    }
  }

  lemma {:induction false} PlainFillings(s: string, p: string)
    requires |p| > 0 && p[0] != '*'
    ensures Matches(s, p) <==> exists texts :: IsFilling(s, p, texts)
    decreases |p|, 0
  {
    hide Matches;
    MatchesPlain(s, p);
    if |s| > 0 {
      MatchesAreFillings(s[1..], p[1..]);
      assert s == [s[0]] + s[1..];
    }
    if Matches(s, p) {
      var texts :| IsFilling(s[1..], p[1..], texts);
      assert IsFilling(s, p, texts);
    }
    if texts :| IsFilling(s, p, texts) {
      assert s == [p[0]] + Filled(p[1..], texts);
      assert s[1..] == Filled(p[1..], texts);
      assert IsFilling(s[1..], p[1..], texts);
    }
  }

  lemma {:induction false} StarFillings(s: string, p: string)
    requires |p| > 0 && p[0] == '*'
    ensures Matches(s, p) <==> exists texts :: IsFilling(s, p, texts)
    decreases |p|, 0
  {
    hide Matches;
    assert p == "*" + p[1..];
    if Matches(s, p) {
      var k := StarSplits(s, p[1..]);
      MatchesAreFillings(s[k..], p[1..]);
      var texts :| IsFilling(s[k..], p[1..], texts);
      var all := [s[..k]] + texts;
      assert all[1..] == texts && s == s[..k] + s[k..];
      assert IsFilling(s, p, all);
    }
    if texts :| IsFilling(s, p, texts) {
      var k := |texts[0]|;
      assert s[k..] == Filled(p[1..], texts[1..]);
      assert IsFilling(s[k..], p[1..], texts[1..]);
      MatchesAreFillings(s[k..], p[1..]);
      StarMatches(s, k, p[1..]);
    }
  }

  /** A text as the source holds it: its characters and a terminator, which is not among them. */
  ghost predicate Terminated(s: string, len: nat)
  {
    |s| == len + 1 && s[len] == '\0' && forall i :: 0 <= i < len ==> s[i] != '\0'
  }

  lemma Unfold(p: string, i: nat, len: nat)
    requires i < len <= |p|
    ensures p[i..len] == [p[i]] + p[i + 1..len] && p[i..len][1..] == p[i + 1..len]
  {}

  /** The source's loop over a run of stars. */
  method SkipStars(wStr: string, wPattern: string, at: nat, wPatternLen: nat) returns (wPatternIndex: nat)
    requires Terminated(wPattern, wPatternLen) && at < wPatternLen && wPattern[at] == '*'
    ensures at < wPatternIndex <= wPatternLen && wPattern[wPatternIndex] != '*'
    ensures forall s :: Matches(s, wPattern[at..wPatternLen]) <==> Matches(s, "*" + wPattern[wPatternIndex..wPatternLen])
  {
    wPatternIndex := at + 1;
    Unfold(wPattern, at, wPatternLen);
    while wPattern[wPatternIndex] == '*'
      invariant at < wPatternIndex <= wPatternLen
      invariant forall s :: Matches(s, wPattern[at..wPatternLen]) <==> Matches(s, "*" + wPattern[wPatternIndex..wPatternLen])
      decreases wPatternLen - wPatternIndex
    {
      hide Matches;
      Unfold(wPattern, wPatternIndex, wPatternLen);
      var rest := wPattern[wPatternIndex + 1..wPatternLen];
      assert "*" + ("*" + rest) == "**" + rest;
      forall s ensures Matches(s, "*" + wPattern[wPatternIndex..wPatternLen]) <==> Matches(s, "*" + rest) {
        TwoStars(s, rest);
      }
      wPatternIndex := wPatternIndex + 1;
    }
  }

  method patternMatchInternal(wStr: string, strIndex: nat, wStrLen: nat, wPattern: string, patternIndex: nat, wPatternLen: nat)
    returns (result: bool)
    requires Terminated(wStr, wStrLen) && Terminated(wPattern, wPatternLen)
    requires strIndex <= wStrLen && patternIndex <= wPatternLen
    ensures result <==> Matches(wStr[strIndex..wStrLen], wPattern[patternIndex..wPatternLen])
    decreases wPatternLen - patternIndex
  {
    hide Matches;
    var wStrIndex, wPatternIndex := strIndex, patternIndex;
    while wPatternIndex < wPatternLen
      invariant strIndex <= wStrIndex <= wStrLen && patternIndex <= wPatternIndex <= wPatternLen
      invariant Matches(wStr[strIndex..wStrLen], wPattern[patternIndex..wPatternLen])
           <==> Matches(wStr[wStrIndex..wStrLen], wPattern[wPatternIndex..wPatternLen])
    {
      ghost var s, p := wStr[wStrIndex..wStrLen], wPattern[wPatternIndex..wPatternLen];
      if wPattern[wPatternIndex] != '*' {
        Unfold(wPattern, wPatternIndex, wPatternLen);
        MatchesPlain(s, p);
        if wPattern[wPatternIndex] != wStr[wStrIndex] { return false; }
        Unfold(wStr, wStrIndex, wStrLen);
        wPatternIndex := wPatternIndex + 1;
        if wStrIndex < wStrLen { wStrIndex := wStrIndex + 1; }
      } else {
        wPatternIndex := SkipStars(wStr, wPattern, wPatternIndex, wPatternLen);
        ghost var rest := wPattern[wPatternIndex..wPatternLen];
        if wPatternIndex == wPatternLen {
          FinalStar(s);
          assert "*" + rest == "*";
          return true;
        }
        ghost var first := wStrIndex;
        while wStrIndex < wStrLen
          invariant first <= wStrIndex <= wStrLen
          invariant forall i :: first <= i < wStrIndex ==> !Matches(wStr[i..wStrLen], rest)
        {
          var found := patternMatchInternal(wStr, wStrIndex, wStrLen, wPattern, wPatternIndex, wPatternLen);
          if found {
            assert s[wStrIndex - first..] == wStr[wStrIndex..wStrLen];
            StarMatches(s, wStrIndex - first, rest);
            return true;
          }
          wStrIndex := wStrIndex + 1;
        }
        NothingLeft(rest);
        NoPlaceForStar(wStr, first, wStrLen, rest);
        assert wStr[wStrLen..wStrLen] == [];
      }
    }
    assert wPattern[wPatternIndex..wPatternLen] == "";
    MatchesNothing(wStr[wStrIndex..wStrLen]);
    if wPattern[wPatternIndex] != wStr[wStrIndex] { return false; }
    return true;
  }

  lemma MatchesPlain(s: string, p: string)
    requires |p| > 0 && p[0] != '*'
    ensures Matches(s, p) <==> |s| > 0 && s[0] == p[0] && Matches(s[1..], p[1..])
  {}

  lemma MatchesNothing(s: string)
    ensures Matches(s, "") <==> s == ""
  {}

  /** A pattern that starts with another character than '*' does not match the empty text. */
  lemma NothingLeft(p: string)
    requires |p| > 0 && p[0] != '*'
    ensures !Matches("", p)
  {}

  lemma NoPlaceForStar(wStr: string, first: nat, wStrLen: nat, rest: string)
    requires first <= wStrLen <= |wStr| && !Matches("", rest)
    requires forall i :: first <= i < wStrLen ==> !Matches(wStr[i..wStrLen], rest)
    ensures !Matches(wStr[first..wStrLen], "*" + rest)
  {
    var s := wStr[first..wStrLen];
    assert ("*" + rest)[1..] == rest;
    forall k | 0 <= k <= |s| ensures !Matches(s[k..], rest) {
      assert s[k..] == wStr[first + k..wStrLen];
      if k == |s| { assert s[k..] == ""; }
    }
  }

  /** patternMatch */
  method patternMatch(str: string, pattern: string) returns (result: bool)
    ensures result <==> Matches(CText(str), CText(pattern))
  {
    var s, p := CText(str), CText(pattern);
    var wStr, wPattern := s + ['\0'], p + ['\0'];
    result := patternMatchInternal(wStr, 0, |s|, wPattern, 0, |p|);
    assert wStr[0..|s|] == s && wPattern[0..|p|] == p;
  }
}
