/** The built-in functions split, join and replace of config4cpp's ConfigParser. */
module StringFunctions {
  import opened Wrappers

  /** d occurs in s at position i. */
  predicate OccursAt(s: string, d: string, i: nat) { i + |d| <= |s| && s[i..i + |d|] == d }

  /** strstr: the first position from i on at which d occurs, or |s| + 1. */
  function FirstFrom(s: string, d: string, i: nat): (p: nat)
    requires i <= |s|
    ensures i <= p && (p <= |s| ==> OccursAt(s, d, p)) && (p > |s| ==> p == |s| + 1)
    ensures forall j :: i <= j < p && j <= |s| ==> !OccursAt(s, d, j)
    decreases |s| - i
  {
    if OccursAt(s, d, i) then i else if i == |s| then |s| + 1 else FirstFrom(s, d, i + 1)
  }

  /** The pieces of s from position i on, between the occurrences of d. */
  function PiecesFrom(s: string, d: string, i: nat): (l: seq<string>)
    requires i <= |s| && |d| > 0
    ensures |l| > 0
    decreases |s| - i
  {
    var p := FirstFrom(s, d, i);
    if p > |s| then [s[i..]] else [s[i..p]] + PiecesFrom(s, d, p + |d|)
  }

  function Pieces(s: string, d: string): (l: seq<string>)
    requires |d| > 0
    ensures |l| > 0
  {
    PiecesFrom(s, d, 0)
  }

  lemma WholePieces(s: string, d: string)
    requires |d| > 0
    ensures [] + PiecesFrom(s, d, 0) == Pieces(s, d)
  {}

  /** s from position i on with replacement for every occurrence of d. */
  function ReplacedFrom(s: string, d: string, replacement: string, i: nat): string
    requires i <= |s| && |d| > 0
    decreases |s| - i
  {
    var p := FirstFrom(s, d, i);
    if p > |s| then s[i..] else s[i..p] + replacement + ReplacedFrom(s, d, replacement, p + |d|)
  }

  function Replaced(s: string, d: string, replacement: string): string
    requires |d| > 0
  {
    ReplacedFrom(s, d, replacement, 0)
  }

  function Joined(list: seq<string>, separator: string): string
  {
    if |list| == 0 then "" else if |list| == 1 then list[0] else list[0] + separator + Joined(list[1..], separator)
  }

  lemma SliceOfSlice(s: string, i: nat, end: nat, j: nat, k: nat)
    requires i <= end <= |s| && j <= k <= end - i
    ensures s[i..end][j..k] == s[i + j..i + k]
  {
    forall m | 0 <= m < k - j ensures s[i..end][j..k][m] == s[i + j..i + k][m] {
      assert s[i..end][j + m] == s[i + (j + m)];
    }
  }

  lemma ToTheEnd(s: string, i: nat)
    requires i <= |s|
    ensures s[i..|s|] == s[i..]
  {}

  lemma CutInThree(s: string, i: nat, p: nat, q: nat)
    requires i <= p <= q <= |s|
    ensures s[i..] == s[i..p] + s[p..q] + s[q..]
  {}

  lemma JoinedOne(first: string, separator: string)
    ensures Joined([first], separator) == first
  {}

  lemma JoinedFirst(first: string, l: seq<string>, separator: string)
    requires |l| > 0
    ensures Joined([first] + l, separator) == first + separator + Joined(l, separator)
  {
    assert ([first] + l)[1..] == l;
  }

  // ---------- the laws ----------

  /** Joining the pieces with any separator is replacing the delimiter by it. */
  lemma {:induction false} JoinOfPieces(s: string, d: string, separator: string, i: nat)
    requires i <= |s| && |d| > 0
    ensures Joined(PiecesFrom(s, d, i), separator) == ReplacedFrom(s, d, separator, i)
    decreases |s| - i
  {
    hide FirstFrom, Joined;
    var p := FirstFrom(s, d, i);
    if p <= |s| {
      JoinOfPieces(s, d, separator, p + |d|);
      JoinedFirst(s[i..p], PiecesFrom(s, d, p + |d|), separator);
    } else {
      JoinedOne(s[i..], separator);
    }
  }

  /** Replacing something by itself changes nothing. */
  lemma {:induction false} ReplaceBySame(s: string, d: string, i: nat)
    requires i <= |s| && |d| > 0
    ensures ReplacedFrom(s, d, d, i) == s[i..]
    decreases |s| - i
  {
    hide FirstFrom;
    var p := FirstFrom(s, d, i);
    if p <= |s| {
      ReplaceBySame(s, d, p + |d|);
      CutInThree(s, i, p, p + |d|);
    }
  }

  /** join undoes split, and replace is split followed by join. */
  lemma SplitThenJoin(s: string, d: string, replacement: string)
    requires |d| > 0
    ensures Joined(Pieces(s, d), d) == s
    ensures Joined(Pieces(s, d), replacement) == Replaced(s, d, replacement)
  {
    JoinOfPieces(s, d, d, 0);
    JoinOfPieces(s, d, replacement, 0);
    ReplaceBySame(s, d, 0);
  }

  /** No piece contains the delimiter. */
  lemma {:induction false} PiecesAreFree(s: string, d: string, i: nat, k: nat, j: nat)
    requires i <= |s| && |d| > 0 && k < |PiecesFrom(s, d, i)|
    ensures !OccursAt(PiecesFrom(s, d, i)[k], d, j)
    decreases |s| - i
  {
    hide OccursAt;
    var p := FirstFrom(s, d, i);
    HasRoom(s, d, p);
    if k > 0 {
      PiecesAreFree(s, d, p + |d|, k - 1, j);
    } else {
      var end := if p > |s| then |s| else p;
      assert PiecesFrom(s, d, i)[0] == s[i..end];
      assert i + j + |d| <= end ==> !OccursAt(s, d, i + j);
      OccursInSlice(s, d, i, end, j);
    }
  }

  lemma OccursInSlice(s: string, d: string, i: nat, end: nat, j: nat)
    requires i <= end <= |s|
    ensures OccursAt(s[i..end], d, j) <==> i + j + |d| <= end && OccursAt(s, d, i + j)
  {
    if j + |d| <= end - i {
      SliceOfSlice(s, i, end, j, j + |d|);
      assert i + (j + |d|) == i + j + |d|;
    }
  }

  /** d does not occur in s before position n. */
  predicate FreeBefore(s: string, d: string, n: nat)
  {
    forall j :: 0 <= j < n ==> !OccursAt(s, d, j)
  }

  /** The separator does not occur in the last element, and not in another one and its own beginning. */
  predicate Separates(l: seq<string>, d: string)
  {
    |l| > 0 && (forall k :: 0 <= k < |l| - 1 ==> FreeBefore(l[k] + d, d, |l[k]|)) && FreeBefore(l[|l| - 1], d, |l[|l| - 1]|)
  }

  /** split undoes join exactly where the separator separates the elements. */
  lemma {:induction false} JoinThenSplit(l: seq<string>, d: string)
    requires |d| > 0
    ensures Pieces(Joined(l, d), d) == l <==> Separates(l, d)
  {
    hide OccursAt, FreeBefore, FirstFrom, PiecesFrom, Separates;
    SeparatesOne(l, d);
    if |l| == 1 {
      OnePiece(l[0], d);
    } else if |l| > 1 {
      var rest := Joined(l[1..], d);
      JoinThenSplit(l[1..], d);
      SeparatesFirst(l, d);
      FirstPiece(l[0], d, rest, l[1..]);
      assert l == [l[0]] + l[1..];
    }
  }

  /** A text is its only piece where the delimiter does not occur in it. */
  lemma OnePiece(s: string, d: string)
    requires |d| > 0
    ensures Pieces(s, d) == [s] <==> FreeBefore(s, d, |s|)
  {
    assert s[0..] == s;
  }

  lemma FirstFound(s: string, d: string, n: nat)
    requires OccursAt(s, d, n)
    ensures FirstFrom(s, d, 0) <= n
    ensures FirstFrom(s, d, 0) == n <==> FreeBefore(s, d, n)
  {
    hide OccursAt;
    var p := FirstFrom(s, d, 0);
    HasRoom(s, d, n);
  }

  lemma HasRoom(s: string, d: string, n: nat)
    ensures OccursAt(s, d, n) ==> n + |d| <= |s|
  {}

  lemma HeadAndTail<T>(x: T, a: seq<T>, y: T, b: seq<T>)
    ensures [x] + a == [y] + b <==> x == y && a == b
  {
    assert ([x] + a)[1..] == a && ([y] + b)[1..] == b;
    assert ([x] + a)[0] == x && ([y] + b)[0] == y;
  }

  /** Before a delimiter the first piece is the text in front of it, if nothing is found earlier. */
  lemma FirstPiece(first: string, d: string, rest: string, more: seq<string>)
    requires |d| > 0
    ensures Pieces(first + d + rest, d) == [first] + more <==> FreeBefore(first + d, d, |first|) && Pieces(rest, d) == more
  {
    hide OccursAt, FreeBefore, FirstFrom;
    var s, n := first + d + rest, |first|;
    DelimiterThere(first, d, rest);
    EarlierFound(first, d, rest);
    FirstFound(s, d, n);
    SameTail(s, rest, d, n + |d|, 0);
    var p := FirstFrom(s, d, 0);
    assert |s[0..p]| == p;
    HeadAndTail(s[0..p], PiecesFrom(s, d, p + |d|), first, more);
  }

  lemma DelimiterThere(first: string, d: string, rest: string)
    ensures var s, n := first + d + rest, |first|; OccursAt(s, d, n) && s[n + |d|..] == rest && s[0..n] == first
  {
    var s, n := first + d + rest, |first|;
    assert s[n..n + |d|] == d;
  }

  lemma EarlierFound(first: string, d: string, rest: string)
    ensures FreeBefore(first + d + rest, d, |first|) <==> FreeBefore(first + d, d, |first|)
  {
    forall j | 0 <= j < |first| ensures OccursAt(first + d + rest, d, j) <==> OccursAt(first + d, d, j) {
      assert (first + d + rest)[j..j + |d|] == (first + d)[j..j + |d|];
    }
  }

  lemma SeparatesOne(l: seq<string>, d: string)
    ensures |l| == 0 ==> !Separates(l, d)
    ensures |l| == 1 ==> (Separates(l, d) <==> FreeBefore(l[0], d, |l[0]|))
  {}

  lemma SeparatesFirst(l: seq<string>, d: string)
    requires |l| > 1
    ensures Separates(l, d) <==> FreeBefore(l[0] + d, d, |l[0]|) && Separates(l[1..], d)
  {
    hide FreeBefore;
    var m := l[1..];
    assert m[|m| - 1] == l[|l| - 1];
    if Separates(m, d) {
      forall k | 0 < k < |l| - 1 ensures FreeBefore(l[k] + d, d, |l[k]|) { assert m[k - 1] == l[k]; }
    }
    if Separates(l, d) {
      forall k | 0 <= k < |m| - 1 ensures FreeBefore(m[k] + d, d, |m[k]|) { assert m[k] == l[k + 1]; }
    }
  }

  /** A character that no element has separates them. */
  lemma CharacterSeparates(l: seq<string>, c: char)
    requires |l| > 0 && forall k :: 0 <= k < |l| ==> c !in l[k]
    ensures Separates(l, [c])
  {
    forall k | 0 <= k < |l| ensures FreeBefore(l[k] + [c], [c], |l[k]|) && FreeBefore(l[k], [c], |l[k]|) {
      FreeOfCharacter(l[k], c);
    }
  }

  lemma FreeOfCharacter(s: string, c: char)
    requires c !in s
    ensures FreeBefore(s + [c], [c], |s|) && FreeBefore(s, [c], |s|)
  {
    forall j | 0 <= j < |s| ensures !OccursAt(s + [c], [c], j) && !OccursAt(s, [c], j) {
      assert (s + [c])[j..j + 1] == [s[j]] == s[j..j + 1];
    }
  }

  /** Positions without the character c are passed over. */
  lemma {:induction false} NoneFound(s: string, c: char, i: nat, n: nat)
    requires i <= n <= |s| && forall k :: i <= k < n ==> s[k] != c
    ensures n == |s| ==> FirstFrom(s, [c], i) == |s| + 1
    ensures n < |s| && s[n] == c ==> FirstFrom(s, [c], i) == n
    decreases n - i
  {
    if i < n {
      assert s[i..i + 1] == [s[i]];
      NoneFound(s, c, i + 1, n);
    } else if n < |s| {
      assert s[n..n + 1] == [s[n]];
    }
  }

  /** The pieces from position n on are those of the text from there on. */
  lemma {:induction false} SameTail(s: string, t: string, d: string, n: nat, i: nat)
    requires |d| > 0 && n <= |s| && s[n..] == t && i <= |t|
    ensures PiecesFrom(s, d, n + i) == PiecesFrom(t, d, i)
    decreases |t| - i
  {
    hide FirstFrom;
    SameFirst(s, t, d, n, i);
    assert s[n..|s|] == t;
    var p := FirstFrom(t, d, i);
    if p <= |t| {
      SameTail(s, t, d, n, p + |d|);
      SliceOfSlice(s, n, |s|, i, p);
      assert (n + p) + |d| == n + (p + |d|);
    } else {
      SliceOfSlice(s, n, |s|, i, |t|);
    }
  }

  lemma {:induction false} SameFirst(s: string, t: string, d: string, n: nat, i: nat)
    requires |d| > 0 && n <= |s| && s[n..] == t && i <= |t|
    ensures FirstFrom(s, d, n + i) == n + FirstFrom(t, d, i)
    decreases |t| - i
  {
    hide OccursAt;
    assert s[n..|s|] == t;
    OccursInSlice(s, d, n, |s|, i);
    HasRoom(s, d, n + i);
    if i < |t| && !OccursAt(t, d, i) { SameFirst(s, t, d, n, i + 1); }
  }

  // ---------- when the loops end ----------

  /** Where the search goes on after one turn of the loop of split or replace; None when the text is
      not found any more, which ends the loop. */
  function NextStart(s: string, d: string, i: nat): (r: Option<nat>)
    requires i <= |s|
    ensures r.Some? ==> r.value <= |s|
  {
    var p := FirstFrom(s, d, i);
    if p > |s| then None else Some(p + |d|)
  }

  /** Where it goes on after n turns. */
  function StartAfter(s: string, d: string, n: nat): (r: Option<nat>)
    ensures r.Some? ==> r.value <= |s|
  {
    if n == 0 then Some(0)
    else match StartAfter(s, d, n - 1) case None => None case Some(i) => NextStart(s, d, i)
  }

  /** A turn moves the start forward exactly if the text searched for is not empty. An empty text
      is found where the search begins, whatever the buffer holds there. */
  lemma TurnMoves(s: string, d: string, i: nat)
    requires i <= |s|
    ensures NextStart(s, d, i).Some? ==> (NextStart(s, d, i).value > i <==> d != "")
    ensures d == "" ==> FirstFrom(s, d, i) == i && NextStart(s, d, i) == Some(i)
  {
    assert s[i..i] == "";
  }

  lemma {:induction false} StartsGrow(s: string, d: string, n: nat)
    ensures d != "" && StartAfter(s, d, n).Some? ==> StartAfter(s, d, n).value >= n
    ensures d == "" ==> StartAfter(s, d, n) == Some(0)
  {
    hide FirstFrom, NextStart;
    if n > 0 {
      StartsGrow(s, d, n - 1);
      if StartAfter(s, d, n - 1).Some? { TurnMoves(s, d, StartAfter(s, d, n - 1).value); }
    }
  }

  /** The loops of split and replace end exactly if the text they search for is not empty. */
  lemma LoopEnds(s: string, d: string)
    ensures (exists n: nat :: StartAfter(s, d, n).None?) <==> d != ""
  {
    hide FirstFrom, NextStart;
    if d == "" {
      forall n: nat ensures StartAfter(s, d, n).Some? { StartsGrow(s, d, n); }
    } else {
      StartsGrow(s, d, |s| + 1);
      assert StartAfter(s, d, |s| + 1).None?;
    }
  }

  // ---------- the loops ----------

  /** The C string at position i of a buffer: the characters before the next NUL. */
  function CString(buffer: seq<char>, i: nat): string
    requires i < |buffer| && buffer[|buffer| - 1] == '\0'
    decreases |buffer| - i
  {
    if buffer[i] == '\0' then "" else [buffer[i]] + CString(buffer, i + 1)
  }

  lemma {:induction false} CStringIs(buffer: seq<char>, i: nat, end: nat)
    requires i <= end < |buffer| && buffer[|buffer| - 1] == '\0'
    requires buffer[end] == '\0' && forall k :: i <= k < end ==> buffer[k] != '\0'
    ensures CString(buffer, i) == buffer[i..end]
    decreases end - i
  {
    if i < end { CStringIs(buffer, i + 1, end); }
  }

  /** The text of s in a buffer, terminated. */
  method NewBuffer(s: string) returns (buffer: array<char>)
    ensures fresh(buffer) && Holds(buffer[..], s, 0)
  {
    buffer := new char[|s| + 1](i requires 0 <= i <= |s| => if i < |s| then s[i] else '\0');
  }

  /** From position i on the buffer holds s and its terminator. */
  ghost predicate Holds(buffer: seq<char>, s: string, i: nat)
  {
    |buffer| == |s| + 1 && buffer[|s|] == '\0' && forall k :: i <= k < |s| ==> buffer[k] == s[k]
  }

  lemma HoldsFurther(buffer: seq<char>, s: string, i: nat, j: nat)
    requires Holds(buffer, s, i) && i <= j
    ensures Holds(buffer, s, j)
  {}

  /** A NUL is written at the end of the piece, which is then read as a C string. */
  method CutPiece(buffer: array<char>, ghost s: string, start: nat, end: nat) returns (piece: string)
    requires Holds(buffer[..], s, start) && start <= end <= |s| && '\0' !in s
    modifies buffer
    ensures piece == s[start..end] && Holds(buffer[..], s, end + 1)
  {
    buffer[end] := '\0';
    CStringIs(buffer[..], start, end);
    assert buffer[start..end] == s[start..end];
    piece := CString(buffer[..], start);
  }

  lemma NextPiece(s: string, d: string, i: nat, list: seq<string>)
    requires i <= |s| && |d| > 0
    ensures var p := FirstFrom(s, d, i);
            list + PiecesFrom(s, d, i) == (if p > |s| then list + [s[i..]] else list + [s[i..p]] + PiecesFrom(s, d, p + |d|))
  {
    hide FirstFrom;
  }

  lemma NextReplaced(s: string, d: string, replacement: string, i: nat, before: string)
    requires i <= |s| && |d| > 0
    ensures var p := FirstFrom(s, d, i);
            before + ReplacedFrom(s, d, replacement, i)
            == (if p > |s| then before + s[i..] else before + s[i..p] + replacement + ReplacedFrom(s, d, replacement, p + |d|))
  {
    hide FirstFrom;
    var p := FirstFrom(s, d, i);
    if p <= |s| {
      var x, z := s[i..p], ReplacedFrom(s, d, replacement, p + |d|);
      assert before + (x + replacement + z) == before + x + replacement + z;
    }
  }

  /** The loop of parseSplit: every delimiter found is overwritten by a NUL that ends the piece
      before it. It ends because the delimiter is not empty. */
  method Split(s: string, delim: string) returns (list: seq<string>)
    requires |delim| > 0 && '\0' !in s
    ensures list == Pieces(s, delim)
  {
    hide FirstFrom, PiecesFrom, Pieces, Holds;
    WholePieces(s, delim);
    var str := NewBuffer(s);
    list := [];
    var currStart := 0;
    var p := FirstFrom(s, delim, 0);
    while p <= |s|
      invariant 0 <= currStart <= |s| && p == FirstFrom(s, delim, currStart)
      invariant Holds(str[..], s, currStart)
      invariant list + PiecesFrom(s, delim, currStart) == Pieces(s, delim)
      decreases |s| - currStart
    {
      var currEnd := p;
      var piece := CutPiece(str, s, currStart, currEnd);
      NextPiece(s, delim, currStart, list);
      list := list + [piece];
      currStart := currEnd + |delim|;
      HoldsFurther(str[..], s, currEnd + 1, currStart);
      p := FirstFrom(s, delim, currStart);
    }
    var last := CutPiece(str, s, currStart, |s|);
    ToTheEnd(s, currStart);
    NextPiece(s, delim, currStart, list);
    list := list + [last];
  }

  /** The loop of parseReplace. */
  method Replace(s: string, search: string, replacement: string) returns (result: string)
    requires |search| > 0 && '\0' !in s
    ensures result == Replaced(s, search, replacement)
  {
    hide FirstFrom, ReplacedFrom, Holds;
    var origStr := NewBuffer(s);
    result := "";
    var currStart := 0;
    var p := FirstFrom(s, search, 0);
    while p <= |s|
      invariant 0 <= currStart <= |s| && p == FirstFrom(s, search, currStart)
      invariant Holds(origStr[..], s, currStart)
      invariant result + ReplacedFrom(s, search, replacement, currStart) == Replaced(s, search, replacement)
      decreases |s| - currStart
    {
      var currEnd := p;
      var piece := CutPiece(origStr, s, currStart, currEnd);
      NextReplaced(s, search, replacement, currStart, result);
      result := result + piece;
      result := result + replacement;
      currStart := currEnd + |search|;
      HoldsFurther(origStr[..], s, currEnd + 1, currStart);
      p := FirstFrom(s, search, currStart);
    }
    var last := CutPiece(origStr, s, currStart, |s|);
    ToTheEnd(s, currStart);
    NextReplaced(s, search, replacement, currStart, result);
    result := result + last;
  }

  /** The loop of parseJoin. */
  method Join(list: seq<string>, separator: string) returns (str: string)
    ensures str == Joined(list, separator)
  {
    str := "";
    var i := 0;
    while i < |list|
      invariant 0 <= i <= |list| && str + Joined(list[i..], separator) == Joined(list, separator)
    {
      assert list[i..][1..] == list[i + 1..];
      str := str + list[i];
      if i < |list| - 1 { str := str + separator; }
      i := i + 1;
    }
  }
}
