/** Programs of the configuration language as texts: any way of writing the tokens of a program down,
    with any white space and comments between them, is parsed as what the program means. */
module ConfigTexts {
  import opened Wrappers
  import opened CStrings
  import opened ConfigPaths
  import opened ConfigSyntax
  import opened ConfigText
  import opened ConfigRoundTrip
  import opened ConfigPrograms
  import opened ConfigMeaning
  import opened PathLaws
  import opened SortedEntries

  // ---------- how tokens are written ----------

  /** The tokens with one spelling only. */
  function Fixed(w: string): Option<Symbol>
  {
    if FixedMark(w).Some? then FixedMark(w)
    else if FixedSign(w).Some? then FixedSign(w)
    else if FixedKeyword(w).Some? then FixedKeyword(w)
    else FixedFunction(w)
  }

  function FixedMark(w: string): Option<Symbol>
  {
    match w
    case ";" => Some(Semicolon) case "," => Some(Comma) case "+" => Some(Plus)
    case "[" => Some(OpenBracket) case "]" => Some(CloseBracket)
    case "{" => Some(OpenBrace) case "}" => Some(CloseBrace)
    case "(" => Some(OpenParen) case ")" => Some(CloseParen)
    case _ => None
  }

  function FixedSign(w: string): Option<Symbol>
  {
    match w
    case "=" => Some(Equals) case "?=" => Some(QuestionEquals)
    case "==" => Some(EqualsEquals) case "!=" => Some(NotEquals)
    case "!" => Some(Not) case "&&" => Some(And) case "||" => Some(Or)
    case _ => None
  }

  function FixedKeyword(w: string): Option<Symbol>
  {
    match w
    case "@if" => Some(If) case "@else" => Some(Else) case "@elseIf" => Some(ElseIf)
    case "@in" => Some(In) case "@matches" => Some(Matches)
    case "@remove" => Some(Remove) case "@include" => Some(Include)
    case "@copyFrom" => Some(CopyFrom) case "@ifExists" => Some(IfExists) case "@error" => Some(Error)
    case _ => None
  }

  function FixedFunction(w: string): Option<Symbol>
  {
    match w
    case "join(" => Some(Join) case "replace(" => Some(Replace) case "split(" => Some(Split)
    case "isFileReadable(" => Some(IsFileReadable)
    case _ => if Takes(w, 0) || Takes(w, 1) || Takes(w, 2) then Some(CallSymbol(w)) else None
  }

  /** A word that the lexer takes for a name. */
  predicate IsWord(w: string)
  {
    |w| > 0 && (forall i :: 0 <= i < |w| ==> IsIdentifierChar(w[i])) && w[0] != '?' && w != "." && !HasTwoDots(w)
  }

  /** Whether w is a way of writing the token: strings are quoted or stand between <% and %>, and a name
      is written as anything that stands for it. */
  predicate Spells(expand: Expand, w: string, t: Token)
  {
    if t.sym == Str then w == Quoted(t.spelling) || (w == "<%" + t.spelling + "%>" && NoMark(t.spelling))
    else if t.sym == Ident then IsWord(w) && expand(w) == Some(t.spelling)
    else w == t.spelling && Fixed(w) == Some(t.sym)
  }

  predicate NoMark(s: string) { forall i :: 0 <= i < |s| - 1 ==> !(s[i] == '%' && s[i + 1] == '>') }

  /** Whether what follows is not taken for more of the token. */
  predicate Clear(t: Token, rest: string)
  {
    match t.sym
    case Ident => |rest| > 0 ==> !IsIdentifierChar(rest[0]) && rest[0] != '('
    case Equals => !StartsWith(rest, '=')
    case Not => !StartsWith(rest, '=')
    case _ => t.spelling != "" && t.spelling[0] == '@' && |rest| > 0 && t.sym != Str ==> !IsLetter(rest[0])
  }

  /** White space and comments. */
  predicate IsGap(g: string)
    decreases |g|
  {
    |g| == 0
    || (IsSpace(g[0]) && IsGap(g[1..]))
    || (g[0] == '#' && |SkipLine(g[1..])| > 0 && IsGap(SkipLine(g[1..])[1..]))
  }

  /** Whether the text is the tokens, one after the other with gaps between them; a comment may be at the
      very end. */
  ghost predicate Writes(expand: Expand, text: string, ts: seq<Token>)
    decreases |ts|
  {
    if |ts| == 0 then IsGap(text + "\n")
    else exists g, w, rest :: IsGap(g) && Spells(expand, w, ts[0]) && Writes(expand, rest, ts[1..])
                              && Clear(ts[0], rest) && text == g + (w + rest)
  }

  // ---------- reading them ----------

  lemma {:induction false} LineSkipped(a: string, b: string)
    requires |SkipLine(a)| > 0
    ensures SkipLine(a + b) == SkipLine(a) + b
  {
    if a[0] != '\n' {
      assert (a + b)[1..] == a[1..] + b;
      LineSkipped(a[1..], b);
    }
  }

  /** A comment and the white space behind it. */
  lemma CommentSkipped(expand: Expand, s: string)
    ensures Lexeme(expand, SkipComments(SkipSpace(s))) == Lexeme(expand, s)
  {
    hide LexemeHere;
    var t := SkipSpace(s);
    if |t| > 0 { assert SkipSpace(t) == t; }
  }

  lemma {:induction false} GapSkipped(expand: Expand, g: string, s: string)
    requires IsGap(g)
    ensures Lexeme(expand, g + s) == Lexeme(expand, s)
    decreases |g|
  {
    hide LexemeHere, SkipComments;
    if |g| == 0 {
      assert g + s == s;
    } else if IsSpace(g[0]) {
      assert (g + s)[1..] == g[1..] + s;
      assert SkipSpace(g + s) == SkipSpace(g[1..] + s);
      GapSkipped(expand, g[1..], s);
    } else {
      var line := SkipLine(g[1..]);
      assert (g + s)[1..] == g[1..] + s;
      LineSkipped(g[1..], s);
      assert (line + s)[1..] == line[1..] + s;
      CommentIs(g + s, line[1..] + s);
      CommentSkipped(expand, line[1..] + s);
      GapSkipped(expand, line[1..], s);
    }
  }

  lemma CommentIs(s: string, after: string)
    requires |s| > 0 && s[0] == '#' && |SkipLine(s[1..])| > 0 && SkipLine(s[1..])[1..] == after
    ensures SkipSpace(s) == s && SkipComments(s) == SkipComments(SkipSpace(after))
  {}

  /** A block string ends at the first closing mark. */
  lemma {:induction false} BlockInverts(s: string, rest: string)
    requires NoMark(s)
    ensures BlockBody(s + "%>" + rest) == (Str, s, rest)
  {
    var t := s + "%>" + rest;
    if |s| == 0 {
      assert t == "%>" + rest && t[2..] == rest;
    } else {
      assert t[1..] == s[1..] + "%>" + rest && t[1] == (s + "%>")[1];
      BlockInverts(s[1..], rest);
      assert [s[0]] + s[1..] == s;
    }
  }

  lemma QuotedRead(expand: Expand, str: string, rest: string)
    ensures LexemeHere(expand, Quoted(str) + rest) == (Token(Str, str), rest)
  {
    hide Escaped, StringBody;
    var s := Quoted(str) + rest;
    StringInverts(str, rest);
    assert s[1..] == Escaped(str) + "\"" + rest;
  }

  lemma BlockRead(expand: Expand, str: string, rest: string)
    requires NoMark(str)
    ensures LexemeHere(expand, "<%" + str + "%>" + rest) == (Token(Str, str), rest)
  {
    hide BlockBody, NoMark;
    var s := "<%" + str + "%>" + rest;
    BlockInverts(str, rest);
    assert s[2..] == str + "%>" + rest && s[1..][0] == '%';
  }

  lemma StringRead(expand: Expand, w: string, t: Token, rest: string)
    requires t.sym == Str && Spells(expand, w, t)
    ensures LexemeHere(expand, w + rest) == (t, rest) && SkipSpace(w + rest) == w + rest && w[0] != '#'
  {
    hide LexemeHere, Escaped, NoMark;
    if w == Quoted(t.spelling) { QuotedRead(expand, t.spelling, rest); } else { BlockRead(expand, t.spelling, rest); }
  }

  lemma NameRead(expand: Expand, w: string, t: Token, rest: string)
    requires t.sym == Ident && Spells(expand, w, t) && Clear(t, rest)
    ensures LexemeHere(expand, w + rest) == (t, rest) && SkipSpace(w + rest) == w + rest && w[0] != '#'
  {
    var s := w + rest;
    IdentifierLength(w, rest);
    assert s[0] == w[0] && s[..|w|] == w && s[|w|..] == rest;
    assert IsIdentifierChar(s[0]) && Punctuation(s[0]) == None;
  }

  lemma {:induction false} LetterLength(w: string, rest: string)
    requires WhileLetter(w) == |w| && (|rest| > 0 ==> !IsLetter(rest[0]))
    ensures WhileLetter(w + rest) == |w|
  {
    if |w| > 0 {
      LetterLength(w[1..], rest);
      assert (w + rest)[1..] == w[1..] + rest;
    } else {
      assert w + rest == rest;
    }
  }

  lemma Parts(w: string, rest: string)
    requires |w| > 0
    ensures (w + rest)[0] == w[0] && (w + rest)[1..] == w[1..] + rest && (w + rest)[..|w|] == w && (w + rest)[|w|..] == rest
  {}

  lemma KeywordRead(expand: Expand, w: string, rest: string)
    requires |w| > 0 && w[0] == '@' && WhileLetter(w[1..]) == |w| - 1 && (|rest| > 0 ==> !IsLetter(rest[0]))
    ensures LexemeHere(expand, w + rest) == (Token(Keyword(w), w), rest) && SkipSpace(w + rest) == w + rest
  {
    hide Keyword, StringBody, BlockBody, Name, OrEquals, Doubled, Punctuation, WhileLetter;
    LetterLength(w[1..], rest);
    Parts(w, rest);
  }

  lemma {:induction false} PrefixLength(w: string, rest: string)
    requires WhileIdentifier(w) < |w|
    ensures WhileIdentifier(w + rest) == WhileIdentifier(w)
  {
    if IsIdentifierChar(w[0]) {
      assert (w + rest)[1..] == w[1..] + rest;
      PrefixLength(w[1..], rest);
    }
  }

  lemma FunctionRead(expand: Expand, w: string, rest: string)
    requires |w| > 1 && WhileIdentifier(w) == |w| - 1 && w[|w| - 1] == '(' && w[0] != '?'
    ensures LexemeHere(expand, w + rest) == (Token(Function(w), w), rest) && SkipSpace(w + rest) == w + rest && w[0] != '#'
  {
    hide Function;
    var s, n := w + rest, |w| - 1;
    PrefixLength(w, rest);
    assert s[0] == w[0] && IsIdentifierChar(s[0]) && Punctuation(s[0]) == None;
    assert s[..n + 1] == w && s[n + 1..] == rest && s[n..][0] == '(';
  }

  lemma PunctuationRead(expand: Expand, c: char, rest: string)
    requires Punctuation(c).Some?
    ensures LexemeHere(expand, [c] + rest) == (Token(Punctuation(c).value, [c]), rest) && !IsSpace(c) && c != '#'
  {
    hide StringBody, BlockBody, Name, OrEquals, Doubled, Keyword, WhileLetter;
    assert ([c] + rest)[1..] == rest;
  }

  lemma SignRead(expand: Expand, rest: string)
    requires !StartsWith(rest, '=')
    ensures LexemeHere(expand, "=" + rest) == (Token(Equals, "="), rest)
    ensures LexemeHere(expand, "!" + rest) == (Token(Not, "!"), rest)
  {
    assert ("=" + rest)[1..] == rest && ("!" + rest)[1..] == rest;
  }

  lemma EqualsRead(expand: Expand, rest: string)
    ensures LexemeHere(expand, "?=" + rest) == (Token(QuestionEquals, "?="), rest)
    ensures LexemeHere(expand, "==" + rest) == (Token(EqualsEquals, "=="), rest)
    ensures LexemeHere(expand, "!=" + rest) == (Token(NotEquals, "!="), rest)
  {
    assert ("?=" + rest)[1..][0] == '=' && ("?=" + rest)[2..] == rest;
    assert ("==" + rest)[1..][0] == '=' && ("==" + rest)[2..] == rest;
    assert ("!=" + rest)[1..][0] == '=' && ("!=" + rest)[2..] == rest;
  }

  lemma DoubledRead(expand: Expand, rest: string)
    ensures LexemeHere(expand, "&&" + rest) == (Token(And, "&&"), rest)
    ensures LexemeHere(expand, "||" + rest) == (Token(Or, "||"), rest)
  {
    assert ("&&" + rest)[1..] == "&" + rest && ("&" + rest)[1..] == rest;
    assert ("||" + rest)[1..] == "|" + rest && ("|" + rest)[1..] == rest;
  }

  lemma OperatorRead(expand: Expand, w: string, t: Token, rest: string)
    requires FixedSign(w) == Some(t.sym) && t.spelling == w && Clear(t, rest)
    ensures LexemeHere(expand, w + rest) == (t, rest)
  {
    hide LexemeHere;
    match w
    case "=" => SignRead(expand, rest);
    case "!" => SignRead(expand, rest);
    case "&&" => DoubledRead(expand, rest);
    case "||" => DoubledRead(expand, rest);
    case _ => EqualsRead(expand, rest);
  }

  lemma OperatorFirst(w: string)
    requires FixedSign(w).Some?
    ensures |w| > 0 && !IsSpace(w[0]) && w[0] != '#'
  {}

  lemma KeywordSymbol(w: string)
    requires FixedKeyword(w).Some?
    ensures FixedKeyword(w) == Some(Keyword(w))
  {}

  lemma FunctionSymbol(w: string)
    requires FixedFunction(w).Some?
    ensures FixedFunction(w) == Some(Function(w))
  {}

  /** A keyword without its sign, or the name of a function without its parenthesis. */
  predicate IsLetters(w: string) { |w| > 0 && forall i :: 0 <= i < |w| ==> IsLetter(w[i]) }

  lemma KeywordLetters(w: string)
    requires FixedKeyword(w).Some?
    ensures |w| > 0 && w[0] == '@' && IsLetters(w[1..])
  {
    match w
    case "@if" => assert "@if"[1..] == "if";
    case "@else" => assert "@else"[1..] == "else";
    case "@elseIf" => assert "@elseIf"[1..] == "elseIf";
    case "@in" => assert "@in"[1..] == "in";
    case "@matches" => assert "@matches"[1..] == "matches";
    case "@remove" => assert "@remove"[1..] == "remove";
    case "@include" => assert "@include"[1..] == "include";
    case "@copyFrom" => assert "@copyFrom"[1..] == "copyFrom";
    case "@ifExists" => assert "@ifExists"[1..] == "ifExists";
    case "@error" => assert "@error"[1..] == "error";
  }

  lemma FunctionLetters(w: string)
    requires FixedFunction(w).Some?
    ensures |w| > 0 && w[|w| - 1] == '(' && IsLetters(w[..|w| - 1])
  {
    hide Takes, CallSymbol, IsLetters;
    if Takes(w, 0) || Takes(w, 1) || Takes(w, 2) { CallLetters(w); } else { BuiltInLetters(w); }
  }

  lemma CallLetters(w: string)
    requires Takes(w, 0) || Takes(w, 1) || Takes(w, 2)
    ensures |w| > 0 && w[|w| - 1] == '(' && IsLetters(w[..|w| - 1])
  {
    if Takes(w, 0) { PlainCallLetters(w); } else { ArgumentCallLetters(w); }
  }

  lemma PlainCallLetters(w: string)
    requires Takes(w, 0)
    ensures |w| > 0 && w[|w| - 1] == '(' && IsLetters(w[..|w| - 1])
  {}

  lemma ArgumentCallLetters(w: string)
    requires Takes(w, 1)
    ensures |w| > 0 && w[|w| - 1] == '(' && IsLetters(w[..|w| - 1])
  {}

  lemma BuiltInLetters(w: string)
    requires w in ["join(", "replace(", "split(", "isFileReadable("]
    ensures |w| > 0 && w[|w| - 1] == '(' && IsLetters(w[..|w| - 1])
  {}

  lemma FixedRead(expand: Expand, w: string, t: Token, rest: string)
    requires t.sym != Str && t.sym != Ident && Spells(expand, w, t) && Clear(t, rest)
    ensures |w| > 0 && LexemeHere(expand, w + rest) == (t, rest) && SkipSpace(w + rest) == w + rest && w[0] != '#'
  {
    hide FixedMark, FixedSign, FixedKeyword, FixedFunction, LexemeHere, IsLetters;
    if FixedMark(w).Some? {
      MarkIs(w);
      PunctuationRead(expand, w[0], rest);
    } else if FixedSign(w).Some? {
      OperatorRead(expand, w, t, rest);
      OperatorFirst(w);
    } else if FixedKeyword(w).Some? {
      KeywordSymbol(w);
      KeywordLetters(w);
      LettersLength(w[1..]);
      KeywordRead(expand, w, rest);
    } else {
      FunctionSymbol(w);
      FunctionLetters(w);
      LettersBefore(w);
      FunctionRead(expand, w, rest);
    }
  }

  lemma MarkIs(w: string)
    requires FixedMark(w).Some?
    ensures |w| == 1 && w == [w[0]] && Punctuation(w[0]) == FixedMark(w)
  {}

  lemma {:induction false} LettersLength(w: string)
    requires IsLetters(w)
    ensures WhileLetter(w) == |w|
  {
    if |w| > 1 { LettersLength(w[1..]); }
  }

  lemma LettersBefore(w: string)
    requires |w| > 0 && w[|w| - 1] == '(' && IsLetters(w[..|w| - 1])
    ensures |w| > 1 && WhileIdentifier(w) == |w| - 1 && w[0] != '?'
  {
    var name := w[..|w| - 1];
    forall i | 0 <= i < |name| ensures IsIdentifierChar(name[i]) {
      assert IsLetter(name[i]);
    }
    IdentifierLength(name, "(");
    assert w == name + "(";
    assert w[0] == name[0];
  }

  lemma TokenRead(expand: Expand, w: string, t: Token, rest: string)
    requires Spells(expand, w, t) && Clear(t, rest)
    ensures Lexeme(expand, w + rest) == (t, rest)
  {
    hide LexemeHere, Spells, Clear;
    if t.sym == Str { StringRead(expand, w, t, rest); }
    else if t.sym == Ident { NameRead(expand, w, t, rest); }
    else { FixedRead(expand, w, t, rest); }
  }

  // ---------- texts and their tokens ----------

  /** However the tokens are written, the lexer reads them back. */
  lemma {:induction false} TextTokens(expand: Expand, text: string, ts: seq<Token>)
    requires Writes(expand, text, ts)
    ensures Tokens(expand, text) == ts
    decreases |ts|
  {
    hide Spells, Clear, IsGap, Lexeme;
    if |ts| == 0 {
      OnlyGap(expand, text);
    } else {
      var g, w, rest :| IsGap(g) && Spells(expand, w, ts[0]) && Writes(expand, rest, ts[1..])
                        && Clear(ts[0], rest) && text == g + (w + rest);
      GapSkipped(expand, g, w + rest);
      TokenRead(expand, w, ts[0], rest);
      Readable(expand, w, ts[0]);
      NextToken(expand, text, ts[0], rest);
      TextTokens(expand, rest, ts[1..]);
    }
  }

  lemma Readable(expand: Expand, w: string, t: Token)
    requires Spells(expand, w, t)
    ensures t.sym != Eof && t.sym != BadEscape
  {
  }

  lemma {:induction false} OnlyGap(expand: Expand, text: string)
    requires IsGap(text + "\n")
    ensures Lexeme(expand, text).0.sym == Eof
    decreases |text|
  {
    hide LexemeHere, SkipComments;
    if |text| > 0 {
      assert (text + "\n")[1..] == text[1..] + "\n";
      if IsSpace(text[0]) {
        assert SkipSpace(text) == SkipSpace(text[1..]);
        OnlyGap(expand, text[1..]);
      } else {
        LastComment(expand, text);
      }
    }
  }

  lemma {:induction false} LastComment(expand: Expand, text: string)
    requires |text| > 0 && text[0] == '#' && IsGap(text + "\n")
    ensures Lexeme(expand, text).0.sym == Eof
    decreases |text|, 0
  {
    hide LexemeHere;
    var line := SkipLine(text[1..]);
    assert (text + "\n")[1..] == text[1..] + "\n";
    if |line| > 0 {
      LineSkipped(text[1..], "\n");
      assert (line + "\n")[1..] == line[1..] + "\n";
      OnlyGap(expand, line[1..]);
      CommentSkipped(expand, line[1..]);
    }
  }

  /** The plainest text: every token followed by a space, and strings in quotes. */
  function TextOf(ts: seq<Token>): string
  {
    if |ts| == 0 then "" else Spelling(ts[0]) + ([' '] + TextOf(ts[1..]))
  }

  function Spelling(t: Token): string { if t.sym == Str then Quoted(t.spelling) else t.spelling }

  lemma {:induction false} TextWrites(expand: Expand, ts: seq<Token>)
    requires forall i :: 0 <= i < |ts| ==> Spells(expand, Spelling(ts[i]), ts[i])
    ensures Writes(expand, TextOf(ts), ts) && Writes(expand, [' '] + TextOf(ts), ts)
  {
    hide Spells, Spelling;
    if |ts| > 0 {
      var rest := [' '] + TextOf(ts[1..]);
      TextWrites(expand, ts[1..]);
      ClearOfSpace(expand, ts[0], rest);
      assert Spells(expand, Spelling(ts[0]), ts[0]);
      assert IsGap("") && IsGap([' ']);
      assert TextOf(ts) == "" + (Spelling(ts[0]) + rest);
      assert [' '] + TextOf(ts) == [' '] + (Spelling(ts[0]) + rest);
    } else {
      assert "" + "\n" == "\n" && [' '] + "" + "\n" == " \n" && " \n"[1..] == "\n" && "\n"[1..] == "";
    }
  }

  lemma ClearOfSpace(expand: Expand, t: Token, rest: string)
    requires |rest| > 0 && rest[0] == ' '
    ensures Clear(t, rest)
  {}

  // ---------- what texts do ----------

  /** Parsing any text of a program does what the program means, and throws exactly where it means nothing. */
  lemma TextMeaning(expand: Expand, env: Env, root: Entries, body: seq<Statement>, text: string)
    requires FormedBody(body) && Writes(expand, NoCr(text), BodyTokens(body, []))
    ensures ParseAll(env, Tokens(expand, NoCr(text)), root)
         == match Run(env, Path(root, []), body) case None => None case Some(path) => Some(path.root)
  {
    hide *;
    TextTokens(expand, NoCr(text), BodyTokens(body, []));
    ProgramParsed(env, root, body);
  }

  /** @if (c) { x = "1"; } @else { x = "0"; } */
  function Chooser(c: Condition): seq<Statement>
  {
    [Conditional(c, [Setting("1")], Otherwise([Setting("0")]), false)]
  }

  function Setting(value: string): Statement { Assign("x", true, Just(Literal(value))) }

  /** The variable is "1" afterwards exactly if the condition holds. */
  lemma ConditionDecides(expand: Expand, env: Env, root: Entries, c: Condition, text: string)
    requires FormedCondition(c) && Writes(expand, NoCr(text), BodyTokens(Chooser(c), [])) && !IsScope(Find(root, "x"))
    ensures var result := ParseAll(env, Tokens(expand, NoCr(text)), root);
            match Truth(env, Path(root, []), c)
            case None => result == None
            case Some(b) => result.Some? && Find(result.value, "x") == Some(StringItem(if b then "1" else "0"))
  {
    hide FormedCondition, FormedBody, Chooser, Truth, Run, Writes, Tokens, NoCr, ParseAll;
    var path := Path(root, []);
    ChooserRuns(env, path, c);
    TextMeaning(expand, env, root, Chooser(c), text);
    FindPut(root, "x", StringItem("0"), "x");
    FindPut(root, "x", StringItem("1"), "x");
  }

  lemma ChooserRuns(env: Env, path: Path, c: Condition)
    requires FormedCondition(c) && path.at == [] && !IsScope(Find(path.root, "x"))
    ensures FormedBody(Chooser(c))
    ensures match Truth(env, path, c)
            case None => Run(env, path, Chooser(c)) == None
            case Some(b) => Run(env, path, Chooser(c)) == Some(Path(Put(path.root, "x", StringItem(if b then "1" else "0")), []))
  {
    hide FormedCondition, FormedBody, FormedStatement, Truth, Run, Put, Setting;
    var s, other := Chooser(c)[0], Otherwise([Setting("0")]);
    SettingRuns(env, path, "0");
    SettingRuns(env, path, "1");
    assert FormedClauses(other);
    assert forall p :: RunClauses(env, p, other, true) == Some(p);
    assert RunClauses(env, path, other, false) == Run(env, path, [Setting("0")]);
    ChooserFormed(c);
    OneRuns(env, path, s);
  }

  lemma OneRuns(env: Env, path: Path, s: Statement)
    requires FormedStatement(s)
    ensures FormedBody([s]) && Run(env, path, [s]) == RunOne(env, path, s)
  {
    hide FormedStatement, RunOne;
    assert [s][1..] == [];
    assert forall p :: Run(env, p, []) == Some(p);
  }

  lemma ChooserFormed(c: Condition)
    requires FormedCondition(c)
    ensures FormedStatement(Chooser(c)[0])
  {
    hide FormedCondition, FormedBody, Setting;
    SettingFormed("0");
    SettingFormed("1");
    OneFormed(Setting("0"));
    OneFormed(Setting("1"));
    assert FormedClauses(Otherwise([Setting("0")]));
  }

  lemma OneFormed(s: Statement)
    requires FormedStatement(s)
    ensures FormedBody([s])
  {
    hide FormedStatement;
  }

  lemma SettingFormed(value: string)
    ensures FormedStatement(Setting(value))
  {
    var e := Just(Literal(value));
    assert FormedTerm(e.term);
    assert FormedSum(e);
  }

  lemma SettingRuns(env: Env, path: Path, value: string)
    requires path.at == [] && !IsScope(Find(path.root, "x"))
    ensures FormedBody([Setting(value)])
    ensures Run(env, path, [Setting(value)]) == Some(Path(Put(path.root, "x", StringItem(value)), []))
  {
    hide Run, Put, Components;
    OneComponent("x");
    SettingFormed(value);
    OneRuns(env, path, Setting(value));
    var es, e := Put(path.root, "x", StringItem(value)), Just(Literal(value));
    assert StringTerm(env, path, e.term) == Some(value);
    assert StringOf(env, path, e) == Some(value);
    assert Insert(path.root, ["x"], StringItem(value)) == Some(es);
    assert SetCurrent(path, es) == Path(es, []);
  }
}
