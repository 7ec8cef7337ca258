/** Printing a configuration and parsing the text gives the configuration back. */
module ConfigRoundTrip {
  import opened CStrings
  import StringFunctions
  import opened Wrappers
  import opened ConfigPaths
  import opened ConfigSyntax
  import opened ConfigText
  import opened SortedEntries
  import opened PathLaws

  // ---------- what can be printed ----------

  /** A name the lexer reads back: identifier characters, no dot, no '?' in front, and left alone by
      the processor of uid- names. */
  predicate LegalName(expand: Expand, name: string)
  {
    |name| > 0 && (forall i :: 0 <= i < |name| ==> IsIdentifierChar(name[i])) && '.' !in name && name[0] != '?'
    && expand(name) == Some(name)
  }

  predicate Legal(expand: Expand, es: Entries)
  {
    Sorted(es) && forall i :: 0 <= i < |es| ==> LegalEntry(expand, es[i])
  }

  predicate LegalEntry(expand: Expand, e: Entry)
  {
    LegalName(expand, e.name) && (e.item.ScopeItem? ==> Legal(expand, e.item.entries))
  }

  /** No value has a carriage return. */
  predicate WithoutCr(es: Entries)
  {
    forall i :: 0 <= i < |es| ==> ItemWithoutCr(es[i].item)
  }

  predicate ItemWithoutCr(item: Item)
  {
    match item
    case StringItem(s) => '\r' !in s
    case ListItem(l) => forall i :: 0 <= i < |l| ==> '\r' !in l[i]
    case ScopeItem(es) => WithoutCr(es)
  }

  // ---------- the tokens of the printed text ----------

  function ListTokens(l: seq<string>): seq<Token>
  {
    if |l| == 0 then [] else if |l| == 1 then [Token(Str, l[0])] else [Token(Str, l[0]), Token(Comma, ",")] + ListTokens(l[1..])
  }

  function ItemTokens(e: Entry): seq<Token>
    decreases e, 1
  {
    match e.item
    case StringItem(s) => [Token(Ident, e.name), Token(Equals, "="), Token(Str, s), Token(Semicolon, ";")]
    case ListItem(l) =>
      [Token(Ident, e.name), Token(Equals, "="), Token(OpenBracket, "[")] + ListTokens(l)
      + [Token(CloseBracket, "]"), Token(Semicolon, ";")]
    case ScopeItem(es) => [Token(Ident, e.name), Token(OpenBrace, "{")] + ScopeTokens(es) + [Token(CloseBrace, "}")]
  }

  function ScopeTokens(es: Entries): seq<Token>
    decreases es, 2
  {
    PassTokens(es, false) + PassTokens(es, true)
  }

  function PassTokens(es: Entries, scopes: bool): seq<Token>
    decreases es, 1
  {
    if |es| == 0 then [] else (if es[0].item.ScopeItem? == scopes then ItemTokens(es[0]) else []) + PassTokens(es[1..], scopes)
  }

  // ---------- lexing the printed text ----------

  /** consumeString inverts escapeString. */
  lemma {:induction false} StringInverts(s: string, rest: string)
    ensures StringBody(Escaped(s) + "\"" + rest) == (Str, s, rest)
  {
    if |s| == 0 {
      assert Escaped(s) + "\"" + rest == "\"" + rest;
    } else {
      StringInverts(s[1..], rest);
      var tail := Escaped(s[1..]) + "\"" + rest;
      assert Escaped(s) + "\"" + rest == EscapedChar(s[0]) + tail;
      EscapeStep(s[0], tail);
      assert [s[0]] + s[1..] == s;
    }
  }

  lemma EscapeStep(c: char, tail: string)
    ensures StringBody(EscapedChar(c) + tail) == (StringBody(tail).0, [c] + StringBody(tail).1, StringBody(tail).2)
  {
    if |EscapedChar(c)| == 2 { EscapedStep(c, EscapedChar(c)[1], tail); } else { PlainStep(c, tail); }
  }

  lemma EscapedStep(c: char, e: char, tail: string)
    requires EscapedChar(c) == ['%', e]
    ensures StringBody(['%', e] + tail) == (StringBody(tail).0, [c] + StringBody(tail).1, StringBody(tail).2)
  {
    var t := ['%', e] + tail;
    assert t[2..] == tail && t[1] == e;
  }

  lemma PlainStep(c: char, tail: string)
    requires EscapedChar(c) == [c]
    ensures StringBody([c] + tail) == (StringBody(tail).0, [c] + StringBody(tail).1, StringBody(tail).2)
  {
    assert ([c] + tail)[1..] == tail;
  }

  /** White space in front of a token is skipped. */
  lemma SpaceFirst(expand: Expand, c: char, s: string)
    requires IsSpace(c)
    ensures Tokens(expand, [c] + s) == Tokens(expand, s)
  {
    assert ([c] + s)[1..] == s;
    assert SkipSpace([c] + s) == SkipSpace(s);
    assert Lexeme(expand, [c] + s) == Lexeme(expand, s);
  }

  lemma {:induction false} IndentSkipped(expand: Expand, level: nat, s: string)
    ensures Tokens(expand, Indent(level) + s) == Tokens(expand, s)
  {
    hide Tokens;
    if level == 0 {
      assert Indent(0) + s == s;
    } else {
      IndentSkipped(expand, level - 1, s);
      SpaceFirst(expand, '\t', Indent(level - 1) + s);
      assert Indent(level) + s == ['\t'] + (Indent(level - 1) + s);
    }
  }

  /** One token and the tokens after it. */
  lemma NextToken(expand: Expand, s: string, t: Token, rest: string)
    requires Lexeme(expand, s) == (t, rest) && t.sym != Eof && t.sym != BadEscape
    ensures Tokens(expand, s) == [t] + Tokens(expand, rest)
  {}

  lemma PunctuationToken(expand: Expand, c: char, rest: string)
    requires Punctuation(c).Some?
    ensures Tokens(expand, [c] + rest) == [Token(Punctuation(c).value, [c])] + Tokens(expand, rest)
  {
    assert ([c] + rest)[1..] == rest;
    NextToken(expand, [c] + rest, Token(Punctuation(c).value, [c]), rest);
  }

  lemma EqualsToken(expand: Expand, rest: string)
    requires !StartsWith(rest, '=')
    ensures Tokens(expand, "=" + rest) == [Token(Equals, "=")] + Tokens(expand, rest)
  {
    assert ("=" + rest)[1..] == rest;
    NextToken(expand, "=" + rest, Token(Equals, "="), rest);
  }

  lemma QuotedToken(expand: Expand, s: string, rest: string)
    ensures Tokens(expand, Quoted(s) + rest) == [Token(Str, s)] + Tokens(expand, rest)
  {
    var t := Quoted(s) + rest;
    assert t[1..] == Escaped(s) + "\"" + rest;
    StringInverts(s, rest);
    NextToken(expand, t, Token(Str, s), rest);
  }

  lemma {:induction false} IdentifierLength(name: string, rest: string)
    requires forall i :: 0 <= i < |name| ==> IsIdentifierChar(name[i])
    requires |rest| > 0 ==> !IsIdentifierChar(rest[0])
    ensures WhileIdentifier(name + rest) == |name|
  {
    if |name| > 0 {
      IdentifierLength(name[1..], rest);
      assert (name + rest)[1..] == name[1..] + rest;
    } else {
      assert name + rest == rest;
    }
  }

  lemma NameToken(expand: Expand, name: string, rest: string)
    requires LegalName(expand, name) && StartsWith(rest, ' ')
    ensures Tokens(expand, name + rest) == [Token(Ident, name)] + Tokens(expand, rest)
  {
    var s := name + rest;
    IdentifierLength(name, rest);
    assert s[0] == name[0] && s[..|name|] == name && s[|name|..] == rest;
    assert IsIdentifierChar(s[0]) && SkipSpace(s) == s;
    assert name != "." && !HasTwoDots(name);
    assert Punctuation(s[0]) == None;
    NextToken(expand, s, Token(Ident, name), rest);
  }

  lemma {:induction false} ListTextTokens(expand: Expand, l: seq<string>, rest: string)
    ensures Tokens(expand, ListText(l) + rest) == ListTokens(l) + Tokens(expand, rest)
  {
    hide Tokens, Quoted, ListText, ListTokens;
    ListTextNext(l, rest);
    ListTokensNext(l, Tokens(expand, rest));
    if |l| == 1 {
      QuotedToken(expand, l[0], rest);
    } else if |l| > 1 {
      var more := ListText(l[1..]) + rest;
      ListTextTokens(expand, l[1..], rest);
      SpaceFirst(expand, ' ', more);
      PunctuationToken(expand, ',', [' '] + more);
      QuotedToken(expand, l[0], [','] + ([' '] + more));
    }
  }

  lemma ListTextNext(l: seq<string>, rest: string)
    ensures |l| == 0 ==> ListText(l) + rest == rest
    ensures |l| == 1 ==> ListText(l) + rest == Quoted(l[0]) + rest
    ensures |l| > 1 ==> ListText(l) + rest == Quoted(l[0]) + ([','] + ([' '] + (ListText(l[1..]) + rest)))
  {
    hide Quoted;
    if |l| == 0 {
      assert "" + rest == rest;
    } else if |l| > 1 {
      var q, more := Quoted(l[0]), ListText(l[1..]);
      assert ListText(l) == q + ", " + more;
      hide ListText;
      CommaApart(q, more, rest);
    }
  }

  lemma CommaApart(q: string, more: string, rest: string)
    ensures q + ", " + more + rest == q + ([','] + ([' '] + (more + rest)))
  {
    assert ", " == [','] + [' '];
  }

  /** What follows a printed name: a space, then the rest of the item. */
  lemma NameAndSpace(expand: Expand, level: nat, name: string, rest: string)
    requires LegalName(expand, name)
    ensures Tokens(expand, Indent(level) + name + ([' '] + rest)) == [Token(Ident, name)] + Tokens(expand, rest)
  {
    hide Tokens, LegalName;
    assert Indent(level) + name + ([' '] + rest) == Indent(level) + (name + ([' '] + rest));
    IndentSkipped(expand, level, name + ([' '] + rest));
    NameToken(expand, name, [' '] + rest);
    SpaceFirst(expand, ' ', rest);
  }

  /** "= " after a name. */
  lemma EqualsAndSpace(expand: Expand, rest: string)
    ensures Tokens(expand, "= " + rest) == [Token(Equals, "=")] + Tokens(expand, rest)
  {
    hide Tokens;
    assert "= " + rest == "=" + ([' '] + rest);
    EqualsToken(expand, [' '] + rest);
    SpaceFirst(expand, ' ', rest);
  }

  /** A closing character and the end of the line. */
  lemma EndOfLine(expand: Expand, c: char, rest: string)
    requires Punctuation(c).Some?
    ensures Tokens(expand, [c] + "\n" + rest) == [Token(Punctuation(c).value, [c])] + Tokens(expand, rest)
  {
    hide Tokens;
    assert [c] + "\n" + rest == [c] + (['\n'] + rest);
    PunctuationToken(expand, c, ['\n'] + rest);
    SpaceFirst(expand, '\n', rest);
  }

  lemma {:induction false} ItemTextTokens(expand: Expand, e: Entry, level: nat, rest: string)
    requires LegalEntry(expand, e)
    ensures Tokens(expand, ItemText(e, level) + rest) == ItemTokens(e) + Tokens(expand, rest)
    decreases e, 1
  {
    hide Tokens, Quoted, LegalName, ListText, ListTokens;
    match e.item
    case StringItem(s) =>
      var value := Quoted(s) + (";" + "\n" + rest);
      assert ItemText(e, level) + rest == Indent(level) + e.name + ([' '] + ("= " + value));
      NameAndSpace(expand, level, e.name, "= " + value);
      EqualsAndSpace(expand, value);
      QuotedToken(expand, s, ";" + "\n" + rest);
      EndOfLine(expand, ';', rest);
    case ListItem(l) =>
      var close := "]" + (";" + "\n" + rest);
      var value := "[" + (ListText(l) + close);
      assert ItemText(e, level) + rest == Indent(level) + e.name + ([' '] + ("= " + value));
      NameAndSpace(expand, level, e.name, "= " + value);
      EqualsAndSpace(expand, value);
      PunctuationToken(expand, '[', ListText(l) + close);
      ListTextTokens(expand, l, close);
      PunctuationToken(expand, ']', ";" + "\n" + rest);
      EndOfLine(expand, ';', rest);
      ListShape(e.name, ListTokens(l), Tokens(expand, rest));
    case ScopeItem(es) =>
      ScopeItemTokens(expand, e, level, rest);
  }

  lemma ListShape(name: string, l: seq<Token>, rest: seq<Token>)
    ensures [Token(Ident, name)] + ([Token(Equals, "=")] + ([Token(OpenBracket, "[")] + (l + ([Token(CloseBracket, "]")] + ([Token(Semicolon, ";")] + rest)))))
         == [Token(Ident, name), Token(Equals, "="), Token(OpenBracket, "[")] + l + [Token(CloseBracket, "]"), Token(Semicolon, ";")] + rest
  {}

  lemma {:induction false} ScopeItemTokens(expand: Expand, e: Entry, level: nat, rest: string)
    requires LegalEntry(expand, e) && e.item.ScopeItem?
    ensures Tokens(expand, ItemText(e, level) + rest) == ItemTokens(e) + Tokens(expand, rest)
    decreases e, 0
  {
    hide Tokens, LegalName, ScopeText, ScopeTokens;
    var es := e.item.entries;
    var close := Indent(level) + ("}" + "\n" + rest);
    var body := ScopeText(es, level + 1) + close;
    assert ItemText(e, level) + rest == Indent(level) + e.name + ([' '] + ("{" + "\n" + body));
    NameAndSpace(expand, level, e.name, "{" + "\n" + body);
    EndOfLine(expand, '{', body);
    ScopeTextTokens(expand, es, level + 1, close);
    IndentSkipped(expand, level, "}" + "\n" + rest);
    EndOfLine(expand, '}', rest);
    ScopeShape(e.name, ScopeTokens(es), Tokens(expand, rest));
  }

  lemma ScopeShape(name: string, l: seq<Token>, rest: seq<Token>)
    ensures [Token(Ident, name)] + ([Token(OpenBrace, "{")] + (l + ([Token(CloseBrace, "}")] + rest)))
         == [Token(Ident, name), Token(OpenBrace, "{")] + l + [Token(CloseBrace, "}")] + rest
  {}

  /** The tokens of a printed scope. */
  lemma {:induction false} ScopeTextTokens(expand: Expand, es: Entries, level: nat, rest: string)
    requires Legal(expand, es)
    ensures Tokens(expand, ScopeText(es, level) + rest) == ScopeTokens(es) + Tokens(expand, rest)
    decreases es, 2
  {
    hide Tokens, PassText, PassTokens;
    var second := PassText(es, level, true) + rest;
    assert ScopeText(es, level) + rest == PassText(es, level, false) + second;
    PassTextTokens(expand, es, level, false, second);
    PassTextTokens(expand, es, level, true, rest);
    Associates(PassTokens(es, false), PassTokens(es, true), Tokens(expand, rest));
  }

  lemma Associates<T>(a: seq<T>, b: seq<T>, c: seq<T>)
    ensures a + (b + c) == a + b + c
  {}

  lemma {:induction false} PassTextTokens(expand: Expand, es: Entries, level: nat, scopes: bool, rest: string)
    requires forall i :: 0 <= i < |es| ==> LegalEntry(expand, es[i])
    ensures Tokens(expand, PassText(es, level, scopes) + rest) == PassTokens(es, scopes) + Tokens(expand, rest)
    decreases es, 1
  {
    hide Tokens, ItemText, ItemTokens, LegalEntry;
    if |es| == 0 {
      assert PassText(es, level, scopes) + rest == rest;
    } else {
      PassTextTokens(expand, es[1..], level, scopes, rest);
      if es[0].item.ScopeItem? == scopes {
        Associates(ItemText(es[0], level), PassText(es[1..], level, scopes), rest);
        ItemTextTokens(expand, es[0], level, PassText(es[1..], level, scopes) + rest);
        Associates(ItemTokens(es[0]), PassTokens(es[1..], scopes), Tokens(expand, rest));
      } else {
        assert "" + PassText(es[1..], level, scopes) == PassText(es[1..], level, scopes);
        assert [] + PassTokens(es[1..], scopes) == PassTokens(es[1..], scopes);
      }
    }
  }

  // ---------- parsing the tokens ----------

  lemma StringParsed(env: Env, s: string, rest: seq<Token>, path: Path)
    requires Sym(rest) != Plus
    ensures ParseStringExpr(env, [Token(Str, s)] + rest, path) == Done(s, rest)
  {
    assert ([Token(Str, s)] + rest)[1..] == rest;
  }

  lemma {:induction false} ListParsed(env: Env, l: seq<string>, rest: seq<Token>, path: Path)
    requires Sym(rest) == CloseBracket
    ensures ParseStringExprList(env, ListTokens(l) + rest, path) == Done(l, rest)
  {
    hide ParseStringExprList, ParseStringExpr, ListTokens;
    ListTokensNext(l, rest);
    if |l| == 0 {
      NoElements(env, rest, path);
    } else if |l| == 1 {
      StringParsed(env, l[0], rest, path);
      OneElement(env, ListTokens(l) + rest, path, l[0], rest);
      assert l == [l[0]];
    } else {
      var more := ListTokens(l[1..]) + rest;
      var ts := [Token(Str, l[0])] + ([Token(Comma, ",")] + more);
      assert ([Token(Comma, ",")] + more)[1..] == more;
      StringParsed(env, l[0], [Token(Comma, ",")] + more, path);
      ListParsed(env, l[1..], rest, path);
      OneElement(env, ts, path, l[0], [Token(Comma, ",")] + more);
      assert [l[0]] + l[1..] == l;
    }
  }

  lemma ListTokensNext(l: seq<string>, rest: seq<Token>)
    ensures |l| == 0 ==> ListTokens(l) + rest == rest
    ensures |l| == 1 ==> ListTokens(l) + rest == [Token(Str, l[0])] + rest
    ensures |l| > 1 ==> ListTokens(l) + rest == [Token(Str, l[0])] + ([Token(Comma, ",")] + (ListTokens(l[1..]) + rest))
  {
    if |l| == 0 {
      assert [] + rest == rest;
    } else if |l| > 1 {
      var more := ListTokens(l[1..]);
      assert ListTokens(l) == [Token(Str, l[0]), Token(Comma, ",")] + more;
      hide ListTokens;
      TwoInFront(Token(Str, l[0]), Token(Comma, ","), more, rest);
    }
  }

  lemma TwoInFront(a: Token, b: Token, more: seq<Token>, rest: seq<Token>)
    ensures [a, b] + more + rest == [a] + ([b] + (more + rest))
  {}

  lemma NoElements(env: Env, ts: seq<Token>, path: Path)
    requires Sym(ts) == CloseBracket
    ensures ParseStringExprList(env, ts, path) == Done([], ts)
  {}

  /** A list whose first string is read. */
  lemma OneElement(env: Env, ts: seq<Token>, path: Path, s: string, after: seq<Token>)
    requires Sym(ts) != CloseBracket && ParseStringExpr(env, ts, path) == Done(s, after)
    ensures Sym(after) != Comma ==> ParseStringExprList(env, ts, path) == Done([s], after)
    ensures Sym(after) == Comma ==>
              ParseStringExprList(env, ts, path) == match ParseStringExprList(env, after[1..], path)
                                                    case Fail => Fail
                                                    case Done(l, rest) => Done([s] + l, rest)
  {
    hide ParseStringExpr;
  }

  lemma ListExprParsed(env: Env, l: seq<string>, rest: seq<Token>, path: Path)
    requires Sym(rest) == Semicolon
    ensures ParseListExpr(env, [Token(OpenBracket, "[")] + (ListTokens(l) + ([Token(CloseBracket, "]")] + rest)), path) == Done(l, rest)
  {
    hide ParseStringExprList;
    var close := [Token(CloseBracket, "]")] + rest;
    ListParsed(env, l, close, path);
    assert ([Token(OpenBracket, "[")] + (ListTokens(l) + close))[1..] == ListTokens(l) + close;
    assert close[1..] == rest;
  }

  /** A name without dots is its only component. */
  lemma OneComponent(name: string)
    requires '.' !in name
    ensures Components(name) == [name]
  {
    StringFunctions.CharacterSeparates([name], '.');
    StringFunctions.JoinThenSplit([name], ".");
  }

  /** An assignment adds the entry to the current scope, whose contents are cur. */
  lemma VariableParsed(env: Env, e: Entry, rest: seq<Token>, path: Path, cur: Entries)
    requires !e.item.ScopeItem? && |e.name| > 0 && '.' !in e.name && Find(cur, e.name) == None
    ensures ParseStmt(env, ItemTokens(e) + rest, SetCurrent(path, cur)) == Done(SetCurrent(path, Put(cur, e.name, e.item)), rest)
  {
    hide ParseIfStmt, ParseScope, ParseInclude, Find, Put, SetCurrent, Current, Components, ParseStringExpr, ParseListExpr, ListTokens, Lookup, Value;
    var here := SetCurrent(path, cur);
    CurrentSet(path, cur);
    SetTwice(path, cur, Put(cur, e.name, e.item));
    OneComponent(e.name);
    var ts := ItemTokens(e) + rest;
    var semicolon := [Token(Semicolon, ";")] + rest;
    assert semicolon[1..] == rest;
    match e.item
    case StringItem(s) =>
      assert ts[2..] == [Token(Str, s)] + semicolon;
      StringParsed(env, s, semicolon, here);
    case ListItem(l) =>
      var value := [Token(OpenBracket, "[")] + (ListTokens(l) + ([Token(CloseBracket, "]")] + semicolon));
      assert ts[2..] == value;
      ListExprParsed(env, l, semicolon, here);
  }

  /** The names of the entries that a pass adds are not in use. */
  predicate Unused(cur: Entries, es: Entries, scopes: bool)
  {
    forall i :: 0 <= i < |es| && es[i].item.ScopeItem? == scopes ==> Find(cur, es[i].name) == None
  }

  lemma UnusedNext(cur: Entries, es: Entries, scopes: bool)
    requires |es| > 0 && Sorted(es) && Unused(cur, es, scopes)
    ensures Unused(if es[0].item.ScopeItem? == scopes then Put(cur, es[0].name, es[0].item) else cur, es[1..], scopes)
  {
    SortedTail(es);
    hide Sorted, Find, Put;
    forall i | 0 <= i < |es[1..]| ensures es[1..][i] == es[i + 1] && es[1..][i].name != es[0].name {
      FindIn(es[1..], es[0].name);
    }
    forall m ensures Find(Put(cur, es[0].name, es[0].item), m) == if m == es[0].name then Some(es[0].item) else Find(cur, m) {
      FindPut(cur, es[0].name, es[0].item, m);
    }
  }

  lemma {:induction false} PassParsed(env: Env, expand: Expand, es: Entries, scopes: bool, rest: seq<Token>, path: Path, cur: Entries)
    requires Legal(expand, es) && Unused(cur, es, scopes) && Sym(rest) != Semicolon
    ensures ParseStmtList(env, PassTokens(es, scopes) + rest, SetCurrent(path, cur))
         == ParseStmtList(env, rest, SetCurrent(path, PutPass(cur, es, scopes)))
    decreases es, 1
  {
    hide Find, Put, ParseStmt, ParseStmtList, LegalEntry, Sorted, Unused, ItemTokens, SetCurrent;
    if |es| == 0 {
      assert PassTokens(es, scopes) + rest == rest;
    } else {
      SortedTail(es);
      UnusedNext(cur, es, scopes);
      LegalTail(expand, es);
      var more := PassTokens(es[1..], scopes) + rest;
      hide Legal;
      if es[0].item.ScopeItem? == scopes {
        var cur' := Put(cur, es[0].name, es[0].item);
        PassTokensStart(es[1..], scopes, rest);
        NotInUse(cur, es, scopes);
        EntryParsed(env, expand, es[0], more, path, cur);
        StatementFirst(env, es[0], more, SetCurrent(path, cur), SetCurrent(path, cur'));
        PassParsed(env, expand, es[1..], scopes, rest, path, cur');
        Associates(ItemTokens(es[0]), PassTokens(es[1..], scopes), rest);
      } else {
        PassParsed(env, expand, es[1..], scopes, rest, path, cur);
        assert PassTokens(es, scopes) + rest == more;
      }
    }
  }

  lemma StatementFirst(env: Env, e: Entry, rest: seq<Token>, path: Path, path': Path)
    requires ParseStmt(env, ItemTokens(e) + rest, path) == Done(path', rest)
    ensures ParseStmtList(env, ItemTokens(e) + rest, path) == ParseStmtList(env, rest, path')
  {
    assert Sym(ItemTokens(e) + rest) == Ident;
    hide ParseStmt, ItemTokens;
  }

  lemma LegalTail(expand: Expand, es: Entries)
    requires Legal(expand, es) && |es| > 0
    ensures Legal(expand, es[1..]) && LegalEntry(expand, es[0])
  {
    SortedTail(es);
  }

  /** No printed pass begins with a semicolon, so no scope takes one from the next statement. */
  lemma {:induction false} PassTokensStart(es: Entries, scopes: bool, rest: seq<Token>)
    requires Sym(rest) != Semicolon
    ensures Sym(PassTokens(es, scopes) + rest) != Semicolon
  {
    if |es| > 0 && es[0].item.ScopeItem? != scopes { PassTokensStart(es[1..], scopes, rest); }
  }

  lemma NotInUse(cur: Entries, es: Entries, scopes: bool)
    requires |es| > 0 && Unused(cur, es, scopes) && es[0].item.ScopeItem? == scopes
    ensures Find(cur, es[0].name) == None
  {}

  lemma {:induction false} EntryParsed(env: Env, expand: Expand, e: Entry, rest: seq<Token>, path: Path, cur: Entries)
    requires LegalEntry(expand, e) && Find(cur, e.name) == None && Sym(rest) != Semicolon
    ensures ParseStmt(env, ItemTokens(e) + rest, SetCurrent(path, cur)) == Done(SetCurrent(path, Put(cur, e.name, e.item)), rest)
    decreases e, 2
  {
    hide ParseStmt, ItemTokens, Find, Put, Legal, SetCurrent;
    if e.item.ScopeItem? {
      ScopeParsed(env, expand, e, rest, path, cur);
    } else {
      VariableParsed(env, e, rest, path, cur);
    }
  }

  lemma {:induction false} ScopeParsed(env: Env, expand: Expand, e: Entry, rest: seq<Token>, path: Path, cur: Entries)
    requires LegalEntry(expand, e) && e.item.ScopeItem? && Find(cur, e.name) == None && Sym(rest) != Semicolon
    ensures ParseStmt(env, ItemTokens(e) + rest, SetCurrent(path, cur)) == Done(SetCurrent(path, Put(cur, e.name, e.item)), rest)
    decreases e, 1
  {
    hide Find, Put, Legal, ScopeTokens, ItemTokens, Within, Entered, ParseStmtList, ParseStmt;
    var close := [Token(CloseBrace, "}")] + rest;
    assert close[1..] == rest;
    var inner := ScopeEntered(path, cur, e.name);
    EntriesParsed(env, expand, e.item.entries, close, inner);
    ScopeLeft(path, cur, e.name, inner, e.item.entries);
    ScopeStatement(env, SetCurrent(path, cur), e.name, ScopeTokens(e.item.entries) + close, rest);
    ScopeItemSplit(e, rest);
  }

  lemma ScopeItemSplit(e: Entry, rest: seq<Token>)
    requires e.item.ScopeItem?
    ensures ItemTokens(e) + rest
         == [Token(Ident, e.name), Token(OpenBrace, "{")] + (ScopeTokens(e.item.entries) + ([Token(CloseBrace, "}")] + rest))
  {
    hide ScopeTokens;
    var head, body, close := [Token(Ident, e.name), Token(OpenBrace, "{")], ScopeTokens(e.item.entries), [Token(CloseBrace, "}")];
    Associates(head + body, close, rest);
    Associates(head, body, close + rest);
  }

  lemma ScopeStatement(env: Env, path: Path, name: string, body: seq<Token>, rest: seq<Token>)
    requires |name| > 0 && name[0] != '.' && Entered(path, name).Some? && Sym(rest) != Semicolon
    requires Accept(ParseStmtList(env, body, Entered(path, name).value), CloseBrace).Done?
    requires Accept(ParseStmtList(env, body, Entered(path, name).value), CloseBrace).rest == rest
    ensures var after := ParseStmtList(env, body, Entered(path, name).value).value;
            ParseStmt(env, [Token(Ident, name), Token(OpenBrace, "{")] + body, path) == Done(Path(after.root, path.at), rest)
  {
    hide Entered, ParseStmtList, ParseIfStmt, ParseInclude, ParseAssignment;
    var ts := [Token(Ident, name), Token(OpenBrace, "{")] + body;
    assert ts[2..] == body;
    assert ParseScope(env, body, path, name) == Done(Path(ParseStmtList(env, body, Entered(path, name).value).value.root, path.at), rest);
  }

  /** The path into the scope of that name inside the current one. */
  lemma ScopeEntered(path: Path, cur: Entries, name: string) returns (inner: Path)
    requires '.' !in name && Find(cur, name) == None
    ensures inner == Path(SetCurrent(path, cur).root, path.at + [name])
    ensures Entered(SetCurrent(path, cur), name) == Some(SetCurrent(inner, []))
  {
    hide Find, Put, Components;
    OneComponent(name);
    CurrentSet(path, cur);
    SetTwice(path, cur, Put(cur, name, ScopeItem([])));
    inner := Path(SetCurrent(path, cur).root, path.at + [name]);
    ScopeLeft(path, cur, name, inner, []);
    assert EnsureScope(Inner(cur, name), []) == Some([]);
    assert EnsureScope(cur, [name]) == Some(Put(cur, name, ScopeItem([]))) by { assert [name][1..] == []; }
  }

  /** What is set in the inner scope is set in the outer one under its name. */
  lemma ScopeLeft(path: Path, cur: Entries, name: string, inner: Path, es: Entries)
    requires inner == Path(SetCurrent(path, cur).root, path.at + [name])
    ensures Path(SetCurrent(inner, es).root, path.at) == SetCurrent(path, Put(cur, name, ScopeItem(es)))
    ensures SetCurrent(inner, es) == Path(SetCurrent(path, Put(cur, name, ScopeItem(es))).root, path.at + [name])
  {
    hide Find, Put;
    WithinDeeper(path.root, path.at, cur, [name], es);
    assert [name][1..] == [];
    assert Within(cur, [name], es) == Put(cur, name, ScopeItem(es));
  }

  /** The statements of a printed scope fill an empty scope with its entries. */
  lemma {:induction false} EntriesParsed(env: Env, expand: Expand, es: Entries, rest: seq<Token>, path: Path)
    requires Legal(expand, es) && Sym(rest) != Semicolon && !StartsStmt(Sym(rest))
    ensures ParseStmtList(env, ScopeTokens(es) + rest, SetCurrent(path, [])) == Done(SetCurrent(path, es), rest)
    decreases es, 3
  {
    hide PassTokens, PutPass, Sorted, LegalEntry, SetCurrent;
    var vars := PutPass([], es, false);
    var second := PassTokens(es, true) + rest;
    assert ScopeTokens(es) + rest == PassTokens(es, false) + second;
    NothingInUse(es);
    VariablesInUse(es);
    PassTokensStart(es, true, rest);
    BothPasses(es);
    hide Legal, Unused, ScopeTokens;
    PassParsed(env, expand, es, false, second, path, []);
    PassParsed(env, expand, es, true, rest, path, vars);
    AtEnd(env, rest, SetCurrent(path, es));
  }

  lemma AtEnd(env: Env, rest: seq<Token>, path: Path)
    requires !StartsStmt(Sym(rest))
    ensures ParseStmtList(env, rest, path) == Done(path, rest)
  {}

  lemma NothingInUse(es: Entries)
    ensures Unused([], es, false)
  {}

  lemma VariablesInUse(es: Entries)
    requires Sorted(es)
    ensures Unused(PutPass([], es, false), es, true)
  {
    hide Sorted, PutPass, Find;
    forall i | 0 <= i < |es| && es[i].item.ScopeItem? == true ensures Find(PutPass([], es, false), es[i].name) == None {
      FindPutPass([], es, false, es[i].name);
      FindAt(es, i);
      NothingFound(es[i].name);
    }
  }

  lemma {:induction false} FindAt(es: Entries, i: nat)
    requires Sorted(es) && i < |es|
    ensures Find(es, es[i].name) == Some(es[i].item)
    decreases i
  {
    if i > 0 {
      SortedTail(es);
      FindAt(es[1..], i - 1);
    }
  }

  // ---------- carriage returns ----------

  /** What is left of a configuration when its text has passed the lexer's input. */
  function Stripped(es: Entries): (r: Entries)
    ensures |r| == |es| && forall i :: 0 <= i < |es| ==> r[i].name == es[i].name
    decreases es, 1
  {
    if |es| == 0 then [] else [Entry(es[0].name, StrippedItem(es[0].item))] + Stripped(es[1..])
  }

  function StrippedItem(item: Item): Item
    decreases item, 0
  {
    match item
    case StringItem(s) => StringItem(NoCr(s))
    case ListItem(l) => ListItem(StrippedList(l))
    case ScopeItem(es) => ScopeItem(Stripped(es))
  }

  function StrippedList(l: seq<string>): (r: seq<string>)
    ensures |r| == |l|
  {
    if |l| == 0 then [] else [NoCr(l[0])] + StrippedList(l[1..])
  }

  lemma NoCrNothing()
    ensures NoCr("") == ""
  {}

  lemma NoCrFirst(c: char, t: string)
    ensures NoCr([c] + t) == (if c == '\r' then "" else [c]) + NoCr(t)
  {
    assert ([c] + t)[1..] == t;
  }

  lemma {:induction false} NoCrJoin(s: string, t: string)
    ensures NoCr(s + t) == NoCr(s) + NoCr(t)
  {
    hide NoCr;
    if |s| == 0 {
      assert s + t == t;
      NoCrNothing();
    } else {
      NoCrJoin(s[1..], t);
      assert s == [s[0]] + s[1..] && s + t == [s[0]] + (s[1..] + t);
      NoCrFirst(s[0], s[1..]);
      NoCrFirst(s[0], s[1..] + t);
    }
  }

  lemma {:induction false} NoCrSame(s: string)
    ensures NoCr(s) == s <==> '\r' !in s
  {
    if |s| > 0 && s[0] != '\r' { NoCrSame(s[1..]); }
  }

  lemma {:induction false} NoCrEscaped(s: string)
    ensures NoCr(Escaped(s)) == Escaped(NoCr(s))
  {
    if |s| > 0 {
      NoCrEscaped(s[1..]);
      NoCrJoin(EscapedChar(s[0]), Escaped(s[1..]));
      if s[0] == '\r' {
        assert NoCr(EscapedChar(s[0])) == "";
      } else {
        NoCrSame(EscapedChar(s[0]));
      }
    }
  }

  lemma NoCrQuoted(s: string)
    ensures NoCr(Quoted(s)) == Quoted(NoCr(s))
  {
    NoCrEscaped(s);
    NoCrJoin("\"" + Escaped(s), "\"");
    NoCrJoin("\"", Escaped(s));
  }

  lemma {:induction false} NoCrList(l: seq<string>)
    ensures NoCr(ListText(l)) == ListText(StrippedList(l))
  {
    hide Quoted;
    if |l| > 0 {
      NoCrQuoted(l[0]);
      NoCrList(l[1..]);
      assert StrippedList(l)[1..] == StrippedList(l[1..]);
      NoCrJoin(Quoted(l[0]) + ", ", ListText(l[1..]));
      NoCrJoin(Quoted(l[0]), ", ");
    }
  }

  lemma {:induction false} NoCrIndent(level: nat)
    ensures NoCr(Indent(level)) == Indent(level)
  {
    if level > 0 {
      NoCrIndent(level - 1);
      NoCrJoin("\t", Indent(level - 1));
    }
  }

  /** The text without carriage returns is the text of the stripped item. */
  lemma {:induction false} NoCrItem(expand: Expand, e: Entry, level: nat)
    requires LegalEntry(expand, e)
    ensures NoCr(ItemText(e, level)) == ItemText(Entry(e.name, StrippedItem(e.item)), level)
    decreases e, 1
  {
    hide Legal, Quoted, ListText, ScopeText, NoCr;
    NoCrSame(e.name);
    NoCrIndent(level);
    NoCrJoin(Indent(level), e.name);
    NoCrConstants();
    match e.item
    case StringItem(s) =>
      NoCrQuoted(s);
      NoCrThree(Indent(level) + e.name, " = ", Quoted(s), ";\n");
    case ListItem(l) =>
      NoCrList(l);
      NoCrThree(Indent(level) + e.name, " = [", ListText(l), "];\n");
    case ScopeItem(es) =>
      NoCrScope(expand, es, level + 1);
      NoCrJoin(Indent(level), "}\n");
      NoCrThree(Indent(level) + e.name, " {\n", ScopeText(es, level + 1), Indent(level) + "}\n");
      AssociatesLast(" {\n", ScopeText(es, level + 1), Indent(level), "}\n");
      AssociatesLast(" {\n", ScopeText(Stripped(es), level + 1), Indent(level), "}\n");
  }

  lemma AssociatesLast(a: string, b: string, c: string, d: string)
    ensures a + b + c + d == a + b + (c + d)
  {}

  lemma NoCrConstants()
    ensures NoCr(" = ") == " = " && NoCr(";\n") == ";\n" && NoCr(" = [") == " = [" && NoCr("];\n") == "];\n"
    ensures NoCr(" {\n") == " {\n" && NoCr("}\n") == "}\n"
  {
    NoCrSame(" = ");
    NoCrSame(";\n");
    NoCrSame(" = [");
    NoCrSame("];\n");
    NoCrSame(" {\n");
    NoCrSame("}\n");
  }

  lemma NoCrThree(head: string, a: string, b: string, c: string)
    ensures NoCr(head + (a + b + c)) == NoCr(head) + (NoCr(a) + NoCr(b) + NoCr(c))
  {
    NoCrJoin(head, a + b + c);
    NoCrJoin(a + b, c);
    NoCrJoin(a, b);
  }

  lemma {:induction false} NoCrScope(expand: Expand, es: Entries, level: nat)
    requires Legal(expand, es)
    ensures NoCr(ScopeText(es, level)) == ScopeText(Stripped(es), level)
    decreases es, 3
  {
    hide NoCr, PassText, LegalEntry, Stripped;
    NoCrPass(expand, es, level, false);
    NoCrPass(expand, es, level, true);
    NoCrJoin(PassText(es, level, false), PassText(es, level, true));
  }

  lemma {:induction false} NoCrPass(expand: Expand, es: Entries, level: nat, scopes: bool)
    requires forall i :: 0 <= i < |es| ==> LegalEntry(expand, es[i])
    ensures NoCr(PassText(es, level, scopes)) == PassText(Stripped(es), level, scopes)
    decreases es, 2
  {
    hide NoCr, ItemText, LegalEntry;
    if |es| == 0 {
      NoCrSame("");
    } else {
      var r := Stripped(es);
      assert r[1..] == Stripped(es[1..]) && r[0] == Entry(es[0].name, StrippedItem(es[0].item));
      NoCrPass(expand, es[1..], level, scopes);
      if es[0].item.ScopeItem? == scopes {
        NoCrItem(expand, es[0], level);
        NoCrJoin(ItemText(es[0], level), PassText(es[1..], level, scopes));
      } else {
        assert "" + PassText(es[1..], level, scopes) == PassText(es[1..], level, scopes);
        assert "" + PassText(r[1..], level, scopes) == PassText(r[1..], level, scopes);
      }
    }
  }

  /** Stripping leaves names and shape alone. */
  lemma {:induction false} StrippedLegal(expand: Expand, es: Entries)
    requires Legal(expand, es)
    ensures Legal(expand, Stripped(es))
    decreases es, 1
  {
    hide Sorted, LegalName;
    StrippedAt(es);
    StrippedSorted(es);
    forall i | 0 <= i < |es| ensures LegalEntry(expand, Stripped(es)[i]) {
      assert LegalEntry(expand, es[i]);
      if es[i].item.ScopeItem? { StrippedLegal(expand, es[i].item.entries); }
    }
  }

  lemma StrippedSorted(es: Entries)
    requires Sorted(es)
    ensures Sorted(Stripped(es))
  {}

  lemma {:induction false} StrippedAt(es: Entries)
    ensures forall i :: 0 <= i < |es| ==> Stripped(es)[i] == Entry(es[i].name, StrippedItem(es[i].item))
    decreases |es|
  {
    if |es| > 0 {
      StrippedAt(es[1..]);
      forall i | 0 <= i < |es| ensures Stripped(es)[i] == Entry(es[i].name, StrippedItem(es[i].item)) {
        if i > 0 { assert Stripped(es)[i] == Stripped(es[1..])[i - 1] && es[1..][i - 1] == es[i]; }
      }
    }
  }

  /** Nothing is lost exactly when no value has a carriage return. */
  lemma {:induction false} StrippedSame(es: Entries)
    ensures Stripped(es) == es <==> WithoutCr(es)
    decreases es, 1
  {
    StrippedAt(es);
    forall i | 0 <= i < |es| ensures StrippedItem(es[i].item) == es[i].item <==> ItemWithoutCr(es[i].item) {
      StrippedItemSame(es[i].item);
    }
    hide StrippedItem, ItemWithoutCr;
    var r := Stripped(es);
    assert forall i :: 0 <= i < |es| ==> (r[i] == es[i] <==> ItemWithoutCr(es[i].item));
    if WithoutCr(es) { assert r == es; }
  }

  lemma {:induction false} StrippedItemSame(item: Item)
    ensures StrippedItem(item) == item <==> ItemWithoutCr(item)
    decreases item, 0
  {
    match item
    case StringItem(s) => NoCrSame(s);
    case ListItem(l) => StrippedListSame(l);
    case ScopeItem(es) => StrippedSame(es);
  }

  lemma {:induction false} StrippedListSame(l: seq<string>)
    ensures StrippedList(l) == l <==> forall i :: 0 <= i < |l| ==> '\r' !in l[i]
  {
    if |l| > 0 {
      StrippedListSame(l[1..]);
      NoCrSame(l[0]);
      assert l == [l[0]] + l[1..];
      assert StrippedList(l)[0] == NoCr(l[0]) && StrippedList(l)[1..] == StrippedList(l[1..]);
    }
  }

  // ---------- the theorem ----------

  /** Parsing the printed text of a configuration with legal names into an empty one gives the
      configuration, with carriage returns gone from its values; so it gives it back unchanged
      exactly when no value has any. */
  lemma RoundTrip(env: Env, expand: Expand, es: Entries)
    requires Legal(expand, es)
    ensures var parsed := ParseAll(env, Tokens(expand, NoCr(ScopeText(es, 0))), []);
            parsed == Some(Stripped(es)) && (parsed == Some(es) <==> WithoutCr(es))
  {
    hide Legal, Stripped, ScopeText, ScopeTokens, ParseStmtList, NoCr;
    NoCrScope(expand, es, 0);
    StrippedLegal(expand, es);
    var r := Stripped(es);
    ScopeTextTokens(expand, r, 0, "");
    assert ScopeText(r, 0) + "" == ScopeText(r, 0);
    NoMoreTokens(expand);
    EntriesParsed(env, expand, r, [], Path([], []));
    assert ScopeTokens(r) + [] == ScopeTokens(r);
    StrippedSame(es);
  }

  lemma NoMoreTokens(expand: Expand)
    ensures Tokens(expand, "") == []
  {}
}
