/** The recursive-descent parser of ConfigParser.cpp: it moves through the tokens of its lexer and
    changes the configuration as it goes, and does what the grammar's functions say. */
module ConfigParsing {
  import opened Wrappers
  import opened ConfigPaths
  import opened ConfigSyntax
  import opened ConfigText
  import opened ConfigLexer
  import opened SortedEntries
  import opened CStrings
  import PatternMatch
  import StringFunctions

  /** A production has succeeded with value v and the tokens rest ahead, or thrown (ok is false). */
  ghost predicate Agrees<T>(ok: bool, v: T, rest: seq<Token>, p: Parsed<T>)
  {
    ok == p.Done? && (ok ==> p == Done(v, rest))
  }

  // ---------- loops over operands ----------

  function Appended<T>(acc: seq<T>, p: Parsed<seq<T>>): Parsed<seq<T>>
  {
    match p case Fail => Fail case Done(v, rest) => Done(acc + v, rest)
  }

  lemma AppendedTwice<T>(a: seq<T>, b: seq<T>, p: Parsed<seq<T>>)
    ensures Appended(a, Appended(b, p)) == Appended(a + b, p)
  {
    if p.Done? { assert a + (b + p.value) == a + b + p.value; }
  }

  /** What is still to be parsed of a sum of strings, behind its first terms. */
  ghost function MoreStrings(env: Env, acc: string, ts: seq<Token>, path: Path): Parsed<string>
  {
    if Sym(ts) != Plus then Done(acc, ts) else Appended(acc, ParseStringExpr(env, ts[1..], path))
  }

  ghost function MoreLists(env: Env, acc: seq<string>, ts: seq<Token>, path: Path): Parsed<seq<string>>
  {
    if Sym(ts) != Plus then Done(acc, ts) else Appended(acc, ParseListExpr(env, ts[1..], path))
  }

  lemma NextTerm(env: Env, acc: string, ts: seq<Token>, path: Path)
    requires Sym(ts) == Plus
    ensures MoreStrings(env, acc, ts, path)
         == match ParseString(env, ts[1..], path) case Fail => Fail case Done(s, rest) => MoreStrings(env, acc + s, rest, path)
  {
    hide ParseString;
    var p := ParseString(env, ts[1..], path);
    if p.Done? && Sym(p.rest) == Plus { AppendedTwice(acc, p.value, ParseStringExpr(env, p.rest[1..], path)); }
  }

  lemma NextList(env: Env, acc: seq<string>, ts: seq<Token>, path: Path)
    requires Sym(ts) == Plus
    ensures MoreLists(env, acc, ts, path)
         == match ParseList(env, ts[1..], path) case Fail => Fail case Done(l, rest) => MoreLists(env, acc + l, rest, path)
  {
    hide ParseList;
    var p := ParseList(env, ts[1..], path);
    if p.Done? && Sym(p.rest) == Plus { AppendedTwice(acc, p.value, ParseListExpr(env, p.rest[1..], path)); }
  }

  class ConfigParser {
    const m_lex: LexBase
    const m_env: Env
    var m_token: Token
    var m_path: Path          // m_config: its contents and its current scope

    ghost predicate Valid()
      reads this, m_lex
    {
      m_lex.Valid()
    }

    /** The tokens ahead, from the current one on. */
    ghost function Pending(): seq<Token>
      reads this, m_lex
      requires Valid()
    {
      if m_token.sym == Eof then [] else if m_token.sym == BadEscape then [m_token]
      else [m_token] + Tokens(m_lex.m_expand, m_lex.Rest())
    }

    constructor (lex: LexBase, env: Env, root: Entries)
      requires lex.Valid()
      modifies lex
      ensures Valid() && m_lex == lex && m_env == env && m_path == Path(root, [])
      ensures Pending() == Tokens(lex.m_expand, old(lex.Rest()))
    {
      m_lex, m_env, m_path := lex, env, Path(root, []);
      new;
      m_token := m_lex.nextToken();
    }

    /** m_lex->nextToken(m_token). Behind an invalid escape sequence, at which the source has
        thrown, the input counts as ended. */
    method advance()
      requires Valid()
      modifies this`m_token, m_lex
      ensures Valid() && Pending() == if old(Pending()) == [] then [] else old(Pending())[1..]
    {
      hide Lexeme, LexBase.Valid;
      if m_token.sym == BadEscape {
        m_token := Token(Eof, "");
      } else if m_token.sym != Eof {
        m_token := m_lex.nextToken();
      }
    }

    /** What Pending says about the current token. */
    lemma Look()
      requires Valid()
      ensures Sym(Pending()) == m_token.sym && (|Pending()| > 0 ==> Pending()[0] == m_token)
    {}

    /** accept: the current token is consumed if it is the expected one; the source throws if not. */
    method accept(sym: Symbol) returns (ok: bool)
      requires Valid() && sym != Eof
      modifies this`m_token, m_lex
      ensures Valid() && ok == (Sym(old(Pending())) == sym)
      ensures ok ==> Pending() == old(Pending())[1..]
    {
      ok := m_token.sym == sym;
      if ok { advance(); }
    }

    // ---------- strings and lists ----------

    method parseStringExpr() returns (ok: bool, expr: string)
      requires Valid()
      modifies this`m_token, m_lex
      ensures Valid() && Agrees(ok, expr, Pending(), ParseStringExpr(m_env, old(Pending()), m_path))
      decreases |Pending()|, 3
    {
      hide ParseString, ParseStringExpr, LexBase.Valid, LexBase.Rest, Tokens;
      StringExprIs(m_env, Pending(), m_path);
      ok, expr := parseString();
      while ok && m_token.sym == Plus
        invariant Valid() && (ok ==> |Pending()| < old(|Pending()|))
        invariant ok ==> ParseStringExpr(m_env, old(Pending()), m_path) == MoreStrings(m_env, expr, Pending(), m_path)
        invariant !ok ==> ParseStringExpr(m_env, old(Pending()), m_path) == Fail
        decreases ok, |Pending()|
      {
        NextTerm(m_env, expr, Pending(), m_path);
        advance();
        var expr2;
        ok, expr2 := parseString();
        expr := expr + expr2;
      }
    }

    method parseString() returns (ok: bool, str: string)
      requires Valid()
      modifies this`m_token, m_lex
      ensures Valid() && Agrees(ok, str, Pending(), ParseString(m_env, old(Pending()), m_path))
      decreases |Pending()|, 2
    {
      hide ParseCall, ParseJoin, ParseReplace, Value, LexBase.Valid, LexBase.Rest, Tokens, ConfigParser.Valid, ConfigParser.Pending;
      Look();
      var token := m_token;
      ok, str := false, "";
      match token.sym
      case Str =>
        str := token.spelling;
        advance();
        ok := true;
      case Ident =>
        match Value(m_env, m_path, token.spelling) {
          case Some(StringItem(s)) =>
            str := s;
            advance();
            ok := true;
          case _ =>
        }
      case NoArgFunc =>
        advance();
        ok, str := finishCall(token.spelling, []);
      case OneArgFunc =>
        advance();
        ok, str := parseCall(token.spelling, 1);
      case TwoArgFunc =>
        advance();
        ok, str := parseCall(token.spelling, 2);
      case Join =>
        advance();
        ok, str := parseJoin();
      case Replace =>
        advance();
        ok, str := parseReplace();
      case _ =>
    }

    /** The closing parenthesis of a function that asks the system, and its value. */
    method finishCall(f: string, args: seq<string>) returns (ok: bool, str: string)
      requires Valid()
      modifies this`m_token, m_lex
      ensures Valid() && Agrees(ok, str, Pending(), Accept(Called(m_env, f, Done(args, old(Pending())), m_path), CloseParen))
    {
      hide LexBase.Valid, LexBase.Rest, Tokens;
      str := "";
      ok := accept(CloseParen);
      if ok {
        match m_env.call(f, args, m_path) {
          case None => ok := false;
          case Some(s) => str := s;
        }
      }
    }

    /** parseEnv, parseExec and their like: one string expression, or one or two. */
    method parseCall(f: string, most: nat) returns (ok: bool, str: string)
      requires Valid()
      modifies this`m_token, m_lex
      ensures Valid() && Agrees(ok, str, Pending(), ParseCall(m_env, f, old(Pending()), m_path, most))
      decreases |Pending()|, 5
    {
      hide ParseStringExpr, LexBase.Valid, LexBase.Rest, Tokens, ConfigParser.Valid, ConfigParser.Pending;
      str := "";
      var s, t;
      ok, s := parseStringExpr();
      if !ok { return; }
      Look();
      if most >= 2 && m_token.sym == Comma {
        advance();
        ok, t := parseStringExpr();
        if !ok { return; }
        ok, str := finishCall(f, [s, t]);
      } else {
        ok, str := finishCall(f, [s]);
      }
    }

    /** A string expression and the token that must follow it. */
    method parseStringThen(sym: Symbol) returns (ok: bool, str: string)
      requires Valid() && sym != Eof
      modifies this`m_token, m_lex
      ensures Valid() && Agrees(ok, str, Pending(), ParseStringThen(m_env, old(Pending()), m_path, sym))
      decreases |Pending()|, 4
    {
      hide ParseStringExpr, LexBase.Valid, LexBase.Rest, Tokens;
      ok, str := parseStringExpr();
      if ok { ok := accept(sym); }
    }

    method parseJoin() returns (ok: bool, str: string)
      requires Valid()
      modifies this`m_token, m_lex
      ensures Valid() && Agrees(ok, str, Pending(), ParseJoin(m_env, old(Pending()), m_path))
      decreases |Pending()|, 5
    {
      hide ParseStringThen, ParseListExpr, LexBase.Valid, LexBase.Rest, Tokens, ConfigParser.Valid, ConfigParser.Pending;
      str := "";
      var list, separator;
      ok, list := parseListExpr();
      if ok { ok := accept(Comma); }
      if !ok { return; }
      ok, separator := parseStringThen(CloseParen);
      if ok { str := StringFunctions.Join(list, separator); }
    }

    /** parseReplace. For an empty text to search for the source does not return. */
    method parseReplace() returns (ok: bool, str: string)
      requires Valid()
      modifies this`m_token, m_lex
      ensures Valid() && Agrees(ok, str, Pending(), ParseReplace(m_env, old(Pending()), m_path))
      decreases |Pending()|, 5
    {
      hide ParseStringThen, LexBase.Valid, LexBase.Rest, Tokens, CText, StringFunctions.Replaced, ConfigParser.Valid, ConfigParser.Pending;
      str := "";
      var origStr, searchStr, replacementStr;
      ok, origStr := parseStringThen(Comma);
      if !ok { return; }
      ok, searchStr := parseStringThen(Comma);
      if !ok { return; }
      ok, replacementStr := parseStringThen(CloseParen);
      if ok && CText(searchStr) == "" { ok := false; }
      if ok { str := StringFunctions.Replace(CText(origStr), CText(searchStr), replacementStr); }
    }

    method parseListExpr() returns (ok: bool, expr: seq<string>)
      requires Valid()
      modifies this`m_token, m_lex
      ensures Valid() && Agrees(ok, expr, Pending(), ParseListExpr(m_env, old(Pending()), m_path))
      decreases |Pending()|, 3
    {
      hide ParseList, ParseListExpr, LexBase.Valid, LexBase.Rest, Tokens;
      ListExprIs(m_env, Pending(), m_path);
      ok, expr := parseList();
      while ok && m_token.sym == Plus
        invariant Valid() && (ok ==> |Pending()| < old(|Pending()|))
        invariant ok ==> ParseListExpr(m_env, old(Pending()), m_path) == MoreLists(m_env, expr, Pending(), m_path)
        invariant !ok ==> ParseListExpr(m_env, old(Pending()), m_path) == Fail
        decreases ok, |Pending()|
      {
        NextList(m_env, expr, Pending(), m_path);
        advance();
        var expr2;
        ok, expr2 := parseList();
        expr := expr + expr2;
      }
    }

    method parseList() returns (ok: bool, expr: seq<string>)
      requires Valid()
      modifies this`m_token, m_lex
      ensures Valid() && Agrees(ok, expr, Pending(), ParseList(m_env, old(Pending()), m_path))
      decreases |Pending()|, 2
    {
      hide ParseSplit, ParseStringExprList, Value, LexBase.Valid, LexBase.Rest, Tokens, ConfigParser.Valid, ConfigParser.Pending;
      Look();
      var token := m_token;
      ok, expr := false, [];
      match token.sym
      case Split =>
        advance();
        ok, expr := parseSplit();
      case OpenBracket =>
        advance();
        ok, expr := parseStringExprList();
        if ok { ok := accept(CloseBracket); }
      case Ident =>
        match Value(m_env, m_path, token.spelling) {
          case Some(ListItem(l)) =>
            expr := l;
            advance();
            ok := true;
          case _ =>
        }
      case _ =>
    }

    /** parseSplit. For an empty delimiter the source does not return. */
    method parseSplit() returns (ok: bool, list: seq<string>)
      requires Valid()
      modifies this`m_token, m_lex
      ensures Valid() && Agrees(ok, list, Pending(), ParseSplit(m_env, old(Pending()), m_path))
      decreases |Pending()|, 5
    {
      hide ParseStringThen, LexBase.Valid, LexBase.Rest, Tokens, CText, StringFunctions.Pieces;
      list := [];
      var str, delim;
      ok, str := parseStringThen(Comma);
      if !ok { return; }
      ok, delim := parseStringThen(CloseParen);
      if ok && CText(delim) == "" { ok := false; }
      if ok { list := StringFunctions.Split(CText(str), CText(delim)); }
    }

    method parseStringExprList() returns (ok: bool, list: seq<string>)
      requires Valid()
      modifies this`m_token, m_lex
      ensures Valid() && Agrees(ok, list, Pending(), ParseStringExprList(m_env, old(Pending()), m_path))
      decreases |Pending()|, 4
    {
      hide ParseStringExpr, ParseStringExprList, LexBase.Valid, LexBase.Rest, Tokens, ConfigParser.Valid, ConfigParser.Pending;
      StringExprListIs(m_env, Pending(), m_path);
      Look();
      list := [];
      if m_token.sym == CloseBracket { return true, list; }
      var str;
      ok, str := parseStringExpr();
      if !ok { return; }
      Look();
      list := [str];
      while m_token.sym == Comma
        invariant Valid() && |Pending()| < old(|Pending()|) && m_token.sym == Sym(Pending())
        invariant ParseStringExprList(m_env, old(Pending()), m_path) == MoreElements(m_env, list, Pending(), m_path)
        decreases |Pending()|
      {
        NextElement(m_env, list, Pending(), m_path);
        advance();
        Look();
        if m_token.sym == CloseBracket { return true, list; }
        ok, str := parseStringExpr();
        if !ok { return; }
        Look();
        list := list + [str];
      }
      ok := true;
    }

    // ---------- conditions ----------

    method parseCondition() returns (ok: bool, result: bool)
      requires Valid()
      modifies this`m_token, m_lex
      ensures Valid() && Agrees(ok, result, Pending(), ParseCondition(m_env, old(Pending()), m_path))
      decreases |Pending()|, 3
    {
      hide ParseAndCondition, ParseCondition, LexBase.Valid, LexBase.Rest, Tokens, ConfigParser.Valid, ConfigParser.Pending;
      ConditionIs(m_env, Pending(), m_path);
      ok, result := parseAndCondition();
      Look();
      while ok && m_token.sym == Or
        invariant Valid() && m_token.sym == Sym(Pending()) && (ok ==> |Pending()| < old(|Pending()|))
        invariant ok ==> ParseCondition(m_env, old(Pending()), m_path) == MoreOr(m_env, result, Pending(), m_path)
        invariant !ok ==> ParseCondition(m_env, old(Pending()), m_path) == Fail
        decreases ok, |Pending()|
      {
        ConditionIs(m_env, Pending()[1..], m_path);
        advance();
        var result2;
        ok, result2 := parseAndCondition();
        Look();
        result := result || result2;
      }
    }

    method parseAndCondition() returns (ok: bool, result: bool)
      requires Valid()
      modifies this`m_token, m_lex
      ensures Valid() && Agrees(ok, result, Pending(), ParseAndCondition(m_env, old(Pending()), m_path))
      decreases |Pending()|, 2
    {
      hide ParseTerminalCondition, ParseAndCondition, LexBase.Valid, LexBase.Rest, Tokens, ConfigParser.Valid, ConfigParser.Pending;
      AndConditionIs(m_env, Pending(), m_path);
      ok, result := parseTerminalCondition();
      Look();
      while ok && m_token.sym == And
        invariant Valid() && m_token.sym == Sym(Pending()) && (ok ==> |Pending()| < old(|Pending()|))
        invariant ok ==> ParseAndCondition(m_env, old(Pending()), m_path) == MoreAnd(m_env, result, Pending(), m_path)
        invariant !ok ==> ParseAndCondition(m_env, old(Pending()), m_path) == Fail
        decreases ok, |Pending()|
      {
        AndConditionIs(m_env, Pending()[1..], m_path);
        advance();
        var result2;
        ok, result2 := parseTerminalCondition();
        Look();
        result := result && result2;
      }
    }

    method parseTerminalCondition() returns (ok: bool, result: bool)
      requires Valid()
      modifies this`m_token, m_lex
      ensures Valid() && Agrees(ok, result, Pending(), ParseTerminalCondition(m_env, old(Pending()), m_path))
      decreases |Pending()|, 1
    {
      hide ParseStringExpr, ParseCondition, ParseComparison, LexBase.Valid, LexBase.Rest, Tokens, ConfigParser.Valid, ConfigParser.Pending;
      Look();
      if m_token.sym == Not {
        ok, result := parseNegation();
      } else if m_token.sym == OpenParen {
        advance();
        ok, result := parseCondition();
        if ok { ok := accept(CloseParen); }
      } else {
        ok, result := parseStringCondition();
      }
    }

    /** A negated condition, which is in parentheses. */
    method parseNegation() returns (ok: bool, result: bool)
      requires Valid() && Sym(Pending()) == Not
      modifies this`m_token, m_lex
      ensures Valid() && Agrees(ok, result, Pending(), ParseTerminalCondition(m_env, old(Pending()), m_path))
      decreases |Pending()|, 0
    {
      hide ParseStringExpr, ParseCondition, ParseComparison, LexBase.Valid, LexBase.Rest, Tokens, ConfigParser.Valid, ConfigParser.Pending;
      result := false;
      advance();
      ok := accept(OpenParen);
      if !ok { return; }
      ok, result := parseCondition();
      if ok { ok := accept(CloseParen); }
      result := !result;
    }

    /** The conditions about strings. */
    method parseStringCondition() returns (ok: bool, result: bool)
      requires Valid() && Sym(Pending()) != Not && Sym(Pending()) != OpenParen
      modifies this`m_token, m_lex
      ensures Valid() && Agrees(ok, result, Pending(), ParseTerminalCondition(m_env, old(Pending()), m_path))
    {
      hide ParseStringExpr, ParseCondition, ParseComparison, LexBase.Valid, LexBase.Rest, Tokens, ConfigParser.Valid, ConfigParser.Pending;
      Look();
      result := false;
      if m_token.sym == IsFileReadable {
        ok, result := parseReadable();
      } else {
        var str;
        ok, str := parseStringExpr();
        if ok { ok, result := parseComparison(str); }
      }
    }

    /** isFileReadable(...) */
    method parseReadable() returns (ok: bool, result: bool)
      requires Valid() && Sym(Pending()) == IsFileReadable
      modifies this`m_token, m_lex
      ensures Valid() && Agrees(ok, result, Pending(), ParseTerminalCondition(m_env, old(Pending()), m_path))
    {
      hide ParseStringExpr, ParseCondition, ParseComparison, LexBase.Valid, LexBase.Rest, Tokens, ConfigParser.Valid, ConfigParser.Pending;
      result := false;
      var str;
      advance();
      ok, str := parseStringThen(CloseParen);
      if ok { result := m_env.readable(str); }
    }

    method parseComparison(str1: string) returns (ok: bool, result: bool)
      requires Valid()
      modifies this`m_token, m_lex
      ensures Valid() && Agrees(ok, result, Pending(), ParseComparison(m_env, old(Pending()), m_path, str1))
    {
      hide ParseStringExpr, ParseListExpr, LexBase.Valid, LexBase.Rest, Tokens, CText;
      result := false;
      var list, str2;
      match m_token.sym
      case EqualsEquals =>
        advance();
        ok, str2 := parseStringExpr();
        result := str1 == str2;
      case NotEquals =>
        advance();
        ok, str2 := parseStringExpr();
        result := str1 != str2;
      case In =>
        advance();
        ok, list := parseListExpr();
        result := contains(list, str1);
      case Matches =>
        advance();
        ok, str2 := parseStringExpr();
        result := PatternMatch.patternMatch(str1, str2);
      case _ => ok := false;
    }

    method contains(list: seq<string>, str: string) returns (result: bool)
      ensures result <==> str in list
    {
      result := false;
      var i := 0;
      while i < |list| && !result
        invariant 0 <= i <= |list| && (result <==> str in list[..i])
      {
        result := str == list[i];
        i := i + 1;
      }
      assert !result ==> list[..i] == list;
    }

    // ---------- statements ----------

    method parseStmtList() returns (ok: bool)
      requires Valid()
      modifies this`m_token, this`m_path, m_lex
      ensures Valid() && Agrees(ok, m_path, Pending(), ParseStmtList(m_env, old(Pending()), old(m_path)))
      decreases |Pending()|, 9
    {
      hide ParseStmt, LexBase.Valid, LexBase.Rest, Tokens;
      ok := true;
      while ok && StartsStmt(m_token.sym)
        invariant Valid() && (ok ==> |Pending()| <= old(|Pending()|))
        invariant ok ==> ParseStmtList(m_env, old(Pending()), old(m_path)) == ParseStmtList(m_env, Pending(), m_path)
        invariant !ok ==> ParseStmtList(m_env, old(Pending()), old(m_path)) == Fail
        decreases ok, |Pending()|
      {
        ok := parseStmt();
      }
    }

    method parseStmt() returns (ok: bool)
      requires Valid()
      modifies this`m_token, this`m_path, m_lex
      ensures Valid() && Agrees(ok, m_path, Pending(), ParseStmt(m_env, old(Pending()), old(m_path)))
      decreases |Pending()|, 8
    {
      hide ParseIfStmt, ParseAssignment, ParseScope, ParseInclude, Removable, Removed, LexBase.Valid, LexBase.Rest, Tokens, ConfigParser.Valid, ConfigParser.Pending;
      Look();
      var token := m_token;
      ok := false;
      match token.sym
      case If =>
        advance();
        ok := parseIfStmt();
        if ok { optionalSemicolon(); }
      case Remove =>
        advance();
        ok := parseRemoveStmt();
      case Include =>
        if |m_path.at| == 0 { ok := parseIncludeStmt(); }
      case CopyFrom =>
        ok := parseIncludeStmt();
      case Ident =>
        ok := parseIdentStmt();
      case _ =>
    }

    /** A statement that begins with a name: an assignment or a scope. */
    method parseIdentStmt() returns (ok: bool)
      requires Valid() && Sym(Pending()) == Ident
      modifies this`m_token, this`m_path, m_lex
      ensures Valid() && Agrees(ok, m_path, Pending(), ParseStmt(m_env, old(Pending()), old(m_path)))
      decreases |Pending()|, 7
    {
      hide ParseIfStmt, ParseAssignment, ParseScope, ParseInclude, Removable, Removed, LexBase.Valid, LexBase.Rest, Tokens;
      hide ConfigParser.Valid, ConfigParser.Pending;
      Look();
      var name := m_token.spelling;
      if StartsWithDot(name) { return false; }
      advance();
      Look();
      if m_token.sym == Equals || m_token.sym == QuestionEquals {
        var always := m_token.sym == Equals;
        advance();
        ok := parseRhsAssignStmt(name, always);
        if ok { ok := accept(Semicolon); }
      } else if m_token.sym == OpenBrace {
        advance();
        ok := parseScope(name);
        if ok { optionalSemicolon(); }
      } else {
        ok := false;
      }
    }

    method optionalSemicolon()
      requires Valid()
      modifies this`m_token, m_lex
      ensures Valid() && Pending() == if Sym(old(Pending())) == Semicolon then old(Pending())[1..] else old(Pending())
    {
      if m_token.sym == Semicolon { advance(); }
    }

    /** parseRemoveStmt, after the keyword. */
    method parseRemoveStmt() returns (ok: bool)
      requires Valid()
      modifies this`m_token, this`m_path, m_lex
      ensures Valid()
      ensures var ts := old(Pending());
              ok == (Sym(ts) == Ident && Removable(old(m_path), ts[0].spelling) && Sym(ts[1..]) == Semicolon)
              && (ok ==> m_path == Removed(old(m_path), ts[0].spelling) && Pending() == ts[2..])
    {
      hide Find, Without, SetCurrent, Current, LexBase.Valid, LexBase.Rest, Tokens;
      var name := m_token.spelling;
      ok := accept(Ident);
      if !ok || '.' in name || Find(Current(m_path), name).None? { return false; }
      m_path := SetCurrent(m_path, Without(Current(m_path), name));
      ok := accept(Semicolon);
    }

    /** parseIncludeStmt and parseCopyStmt. */
    method parseIncludeStmt() returns (ok: bool)
      requires Valid() && |Pending()| > 0
      modifies this`m_token, this`m_path, m_lex
      ensures Valid() && Agrees(ok, m_path, Pending(), ParseInclude(m_env, old(Pending()), old(m_path)))
    {
      hide ParseStringExpr, SetCurrent, LexBase.Valid, LexBase.Rest, Tokens, ConfigParser.Valid, ConfigParser.Pending;
      Look();
      var keyword := m_token.sym;
      advance();
      var source;
      ok, source := parseStringExpr();
      if !ok { return; }
      Look();
      var ifExists := m_token.sym == IfExists;
      if ifExists { advance(); }
      ok := takeEffect(keyword, source, ifExists);
    }

    /** What is included or copied, and the semicolon. */
    method takeEffect(keyword: Symbol, source: string, ifExists: bool) returns (ok: bool)
      requires Valid()
      modifies this`m_token, this`m_path, m_lex
      ensures Valid()
      ensures match m_env.effect(keyword, source, ifExists, old(m_path))
              case None => !ok
              case Some(es) => Agrees(ok, m_path, Pending(), Accept(Done(SetCurrent(old(m_path), es), old(Pending())), Semicolon))
    {
      hide SetCurrent, LexBase.Valid, LexBase.Rest, Tokens;
      match m_env.effect(keyword, source, ifExists, m_path)
      case None => ok := false;
      case Some(es) =>
        m_path := SetCurrent(m_path, es);
        ok := accept(Semicolon);
    }

    /** parseRhsAssignStmt: the type of the value is read off its first token. */
    method parseRhsAssignStmt(varName: string, always: bool) returns (ok: bool)
      requires Valid()
      modifies this`m_token, this`m_path, m_lex
      ensures Valid() && Agrees(ok, m_path, Pending(), ParseAssignment(m_env, old(Pending()), old(m_path), varName, always))
    {
      hide ParseStringExpr, ParseListExpr, Insert, Lookup, LexBase.Valid, LexBase.Rest, Tokens, ConfigParser.Valid, ConfigParser.Pending;
      Look();
      var doAssign := always || !IsVariable(Lookup(m_path, varName));
      var isList := listRhs();
      match isList
      case None => ok := false;
      case Some(false) =>
        var stringExpr;
        ok, stringExpr := parseStringExpr();
        if ok && doAssign { ok := insert(varName, StringItem(stringExpr)); }
      case Some(true) =>
        var listExpr;
        ok, listExpr := parseListExpr();
        if ok && doAssign { ok := insert(varName, ListItem(listExpr)); }
    }

    method listRhs() returns (r: Option<bool>)
      requires Valid()
      ensures r == IsListRhs(Pending(), m_path)
    {
      hide Lookup, LexBase.Valid, LexBase.Rest, Tokens;
      match m_token.sym
      case OpenBracket => r := Some(true);
      case Split => r := Some(true);
      case Str => r := Some(false);
      case NoArgFunc => r := Some(false);
      case OneArgFunc => r := Some(false);
      case TwoArgFunc => r := Some(false);
      case Join => r := Some(false);
      case Replace => r := Some(false);
      case Ident =>
        match Lookup(m_path, m_token.spelling) {
          case Some(StringItem(_)) => r := Some(false);
          case Some(ListItem(_)) => r := Some(true);
          case _ => r := None;
        }
      case _ => r := None;
    }

    /** insertString and insertList: below the current scope. */
    method insert(name: string, item: Item) returns (ok: bool)
      requires Valid()
      modifies this`m_path
      ensures Valid() && Pending() == old(Pending())
      ensures ok == Insert(Current(old(m_path)), Components(name), item).Some?
      ensures m_path == if ok then SetCurrent(old(m_path), Insert(Current(old(m_path)), Components(name), item).value) else old(m_path)
    {
      hide Insert, Current, Within, Components;
      var inserted := Insert(Current(m_path), Components(name), item);
      ok := inserted.Some?;
      if ok { m_path := SetCurrent(m_path, inserted.value); }
    }

    /** parseScope, after the opening brace: the named scope is the current one until its brace
        is closed. */
    method parseScope(name: string) returns (ok: bool)
      requires Valid()
      modifies this`m_token, this`m_path, m_lex
      ensures Valid() && Agrees(ok, m_path, Pending(), ParseScope(m_env, old(Pending()), old(m_path), name))
      decreases |Pending()|, 10
    {
      hide ParseStmtList, Entered, LexBase.Valid, LexBase.Rest, Tokens;
      var oldScope := m_path.at;
      var newScope := Entered(m_path, name);
      if newScope.None? { return false; }
      m_path := newScope.value;
      ok := parseStmtList();
      if ok { ok := accept(CloseBrace); }
      m_path := Path(m_path.root, oldScope);
    }

    method parseParenthesised() returns (ok: bool, condition: bool)
      requires Valid()
      modifies this`m_token, m_lex
      ensures Valid() && Agrees(ok, condition, Pending(), ParseParenthesised(m_env, old(Pending()), m_path))
    {
      hide ParseCondition, LexBase.Valid, LexBase.Rest, Tokens;
      condition := false;
      ok := accept(OpenParen);
      if !ok { return; }
      ok, condition := parseCondition();
      if ok { ok := accept(CloseParen); }
    }

    /** A block of an @if statement. */
    method parseBlock(run: bool) returns (ok: bool)
      requires Valid()
      modifies this`m_token, this`m_path, m_lex
      ensures Valid() && Agrees(ok, m_path, Pending(), ParseBlock(m_env, old(Pending()), old(m_path), run))
      decreases |Pending()|, 1
    {
      hide ParseStmtList, SkipToClosingBrace, LexBase.Valid, LexBase.Rest, Tokens;
      ok := accept(OpenBrace);
      if !ok { return; }
      if run {
        ok := parseStmtList();
        if ok { ok := accept(CloseBrace); }
      } else {
        ok := skipToClosingBrace();
      }
    }

    /** parseIfStmt, after the keyword and up to the optional semicolon. */
    method parseIfStmt() returns (ok: bool)
      requires Valid()
      modifies this`m_token, this`m_path, m_lex
      ensures Valid() && Agrees(ok, m_path, Pending(), ParseIfStmt(m_env, old(Pending()), old(m_path)))
      decreases |Pending()|, 5
    {
      hide ParseParenthesised, ParseBlock, ParseElses, LexBase.Valid, LexBase.Rest, Tokens;
      var condition;
      ok, condition := parseParenthesised();
      if !ok { return; }
      ok := parseBlock(condition);
      if !ok { return; }
      ok := parseElses(condition);
    }

    /** The loop over @elseIf clauses, and the @else clause. */
    method parseElses(condition0: bool) returns (ok: bool)
      requires Valid()
      modifies this`m_token, this`m_path, m_lex
      ensures Valid() && Agrees(ok, m_path, Pending(), ParseElses(m_env, old(Pending()), old(m_path), condition0))
      decreases |Pending()|, 4
    {
      hide ParseParenthesised, ParseBlock, ParseElses, LexBase.Valid, LexBase.Rest, Tokens;
      var condition := condition0;
      ok := true;
      while m_token.sym == ElseIf
        invariant Valid() && |Pending()| <= old(|Pending()|)
        invariant ParseElses(m_env, old(Pending()), old(m_path), condition0) == ParseElses(m_env, Pending(), m_path, condition)
        decreases |Pending()|
      {
        ElsesAre(m_env, Pending(), m_path, condition);
        advance();
        var condition2;
        ok, condition2 := parseParenthesised();
        if !ok { return; }
        ok := parseBlock(!condition && condition2);
        if !ok { return; }
        condition := condition || condition2;
      }
      ElsesAre(m_env, Pending(), m_path, condition);
      if m_token.sym == Else {
        advance();
        ok := parseBlock(!condition);
      }
    }

    /** skipToClosingBrace; it throws at the end of the input. */
    method skipToClosingBrace() returns (ok: bool)
      requires Valid()
      modifies this`m_token, m_lex
      ensures Valid() && Agrees(ok, (), Pending(), SkipToClosingBrace(old(Pending()), 1))
    {
      hide LexBase.Valid, LexBase.Rest, Tokens;
      var countOpenBraces := 1;
      while countOpenBraces > 0
        invariant Valid() && countOpenBraces >= 0
        invariant SkipToClosingBrace(old(Pending()), 1) == SkipToClosingBrace(Pending(), countOpenBraces)
        decreases |Pending()|, countOpenBraces
      {
        match m_token.sym {
          case OpenBrace => countOpenBraces := countOpenBraces + 1;
          case CloseBrace => countOpenBraces := countOpenBraces - 1;
          case Eof => return false;
          case _ =>
        }
        advance();
      }
      ok := true;
    }
  }

  lemma ElsesAre(env: Env, ts: seq<Token>, path: Path, condition: bool)
    ensures Sym(ts) != ElseIf && Sym(ts) != Else ==> ParseElses(env, ts, path, condition) == Done(path, ts)
    ensures Sym(ts) == Else ==> ParseElses(env, ts, path, condition) == ParseBlock(env, ts[1..], path, !condition)
    ensures Sym(ts) == ElseIf ==>
              var c := ParseParenthesised(env, ts[1..], path);
              if c.Fail? then ParseElses(env, ts, path, condition) == Fail
              else var b := ParseBlock(env, c.rest, path, !condition && c.value);
                   ParseElses(env, ts, path, condition)
                   == if b.Fail? then Fail else ParseElses(env, b.rest, b.value, condition || c.value)
  {
    hide ParseParenthesised, ParseBlock;
  }

  ghost function MoreOr(env: Env, acc: bool, ts: seq<Token>, path: Path): Parsed<bool>
  {
    if Sym(ts) != Or then Done(acc, ts)
    else match ParseCondition(env, ts[1..], path) case Fail => Fail case Done(b, rest) => Done(acc || b, rest)
  }

  lemma ConditionIs(env: Env, ts: seq<Token>, path: Path)
    ensures ParseCondition(env, ts, path)
         == match ParseAndCondition(env, ts, path) case Fail => Fail case Done(b, rest) => MoreOr(env, b, rest, path)
  {
    hide ParseAndCondition;
  }

  ghost function MoreAnd(env: Env, acc: bool, ts: seq<Token>, path: Path): Parsed<bool>
  {
    if Sym(ts) != And then Done(acc, ts)
    else match ParseAndCondition(env, ts[1..], path) case Fail => Fail case Done(b, rest) => Done(acc && b, rest)
  }

  lemma AndConditionIs(env: Env, ts: seq<Token>, path: Path)
    ensures ParseAndCondition(env, ts, path)
         == match ParseTerminalCondition(env, ts, path) case Fail => Fail case Done(b, rest) => MoreAnd(env, b, rest, path)
  {
    hide ParseTerminalCondition;
  }

  ghost function MoreElements(env: Env, acc: seq<string>, ts: seq<Token>, path: Path): Parsed<seq<string>>
  {
    if Sym(ts) != Comma then Done(acc, ts) else Appended(acc, ParseStringExprList(env, ts[1..], path))
  }

  lemma StringExprListIs(env: Env, ts: seq<Token>, path: Path)
    ensures ParseStringExprList(env, ts, path)
         == if Sym(ts) == CloseBracket then Done([], ts)
            else match ParseStringExpr(env, ts, path) case Fail => Fail case Done(s, rest) => MoreElements(env, [s], rest, path)
  {
    hide ParseStringExpr;
  }

  lemma NextElement(env: Env, acc: seq<string>, ts: seq<Token>, path: Path)
    requires Sym(ts) == Comma
    ensures MoreElements(env, acc, ts, path)
         == if Sym(ts[1..]) == CloseBracket then Done(acc, ts[1..])
            else match ParseStringExpr(env, ts[1..], path) case Fail => Fail case Done(s, rest) => MoreElements(env, acc + [s], rest, path)
  {
    hide ParseStringExpr, ParseStringExprList;
    StringExprListIs(env, ts[1..], path);
    if Sym(ts[1..]) == CloseBracket {
      assert acc + [] == acc;
    } else {
      var p := ParseStringExpr(env, ts[1..], path);
      if p.Done? && Sym(p.rest) == Comma { AppendedTwice(acc, [p.value], ParseStringExprList(env, p.rest[1..], path)); }
    }
  }

  lemma ListExprIs(env: Env, ts: seq<Token>, path: Path)
    ensures ParseListExpr(env, ts, path)
         == match ParseList(env, ts, path) case Fail => Fail case Done(l, rest) => MoreLists(env, l, rest, path)
  {}

  lemma StringExprIs(env: Env, ts: seq<Token>, path: Path)
    ensures ParseStringExpr(env, ts, path)
         == match ParseString(env, ts, path) case Fail => Fail case Done(s, rest) => MoreStrings(env, s, rest, path)
  {}

  /** Reading a whole input: the contents of the root scope afterwards, or an exception. */
  method parse(source: string, expand: Expand, env: Env, root: Entries) returns (ok: bool, contents: Entries)
    requires '\0' !in source
    ensures ParseAll(env, Tokens(expand, NoCr(source)), root) == if ok then Some(contents) else None
  {
    hide ParseStmtList, Tokens, NoCr;
    var lex := new LexBase(source, expand);
    var parser := new ConfigParser(lex, env, root);
    ok := parser.parseStmtList();
    contents := parser.m_path.root;
    if ok { ok := parser.m_token.sym == Eof; }
  }
}
