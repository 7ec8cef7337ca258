/** Skipping a block and parsing it consume the same tokens, so that an @if statement ends at the
    same place whichever of its branches runs. */
module ConfigSkipping {
  import opened Wrappers
  import opened ConfigPaths
  import opened ConfigSyntax

  /** Skipping, with any number of braces open, passes over what lies between ts and rest. */
  ghost predicate Neutral(ts: seq<Token>, rest: seq<Token>)
  {
    forall n: nat :: n > 0 ==> SkipToClosingBrace(ts, n) == SkipToClosingBrace(rest, n)
  }

  predicate Brace(t: Token) { t.sym == OpenBrace || t.sym == CloseBrace }

  lemma OneToken(ts: seq<Token>)
    requires |ts| > 0 && !Brace(ts[0])
    ensures Neutral(ts, ts[1..])
  {}

  lemma TwoTokens(ts: seq<Token>)
    requires |ts| > 1 && !Brace(ts[0]) && !Brace(ts[1])
    ensures Neutral(ts, ts[2..])
  {
    OneToken(ts);
    OneToken(ts[1..]);
    assert ts[1..][1..] == ts[2..];
  }

  /** Braces skipped separately. */
  lemma {:induction false} SkipInParts(ts: seq<Token>, k: nat, n: nat)
    requires SkipToClosingBrace(ts, k).Done?
    ensures SkipToClosingBrace(ts, k + n) == SkipToClosingBrace(SkipToClosingBrace(ts, k).rest, n)
    decreases |ts|
  {
    if k > 0 {
      var k' := if ts[0].sym == OpenBrace then k + 1 else if ts[0].sym == CloseBrace then k - 1 else k;
      SkipInParts(ts[1..], k', n);
    }
  }

  /** Statements between braces: what is open outside is not touched. */
  lemma BracesClose(ts: seq<Token>, rest: seq<Token>)
    requires |ts| > 0 && ts[0].sym == OpenBrace && Neutral(ts[1..], rest) && |rest| > 0 && rest[0].sym == CloseBrace
    ensures Neutral(ts, rest[1..])
  {
    forall n: nat | n > 0 ensures SkipToClosingBrace(ts, n) == SkipToClosingBrace(rest[1..], n) {
      assert SkipToClosingBrace(ts, n) == SkipToClosingBrace(ts[1..], n + 1) == SkipToClosingBrace(rest, n + 1);
    }
  }

  lemma Via(a: seq<Token>, b: seq<Token>, c: seq<Token>)
    requires Neutral(a, b) && Neutral(b, c)
    ensures Neutral(a, c)
  {}

  lemma Same(a: seq<Token>)
    ensures Neutral(a, a)
  {}

  /** One more token is accepted after what lies between ts and p.rest. */
  lemma AcceptNeutral<T>(ts: seq<Token>, p: Parsed<T>, sym: Symbol)
    requires p.Done? && Neutral(ts, p.rest) && sym != OpenBrace && sym != CloseBrace
    ensures Accept(p, sym).Done? ==> Neutral(ts, Accept(p, sym).rest)
  {
    hide Neutral;
    if Accept(p, sym).Done? {
      OneToken(p.rest);
      Via(ts, p.rest, p.rest[1..]);
    }
  }

  // ---------- expressions ----------

  lemma {:induction false} StringExprNeutral(env: Env, ts: seq<Token>, path: Path)
    requires ParseStringExpr(env, ts, path).Done?
    ensures Neutral(ts, ParseStringExpr(env, ts, path).rest)
    decreases |ts|, 3
  {
    hide Neutral, ParseString;
    StringNeutral(env, ts, path);
    var rest := ParseString(env, ts, path).rest;
    if Sym(rest) == Plus {
      OneToken(rest);
      StringExprNeutral(env, rest[1..], path);
      Via(rest, rest[1..], ParseStringExpr(env, rest[1..], path).rest);
      Via(ts, rest, ParseStringExpr(env, rest[1..], path).rest);
    }
  }

  /** A further string expression and the token that must follow it. */
  lemma {:induction false} StringThen(env: Env, ts: seq<Token>, rest: seq<Token>, path: Path, sym: Symbol)
    requires Neutral(ts, rest) && sym != OpenBrace && sym != CloseBrace
    requires ParseStringThen(env, rest, path, sym).Done?
    ensures Neutral(ts, ParseStringThen(env, rest, path, sym).rest)
    decreases |rest|, 4
  {
    hide Neutral, ParseStringExpr;
    StringExprNeutral(env, rest, path);
    AcceptNeutral(rest, ParseStringExpr(env, rest, path), sym);
    Via(ts, rest, ParseStringThen(env, rest, path, sym).rest);
  }

  lemma {:induction false} StringNeutral(env: Env, ts: seq<Token>, path: Path)
    requires ParseString(env, ts, path).Done?
    ensures Neutral(ts, ParseString(env, ts, path).rest)
    decreases |ts|, 2
  {
    hide Neutral, ParseCall, ParseJoin, ParseReplace, Value;
    OneToken(ts);
    match Sym(ts)
    case NoArgFunc =>
      AcceptNeutral(ts, Called(env, ts[0].spelling, Done([], ts[1..]), path), CloseParen);
    case OneArgFunc =>
      CallNeutral(env, ts[0].spelling, ts[1..], path, 1);
      Via(ts, ts[1..], ParseCall(env, ts[0].spelling, ts[1..], path, 1).rest);
    case TwoArgFunc =>
      CallNeutral(env, ts[0].spelling, ts[1..], path, 2);
      Via(ts, ts[1..], ParseCall(env, ts[0].spelling, ts[1..], path, 2).rest);
    case Join =>
      JoinNeutral(env, ts[1..], path);
      Via(ts, ts[1..], ParseJoin(env, ts[1..], path).rest);
    case Replace =>
      ReplaceNeutral(env, ts[1..], path);
      Via(ts, ts[1..], ParseReplace(env, ts[1..], path).rest);
    case _ =>
  }

  lemma {:induction false} JoinNeutral(env: Env, ts: seq<Token>, path: Path)
    requires ParseJoin(env, ts, path).Done?
    ensures Neutral(ts, ParseJoin(env, ts, path).rest)
    decreases |ts|, 5
  {
    hide Neutral, ParseListExpr, ParseStringThen;
    ListExprNeutral(env, ts, path);
    AcceptNeutral(ts, ParseListExpr(env, ts, path), Comma);
    StringThen(env, ts, Accept(ParseListExpr(env, ts, path), Comma).rest, path, CloseParen);
  }

  lemma {:induction false} ReplaceNeutral(env: Env, ts: seq<Token>, path: Path)
    requires ParseReplace(env, ts, path).Done?
    ensures Neutral(ts, ParseReplace(env, ts, path).rest)
    decreases |ts|, 5
  {
    hide Neutral, ParseStringThen;
    Same(ts);
    StringThen(env, ts, ts, path, Comma);
    var rest := ParseStringThen(env, ts, path, Comma).rest;
    StringThen(env, ts, rest, path, Comma);
    StringThen(env, ts, ParseStringThen(env, rest, path, Comma).rest, path, CloseParen);
  }

  lemma {:induction false} CallNeutral(env: Env, f: string, ts: seq<Token>, path: Path, most: nat)
    requires ParseCall(env, f, ts, path, most).Done?
    ensures Neutral(ts, ParseCall(env, f, ts, path, most).rest)
    decreases |ts|, 5
  {
    hide Neutral, ParseStringExpr;
    StringExprNeutral(env, ts, path);
    var rest := ParseStringExpr(env, ts, path).rest;
    if most >= 2 && Sym(rest) == Comma {
      OneToken(rest);
      Via(ts, rest, rest[1..]);
      StringExprNeutral(env, rest[1..], path);
      Via(ts, rest[1..], ParseStringExpr(env, rest[1..], path).rest);
    }
    AcceptNeutral(ts, Called(env, f, ParseArguments(env, ts, path, most), path), CloseParen);
  }

  lemma {:induction false} ListExprNeutral(env: Env, ts: seq<Token>, path: Path)
    requires ParseListExpr(env, ts, path).Done?
    ensures Neutral(ts, ParseListExpr(env, ts, path).rest)
    decreases |ts|, 3
  {
    hide Neutral, ParseList;
    ListNeutral(env, ts, path);
    var rest := ParseList(env, ts, path).rest;
    if Sym(rest) == Plus {
      OneToken(rest);
      ListExprNeutral(env, rest[1..], path);
      Via(rest, rest[1..], ParseListExpr(env, rest[1..], path).rest);
      Via(ts, rest, ParseListExpr(env, rest[1..], path).rest);
    }
  }

  lemma {:induction false} ListNeutral(env: Env, ts: seq<Token>, path: Path)
    requires ParseList(env, ts, path).Done?
    ensures Neutral(ts, ParseList(env, ts, path).rest)
    decreases |ts|, 2
  {
    hide Neutral, ParseStringThen, ParseStringExprList, Value;
    OneToken(ts);
    match Sym(ts)
    case Split =>
      StringThen(env, ts, ts[1..], path, Comma);
      StringThen(env, ts, ParseStringThen(env, ts[1..], path, Comma).rest, path, CloseParen);
    case OpenBracket =>
      StringExprListNeutral(env, ts[1..], path);
      var list := ParseStringExprList(env, ts[1..], path);
      Via(ts, ts[1..], list.rest);
      AcceptNeutral(ts, list, CloseBracket);
    case _ =>
  }

  lemma {:induction false} StringExprListNeutral(env: Env, ts: seq<Token>, path: Path)
    requires ParseStringExprList(env, ts, path).Done?
    ensures Neutral(ts, ParseStringExprList(env, ts, path).rest)
    decreases |ts|, 4
  {
    hide Neutral, ParseStringExpr;
    Same(ts);
    if Sym(ts) != CloseBracket {
      StringExprNeutral(env, ts, path);
      var rest := ParseStringExpr(env, ts, path).rest;
      if Sym(rest) == Comma {
        OneToken(rest);
        StringExprListNeutral(env, rest[1..], path);
        Via(ts, rest, rest[1..]);
        Via(ts, rest[1..], ParseStringExprList(env, rest[1..], path).rest);
      }
    }
  }

  // ---------- conditions ----------

  lemma {:induction false} ConditionNeutral(env: Env, ts: seq<Token>, path: Path)
    requires ParseCondition(env, ts, path).Done?
    ensures Neutral(ts, ParseCondition(env, ts, path).rest)
    decreases |ts|, 3
  {
    hide Neutral, ParseAndCondition;
    AndConditionNeutral(env, ts, path);
    var rest := ParseAndCondition(env, ts, path).rest;
    if Sym(rest) == Or {
      OneToken(rest);
      ConditionNeutral(env, rest[1..], path);
      Via(rest, rest[1..], ParseCondition(env, rest[1..], path).rest);
      Via(ts, rest, ParseCondition(env, rest[1..], path).rest);
    }
  }

  lemma {:induction false} AndConditionNeutral(env: Env, ts: seq<Token>, path: Path)
    requires ParseAndCondition(env, ts, path).Done?
    ensures Neutral(ts, ParseAndCondition(env, ts, path).rest)
    decreases |ts|, 2
  {
    hide Neutral, ParseTerminalCondition;
    TerminalConditionNeutral(env, ts, path);
    var rest := ParseTerminalCondition(env, ts, path).rest;
    if Sym(rest) == And {
      OneToken(rest);
      AndConditionNeutral(env, rest[1..], path);
      Via(rest, rest[1..], ParseAndCondition(env, rest[1..], path).rest);
      Via(ts, rest, ParseAndCondition(env, rest[1..], path).rest);
    }
  }

  lemma {:induction false} TerminalConditionNeutral(env: Env, ts: seq<Token>, path: Path)
    requires ParseTerminalCondition(env, ts, path).Done?
    ensures Neutral(ts, ParseTerminalCondition(env, ts, path).rest)
    decreases |ts|, 1
  {
    hide Neutral, ParseStringExpr, ParseCondition, ParseComparison;
    match Sym(ts)
    case Not =>
      TwoTokens(ts);
      ConditionNeutral(env, ts[2..], path);
      Via(ts, ts[2..], ParseCondition(env, ts[2..], path).rest);
      AcceptNeutral(ts, ParseCondition(env, ts[2..], path), CloseParen);
    case OpenParen =>
      OneToken(ts);
      ConditionNeutral(env, ts[1..], path);
      Via(ts, ts[1..], ParseCondition(env, ts[1..], path).rest);
      AcceptNeutral(ts, ParseCondition(env, ts[1..], path), CloseParen);
    case IsFileReadable =>
      OneToken(ts);
      StringThen(env, ts, ts[1..], path, CloseParen);
    case _ =>
      StringExprNeutral(env, ts, path);
      var s := ParseStringExpr(env, ts, path);
      ComparisonNeutral(env, s.rest, path, s.value);
      Via(ts, s.rest, ParseComparison(env, s.rest, path, s.value).rest);
  }

  lemma ComparisonNeutral(env: Env, ts: seq<Token>, path: Path, s: string)
    requires ParseComparison(env, ts, path, s).Done?
    ensures Neutral(ts, ParseComparison(env, ts, path, s).rest)
  {
    hide Neutral, ParseStringExpr, ParseListExpr;
    OneToken(ts);
    if Sym(ts) == In {
      ListExprNeutral(env, ts[1..], path);
      Via(ts, ts[1..], ParseListExpr(env, ts[1..], path).rest);
    } else {
      StringExprNeutral(env, ts[1..], path);
      Via(ts, ts[1..], ParseStringExpr(env, ts[1..], path).rest);
    }
  }

  // ---------- statements ----------

  lemma {:induction false} StmtListNeutral(env: Env, ts: seq<Token>, path: Path)
    requires ParseStmtList(env, ts, path).Done?
    ensures Neutral(ts, ParseStmtList(env, ts, path).rest)
    decreases |ts|, 9
  {
    hide Neutral, ParseStmt;
    Same(ts);
    if StartsStmt(Sym(ts)) {
      StmtNeutral(env, ts, path);
      var stmt := ParseStmt(env, ts, path);
      StmtListNeutral(env, stmt.rest, stmt.value);
      Via(ts, stmt.rest, ParseStmtList(env, stmt.rest, stmt.value).rest);
    }
  }

  lemma OptionalSemicolonNeutral<T>(ts: seq<Token>, p: Parsed<T>)
    requires p.Done? && Neutral(ts, p.rest)
    ensures Neutral(ts, OptionalSemicolon(p).rest)
  {
    hide Neutral;
    if Sym(p.rest) == Semicolon {
      OneToken(p.rest);
      Via(ts, p.rest, p.rest[1..]);
    }
  }

  lemma {:induction false} StmtNeutral(env: Env, ts: seq<Token>, path: Path)
    requires ParseStmt(env, ts, path).Done?
    ensures Neutral(ts, ParseStmt(env, ts, path).rest)
    decreases |ts|, 8
  {
    hide Neutral, ParseIfStmt, ParseInclude, ParseAssignment, ParseScope, Removable, Removed, StartsWithDot;
    match Sym(ts)
    case If =>
      OneToken(ts);
      IfStmtNeutral(env, ts[1..], path);
      Via(ts, ts[1..], ParseIfStmt(env, ts[1..], path).rest);
      OptionalSemicolonNeutral(ts, ParseIfStmt(env, ts[1..], path));
    case Remove =>
      TwoTokens(ts);
      AcceptNeutral(ts, Done(Removed(path, ts[1].spelling), ts[2..]), Semicolon);
    case Include =>
      IncludeNeutral(env, ts, path);
    case CopyFrom =>
      IncludeNeutral(env, ts, path);
    case Ident =>
      if Sym(ts[1..]) == OpenBrace {
        ScopeNeutral(env, ts, path, ts[0].spelling);
        OptionalSemicolonNeutral(ts, ParseScope(env, ts[2..], path, ts[0].spelling));
      } else {
        TwoTokens(ts);
        var p := ParseAssignment(env, ts[2..], path, ts[0].spelling, Sym(ts[1..]) == Equals);
        AssignmentNeutral(env, ts[2..], path, ts[0].spelling, Sym(ts[1..]) == Equals);
        Via(ts, ts[2..], p.rest);
        AcceptNeutral(ts, p, Semicolon);
      }
  }

  lemma IncludeNeutral(env: Env, ts: seq<Token>, path: Path)
    requires |ts| > 0 && !Brace(ts[0]) && ParseInclude(env, ts, path).Done?
    ensures Neutral(ts, ParseInclude(env, ts, path).rest)
  {
    hide Neutral, ParseStringExpr;
    OneToken(ts);
    StringExprNeutral(env, ts[1..], path);
    var p := ParseStringExpr(env, ts[1..], path);
    Via(ts, ts[1..], p.rest);
    var ifExists := Sym(p.rest) == IfExists;
    if ifExists {
      OneToken(p.rest);
      Via(ts, p.rest, p.rest[1..]);
    }
    AcceptNeutral(ts, Done(SetCurrent(path, env.effect(ts[0].sym, p.value, ifExists, path).value), if ifExists then p.rest[1..] else p.rest), Semicolon);
  }

  lemma AssignmentNeutral(env: Env, ts: seq<Token>, path: Path, name: string, always: bool)
    requires ParseAssignment(env, ts, path, name, always).Done?
    ensures Neutral(ts, ParseAssignment(env, ts, path, name, always).rest)
  {
    hide Neutral, ParseStringExpr, ParseListExpr, Lookup, IsListRhs;
    if IsListRhs(ts, path) == Some(true) {
      ListExprNeutral(env, ts, path);
    } else {
      StringExprNeutral(env, ts, path);
    }
  }

  lemma {:induction false} ScopeNeutral(env: Env, ts: seq<Token>, path: Path, name: string)
    requires |ts| > 1 && !Brace(ts[0]) && ts[1].sym == OpenBrace && ParseScope(env, ts[2..], path, name).Done?
    ensures Neutral(ts, ParseScope(env, ts[2..], path, name).rest)
    decreases |ts|, 7
  {
    hide Neutral, ParseStmtList, Entered;
    var inner := Entered(path, name).value;
    StmtListNeutral(env, ts[2..], inner);
    var rest := ParseStmtList(env, ts[2..], inner).rest;
    assert ts[1..][1..] == ts[2..];
    BracesClose(ts[1..], rest);
    OneToken(ts);
    Via(ts, ts[1..], rest[1..]);
  }

  lemma {:induction false} BlockNeutral(env: Env, ts: seq<Token>, path: Path, run: bool)
    requires ParseBlock(env, ts, path, run).Done?
    ensures Neutral(ts, ParseBlock(env, ts, path, run).rest)
    decreases |ts|, 1
  {
    hide ParseStmtList;
    if run {
      StmtListNeutral(env, ts[1..], path);
      BracesClose(ts, ParseStmtList(env, ts[1..], path).rest);
    } else {
      forall n: nat | n > 0
        ensures SkipToClosingBrace(ts, n) == SkipToClosingBrace(SkipToClosingBrace(ts[1..], 1).rest, n)
      {
        SkipInParts(ts[1..], 1, n);
      }
    }
  }

  lemma ParenthesisedNeutral(env: Env, ts: seq<Token>, path: Path)
    requires ParseParenthesised(env, ts, path).Done?
    ensures Neutral(ts, ParseParenthesised(env, ts, path).rest)
  {
    hide Neutral, ParseCondition;
    OneToken(ts);
    ConditionNeutral(env, ts[1..], path);
    Via(ts, ts[1..], ParseCondition(env, ts[1..], path).rest);
    AcceptNeutral(ts, ParseCondition(env, ts[1..], path), CloseParen);
  }

  lemma {:induction false} IfStmtNeutral(env: Env, ts: seq<Token>, path: Path)
    requires ParseIfStmt(env, ts, path).Done?
    ensures Neutral(ts, ParseIfStmt(env, ts, path).rest)
    decreases |ts|, 5
  {
    hide Neutral, ParseParenthesised, ParseBlock, ParseElses;
    ParenthesisedNeutral(env, ts, path);
    var c := ParseParenthesised(env, ts, path);
    BlockNeutral(env, c.rest, path, c.value);
    var b := ParseBlock(env, c.rest, path, c.value);
    ElsesNeutral(env, b.rest, b.value, c.value);
    Via(ts, c.rest, b.rest);
    Via(ts, b.rest, ParseElses(env, b.rest, b.value, c.value).rest);
  }

  lemma {:induction false} ElsesNeutral(env: Env, ts: seq<Token>, path: Path, condition: bool)
    requires ParseElses(env, ts, path, condition).Done?
    ensures Neutral(ts, ParseElses(env, ts, path, condition).rest)
    decreases |ts|, 4
  {
    hide Neutral, ParseParenthesised, ParseBlock;
    Same(ts);
    if Sym(ts) == ElseIf {
      OneToken(ts);
      ParenthesisedNeutral(env, ts[1..], path);
      var c := ParseParenthesised(env, ts[1..], path);
      BlockNeutral(env, c.rest, path, !condition && c.value);
      var b := ParseBlock(env, c.rest, path, !condition && c.value);
      ElsesNeutral(env, b.rest, b.value, condition || c.value);
      var rest := ParseElses(env, b.rest, b.value, condition || c.value).rest;
      Via(ts, ts[1..], c.rest);
      Via(ts, c.rest, b.rest);
      Via(ts, b.rest, rest);
    } else if Sym(ts) == Else {
      OneToken(ts);
      BlockNeutral(env, ts[1..], path, !condition);
      Via(ts, ts[1..], ParseBlock(env, ts[1..], path, !condition).rest);
    }
  }

  // ---------- the theorems ----------

  /** A block that parses is skipped to the same place, after its closing brace. */
  lemma SkippingAgrees(env: Env, ts: seq<Token>, path: Path)
    requires Accept(ParseStmtList(env, ts, path), CloseBrace).Done?
    ensures SkipToClosingBrace(ts, 1) == Done((), Accept(ParseStmtList(env, ts, path), CloseBrace).rest)
  {
    hide ParseStmtList;
    StmtListNeutral(env, ts, path);
    var rest := ParseStmtList(env, ts, path).rest;
    assert SkipToClosingBrace(ts, 1) == SkipToClosingBrace(rest, 1) == SkipToClosingBrace(rest[1..], 0);
  }

  /** Executed or skipped, and whatever the configuration is, a block ends at the same place. */
  lemma BlocksEndAlike(env: Env, env': Env, ts: seq<Token>, path: Path, path': Path, run: bool, run': bool)
    requires ParseBlock(env, ts, path, run).Done? && ParseBlock(env', ts, path', run').Done?
    ensures ParseBlock(env, ts, path, run).rest == ParseBlock(env', ts, path', run').rest
  {
    hide ParseStmtList;
    if run { SkippingAgrees(env, ts[1..], path); }
    if run' { SkippingAgrees(env', ts[1..], path'); }
  }
}
