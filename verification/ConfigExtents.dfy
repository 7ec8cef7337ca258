/** How far a parse goes depends on the tokens only: two runs on the same tokens that both succeed
    end at the same place, whatever variables, branches and outside answers they saw. */
module ConfigExtents {
  import opened Wrappers
  import opened CStrings
  import opened ConfigPaths
  import opened ConfigSyntax
  import ConfigSkipping

  lemma {:induction false} StringExprEndsAlike(env: Env, env': Env, ts: seq<Token>, path: Path, path': Path)
    requires ParseStringExpr(env, ts, path).Done? && ParseStringExpr(env', ts, path').Done?
    ensures ParseStringExpr(env, ts, path).rest == ParseStringExpr(env', ts, path').rest
    decreases |ts|, 3
  {
    hide ParseString;
    StringEndsAlike(env, env', ts, path, path');
    var rest := ParseString(env, ts, path).rest;
    if Sym(rest) == Plus { StringExprEndsAlike(env, env', rest[1..], path, path'); }
  }

  lemma {:induction false} StringEndsAlike(env: Env, env': Env, ts: seq<Token>, path: Path, path': Path)
    requires ParseString(env, ts, path).Done? && ParseString(env', ts, path').Done?
    ensures ParseString(env, ts, path).rest == ParseString(env', ts, path').rest
    decreases |ts|, 2
  {
    hide ParseArguments, ParseJoin, ParseReplace, Value;
    match Sym(ts)
    case OneArgFunc => ArgumentsEndAlike(env, env', ts[1..], path, path', 1);
    case TwoArgFunc => ArgumentsEndAlike(env, env', ts[1..], path, path', 2);
    case Join => JoinEndsAlike(env, env', ts[1..], path, path');
    case Replace => ReplaceEndsAlike(env, env', ts[1..], path, path');
    case _ =>
  }

  lemma {:induction false} StringThenEndsAlike(env: Env, env': Env, ts: seq<Token>, path: Path, path': Path, sym: Symbol)
    requires ParseStringThen(env, ts, path, sym).Done? && ParseStringThen(env', ts, path', sym).Done?
    ensures ParseStringThen(env, ts, path, sym).rest == ParseStringThen(env', ts, path', sym).rest
    decreases |ts|, 4
  {
    hide ParseStringExpr;
    StringExprEndsAlike(env, env', ts, path, path');
  }

  lemma {:induction false} JoinEndsAlike(env: Env, env': Env, ts: seq<Token>, path: Path, path': Path)
    requires ParseJoin(env, ts, path).Done? && ParseJoin(env', ts, path').Done?
    ensures ParseJoin(env, ts, path).rest == ParseJoin(env', ts, path').rest
    decreases |ts|, 5
  {
    hide ParseStringThen, ParseListExpr;
    ListExprEndsAlike(env, env', ts, path, path');
    StringThenEndsAlike(env, env', Accept(ParseListExpr(env, ts, path), Comma).rest, path, path', CloseParen);
  }

  lemma {:induction false} ReplaceEndsAlike(env: Env, env': Env, ts: seq<Token>, path: Path, path': Path)
    requires ParseReplace(env, ts, path).Done? && ParseReplace(env', ts, path').Done?
    ensures ParseReplace(env, ts, path).rest == ParseReplace(env', ts, path').rest
    decreases |ts|, 5
  {
    hide ParseStringThen, CText;
    StringThenEndsAlike(env, env', ts, path, path', Comma);
    var rest := ParseStringThen(env, ts, path, Comma).rest;
    StringThenEndsAlike(env, env', rest, path, path', Comma);
    StringThenEndsAlike(env, env', ParseStringThen(env, rest, path, Comma).rest, path, path', CloseParen);
  }

  lemma {:induction false} ArgumentsEndAlike(env: Env, env': Env, ts: seq<Token>, path: Path, path': Path, most: nat)
    requires ParseArguments(env, ts, path, most).Done? && ParseArguments(env', ts, path', most).Done?
    ensures ParseArguments(env, ts, path, most).rest == ParseArguments(env', ts, path', most).rest
    decreases |ts|, 4
  {
    hide ParseStringExpr;
    StringExprEndsAlike(env, env', ts, path, path');
    var rest := ParseStringExpr(env, ts, path).rest;
    if most >= 2 && Sym(rest) == Comma { StringExprEndsAlike(env, env', rest[1..], path, path'); }
  }

  lemma {:induction false} ListExprEndsAlike(env: Env, env': Env, ts: seq<Token>, path: Path, path': Path)
    requires ParseListExpr(env, ts, path).Done? && ParseListExpr(env', ts, path').Done?
    ensures ParseListExpr(env, ts, path).rest == ParseListExpr(env', ts, path').rest
    decreases |ts|, 3
  {
    hide ParseList;
    ListEndsAlike(env, env', ts, path, path');
    var rest := ParseList(env, ts, path).rest;
    if Sym(rest) == Plus { ListExprEndsAlike(env, env', rest[1..], path, path'); }
  }

  lemma {:induction false} ListEndsAlike(env: Env, env': Env, ts: seq<Token>, path: Path, path': Path)
    requires ParseList(env, ts, path).Done? && ParseList(env', ts, path').Done?
    ensures ParseList(env, ts, path).rest == ParseList(env', ts, path').rest
    decreases |ts|, 2
  {
    hide ParseStringThen, ParseStringExprList, Value, CText;
    match Sym(ts)
    case Split =>
      StringThenEndsAlike(env, env', ts[1..], path, path', Comma);
      StringThenEndsAlike(env, env', ParseStringThen(env, ts[1..], path, Comma).rest, path, path', CloseParen);
    case OpenBracket =>
      StringExprListEndsAlike(env, env', ts[1..], path, path');
    case _ =>
  }

  lemma {:induction false} StringExprListEndsAlike(env: Env, env': Env, ts: seq<Token>, path: Path, path': Path)
    requires ParseStringExprList(env, ts, path).Done? && ParseStringExprList(env', ts, path').Done?
    ensures ParseStringExprList(env, ts, path).rest == ParseStringExprList(env', ts, path').rest
    decreases |ts|, 4
  {
    hide ParseStringExpr;
    if Sym(ts) != CloseBracket {
      StringExprEndsAlike(env, env', ts, path, path');
      var rest := ParseStringExpr(env, ts, path).rest;
      if Sym(rest) == Comma { StringExprListEndsAlike(env, env', rest[1..], path, path'); }
    }
  }

  /** Where both a string and a list can be read, they have the same tokens: names joined by '+'. */
  lemma {:induction false} EitherEndsAlike(env: Env, env': Env, ts: seq<Token>, path: Path, path': Path)
    requires ParseStringExpr(env, ts, path).Done? && ParseListExpr(env', ts, path').Done?
    ensures ParseStringExpr(env, ts, path).rest == ParseListExpr(env', ts, path').rest
    decreases |ts|
  {
    assert ParseString(env, ts, path).rest == ts[1..] == ParseList(env', ts, path').rest;
    hide ParseString, ParseList;
    if Sym(ts[1..]) == Plus { EitherEndsAlike(env, env', ts[1..][1..], path, path'); }
  }

  lemma {:induction false} ConditionEndsAlike(env: Env, env': Env, ts: seq<Token>, path: Path, path': Path)
    requires ParseCondition(env, ts, path).Done? && ParseCondition(env', ts, path').Done?
    ensures ParseCondition(env, ts, path).rest == ParseCondition(env', ts, path').rest
    decreases |ts|, 3
  {
    hide ParseAndCondition;
    AndConditionEndsAlike(env, env', ts, path, path');
    var rest := ParseAndCondition(env, ts, path).rest;
    if Sym(rest) == Or { ConditionEndsAlike(env, env', rest[1..], path, path'); }
  }

  lemma {:induction false} AndConditionEndsAlike(env: Env, env': Env, ts: seq<Token>, path: Path, path': Path)
    requires ParseAndCondition(env, ts, path).Done? && ParseAndCondition(env', ts, path').Done?
    ensures ParseAndCondition(env, ts, path).rest == ParseAndCondition(env', ts, path').rest
    decreases |ts|, 2
  {
    hide ParseTerminalCondition;
    TerminalConditionEndsAlike(env, env', ts, path, path');
    var rest := ParseTerminalCondition(env, ts, path).rest;
    if Sym(rest) == And { AndConditionEndsAlike(env, env', rest[1..], path, path'); }
  }

  lemma {:induction false} TerminalConditionEndsAlike(env: Env, env': Env, ts: seq<Token>, path: Path, path': Path)
    requires ParseTerminalCondition(env, ts, path).Done? && ParseTerminalCondition(env', ts, path').Done?
    ensures ParseTerminalCondition(env, ts, path).rest == ParseTerminalCondition(env', ts, path').rest
    decreases |ts|, 1
  {
    hide ParseStringExpr, ParseCondition, ParseComparison;
    match Sym(ts)
    case Not => ConditionEndsAlike(env, env', ts[2..], path, path');
    case OpenParen => ConditionEndsAlike(env, env', ts[1..], path, path');
    case IsFileReadable => StringExprEndsAlike(env, env', ts[1..], path, path');
    case _ =>
      StringExprEndsAlike(env, env', ts, path, path');
      var s, s' := ParseStringExpr(env, ts, path), ParseStringExpr(env', ts, path');
      ComparisonEndsAlike(env, env', s.rest, path, path', s.value, s'.value);
  }

  lemma ComparisonEndsAlike(env: Env, env': Env, ts: seq<Token>, path: Path, path': Path, s: string, s': string)
    requires ParseComparison(env, ts, path, s).Done? && ParseComparison(env', ts, path', s').Done?
    ensures ParseComparison(env, ts, path, s).rest == ParseComparison(env', ts, path', s').rest
  {
    hide ParseStringExpr, ParseListExpr;
    if Sym(ts) == In {
      ListExprEndsAlike(env, env', ts[1..], path, path');
    } else {
      StringExprEndsAlike(env, env', ts[1..], path, path');
    }
  }

  /** The whole language: statements end alike. */
  lemma {:induction false} StmtListEndsAlike(env: Env, env': Env, ts: seq<Token>, path: Path, path': Path)
    requires ParseStmtList(env, ts, path).Done? && ParseStmtList(env', ts, path').Done?
    ensures ParseStmtList(env, ts, path).rest == ParseStmtList(env', ts, path').rest
    decreases |ts|, 9
  {
    hide ParseStmt;
    if StartsStmt(Sym(ts)) {
      StmtEndsAlike(env, env', ts, path, path');
      var stmt, stmt' := ParseStmt(env, ts, path), ParseStmt(env', ts, path');
      StmtListEndsAlike(env, env', stmt.rest, stmt.value, stmt'.value);
    }
  }

  lemma {:induction false} StmtEndsAlike(env: Env, env': Env, ts: seq<Token>, path: Path, path': Path)
    requires ParseStmt(env, ts, path).Done? && ParseStmt(env', ts, path').Done?
    ensures ParseStmt(env, ts, path).rest == ParseStmt(env', ts, path').rest
    decreases |ts|, 8
  {
    hide ParseIfStmt, ParseAssignment, ParseScope, ParseStringExpr, Removable, Removed, StartsWithDot;
    match Sym(ts)
    case If => IfStmtEndsAlike(env, env', ts[1..], path, path');
    case Include => StringExprEndsAlike(env, env', ts[1..], path, path');
    case CopyFrom => StringExprEndsAlike(env, env', ts[1..], path, path');
    case Ident =>
      if Sym(ts[1..]) == OpenBrace {
        ScopeEndsAlike(env, env', ts[2..], path, path', ts[0].spelling);
      } else {
        AssignmentEndsAlike(env, env', ts[2..], path, path', ts[0].spelling, Sym(ts[1..]) == Equals);
      }
    case _ =>
  }

  lemma AssignmentEndsAlike(env: Env, env': Env, ts: seq<Token>, path: Path, path': Path, name: string, always: bool)
    requires ParseAssignment(env, ts, path, name, always).Done? && ParseAssignment(env', ts, path', name, always).Done?
    ensures ParseAssignment(env, ts, path, name, always).rest == ParseAssignment(env', ts, path', name, always).rest
  {
    hide ParseStringExpr, ParseListExpr, IsListRhs, Lookup, Insert;
    if ParseStringExpr(env, ts, path).Done? && ParseStringExpr(env', ts, path').Done? { StringExprEndsAlike(env, env', ts, path, path'); }
    if ParseListExpr(env, ts, path).Done? && ParseListExpr(env', ts, path').Done? { ListExprEndsAlike(env, env', ts, path, path'); }
    if ParseStringExpr(env, ts, path).Done? && ParseListExpr(env', ts, path').Done? { EitherEndsAlike(env, env', ts, path, path'); }
    if ParseListExpr(env, ts, path).Done? && ParseStringExpr(env', ts, path').Done? { EitherEndsAlike(env', env, ts, path', path); }
  }

  lemma {:induction false} ScopeEndsAlike(env: Env, env': Env, ts: seq<Token>, path: Path, path': Path, name: string)
    requires ParseScope(env, ts, path, name).Done? && ParseScope(env', ts, path', name).Done?
    ensures ParseScope(env, ts, path, name).rest == ParseScope(env', ts, path', name).rest
    decreases |ts|, 10
  {
    hide ParseStmtList, Entered;
    StmtListEndsAlike(env, env', ts, Entered(path, name).value, Entered(path', name).value);
  }

  lemma IfStmtEndsAlike(env: Env, env': Env, ts: seq<Token>, path: Path, path': Path)
    requires ParseIfStmt(env, ts, path).Done? && ParseIfStmt(env', ts, path').Done?
    ensures ParseIfStmt(env, ts, path).rest == ParseIfStmt(env', ts, path').rest
  {
    hide ParseCondition, ParseBlock, ParseElses;
    ConditionEndsAlike(env, env', ts[1..], path, path');
    var c, c' := ParseParenthesised(env, ts, path), ParseParenthesised(env', ts, path');
    ConfigSkipping.BlocksEndAlike(env, env', c.rest, path, path', c.value, c'.value);
    var b, b' := ParseBlock(env, c.rest, path, c.value), ParseBlock(env', c.rest, path', c'.value);
    ElsesEndAlike(env, env', b.rest, b.value, b'.value, c.value, c'.value);
  }

  lemma {:induction false} ElsesEndAlike(env: Env, env': Env, ts: seq<Token>, path: Path, path': Path, condition: bool, condition': bool)
    requires ParseElses(env, ts, path, condition).Done? && ParseElses(env', ts, path', condition').Done?
    ensures ParseElses(env, ts, path, condition).rest == ParseElses(env', ts, path', condition').rest
    decreases |ts|
  {
    hide ParseCondition, ParseBlock;
    if Sym(ts) == ElseIf {
      ConditionEndsAlike(env, env', ts[1..][1..], path, path');
      var c, c' := ParseParenthesised(env, ts[1..], path), ParseParenthesised(env', ts[1..], path');
      var run, run' := !condition && c.value, !condition' && c'.value;
      ConfigSkipping.BlocksEndAlike(env, env', c.rest, path, path', run, run');
      var b, b' := ParseBlock(env, c.rest, path, run), ParseBlock(env', c.rest, path', run');
      ElsesEndAlike(env, env', b.rest, b.value, b'.value, condition || c.value, condition' || c'.value);
    } else if Sym(ts) == Else {
      ConfigSkipping.BlocksEndAlike(env, env', ts[1..], path, path', !condition, !condition');
    }
  }

  // ---------- one branch ----------

  /** Once a branch has run, the remaining clauses change nothing. */
  lemma {:induction false} LaterBranchesDoNothing(env: Env, ts: seq<Token>, path: Path)
    requires ParseElses(env, ts, path, true).Done?
    ensures ParseElses(env, ts, path, true).value == path
    decreases |ts|
  {
    hide ParseParenthesised;
    if Sym(ts) == ElseIf {
      var c := ParseParenthesised(env, ts[1..], path);
      var b := ParseBlock(env, c.rest, path, false);
      LaterBranchesDoNothing(env, b.rest, path);
    }
  }

  /** The block that is to run, of the clauses from an opening parenthesis on: that of the first
      condition that holds before the statement, else that of @else, if there is one. */
  ghost function FirstTrueBlock(env: Env, ts: seq<Token>, path: Path): Option<seq<Token>>
    decreases |ts|, 1
  {
    match ParseParenthesised(env, ts, path)
    case Fail => None
    case Done(condition, rest) =>
      if condition then Some(rest)
      else match ParseBlock(env, rest, path, false)
           case Fail => None
           case Done(_, rest') => LaterTrueBlock(env, rest', path)
  }

  ghost function LaterTrueBlock(env: Env, ts: seq<Token>, path: Path): Option<seq<Token>>
    decreases |ts|, 0
  {
    if Sym(ts) == ElseIf then FirstTrueBlock(env, ts[1..], path)
    else if Sym(ts) == Else then Some(ts[1..])
    else None
  }

  /** What running that block alone would leave. */
  ghost predicate RunsAlone(env: Env, block: Option<seq<Token>>, path: Path, path': Path)
  {
    match block
    case None => path' == path
    case Some(ts) => ParseBlock(env, ts, path, true).Done? && ParseBlock(env, ts, path, true).value == path'
  }

  /** An @if statement with any number of clauses has the effect of its first true block alone, run
      from where the statement begins, and none if no condition holds and there is no @else. */
  lemma OnlyFirstTrueBlockRuns(env: Env, ts: seq<Token>, path: Path)
    requires ParseIfStmt(env, ts, path).Done?
    ensures RunsAlone(env, FirstTrueBlock(env, ts, path), path, ParseIfStmt(env, ts, path).value)
  {
    hide ParseParenthesised, ParseBlock, ParseElses;
    var c := ParseParenthesised(env, ts, path);
    var b := ParseBlock(env, c.rest, path, c.value);
    if c.value {
      LaterBranchesDoNothing(env, b.rest, b.value);
    } else {
      SkippedKeeps(env, c.rest, path);
      LaterBranchAlone(env, b.rest, path);
    }
  }

  lemma SkippedKeeps(env: Env, ts: seq<Token>, path: Path)
    ensures ParseBlock(env, ts, path, false).Done? ==> ParseBlock(env, ts, path, false).value == path
  {}

  /** The same for the clauses after those whose conditions do not hold. */
  lemma {:induction false} LaterBranchAlone(env: Env, ts: seq<Token>, path: Path)
    requires ParseElses(env, ts, path, false).Done?
    ensures RunsAlone(env, LaterTrueBlock(env, ts, path), path, ParseElses(env, ts, path, false).value)
    decreases |ts|
  {
    hide ParseParenthesised, ParseBlock;
    if Sym(ts) == ElseIf {
      var c := ParseParenthesised(env, ts[1..], path);
      var b := ParseBlock(env, c.rest, path, c.value);
      if c.value {
        LaterBranchesDoNothing(env, b.rest, b.value);
      } else {
        SkippedKeeps(env, c.rest, path);
        LaterBranchAlone(env, b.rest, path);
      }
    }
  }
}
