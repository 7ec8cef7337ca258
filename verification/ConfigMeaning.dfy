/** The interpreter does what programs mean: parsing the tokens of a program gives what its tree
    stands for, and fails exactly where the tree stands for nothing. */
module ConfigMeaning {
  import opened Wrappers
  import opened CStrings
  import opened ConfigPaths
  import opened ConfigSyntax
  import opened ConfigText
  import opened ConfigPrograms
  import PatternMatch
  import StringFunctions

  /** What the parser gives for something that stands for o, in front of rest. */
  function After<T>(o: Option<T>, rest: seq<Token>): Parsed<T>
  {
    match o case None => Fail case Some(x) => Done(x, rest)
  }

  /** A token and those behind it. */
  lemma Head(token: Token, ts: seq<Token>)
    ensures ([token] + ts)[0] == token && ([token] + ts)[1..] == ts && Sym([token] + ts) == token.sym
  {}

  // ---------- first tokens ----------

  predicate StartsTerm(sym: Symbol)
  {
    sym == Str || sym == Ident || sym == OpenBracket || sym == Join || sym == Replace || sym == Split
    || sym == NoArgFunc || sym == OneArgFunc || sym == TwoArgFunc
  }

  lemma SumStarts(e: Sum, rest: seq<Token>)
    requires FormedSum(e)
    ensures |SumTokens(e, rest)| > 0 && StartsTerm(Sym(SumTokens(e, rest)))
  {}

  // ---------- strings and lists ----------

  lemma {:induction false} StringParsed(env: Env, path: Path, e: Sum, rest: seq<Token>)
    requires FormedSum(e) && Sym(rest) != Plus
    ensures ParseStringExpr(env, SumTokens(e, rest), path) == After(StringOf(env, path, e), rest)
    decreases e, 2
  {
    hide FormedTerm, TermTokens, StringTerm, ParseString;
    if e.Just? {
      TermString(env, path, e.term, rest);
    } else {
      var more := SumTokens(e.more, rest);
      assert ([Token(Plus, "+")] + more)[1..] == more;
      TermString(env, path, e.term, [Token(Plus, "+")] + more);
      StringParsed(env, path, e.more, rest);
    }
  }

  /** A string expression and the token behind it. */
  lemma {:induction false} StringThen(env: Env, path: Path, e: Sum, token: Token, rest: seq<Token>)
    requires FormedSum(e) && token.sym != Plus && token.sym != Eof
    ensures ParseStringThen(env, SumTokens(e, [token] + rest), path, token.sym) == After(StringOf(env, path, e), rest)
    ensures Accept(ParseStringExpr(env, SumTokens(e, [token] + rest), path), token.sym) == After(StringOf(env, path, e), rest)
    decreases e, 3
  {
    hide FormedSum, SumTokens, StringOf, ParseStringExpr;
    StringParsed(env, path, e, [token] + rest);
    assert ([token] + rest)[1..] == rest;
  }

  lemma {:induction false} TermString(env: Env, path: Path, t: Term, rest: seq<Token>)
    requires FormedTerm(t)
    ensures ParseString(env, TermTokens(t, rest), path) == After(StringTerm(env, path, t), rest)
    decreases t, 1
  {
    hide FormedSum, SumTokens, ArgumentTokens, StringOf, ListOf, StringsOf, ParseStringThen, ParseListExpr, ParseJoin, ParseReplace, ParseCall, Value;
    match t
    case Literal(s) => assert ([Token(Str, s)] + rest)[1..] == rest;
    case Variable(name) => assert ([Token(Ident, name)] + rest)[1..] == rest;
    case Elements(es, _) =>
    case SplitCall(_, _) =>
    case JoinCall(_, _) => JoinParsed(env, path, t, rest);
    case ReplaceCall(_, _, _) => ReplaceParsed(env, path, t, rest);
    case SystemCall(_, _) => CallParsed(env, path, t, rest);
  }

  lemma {:induction false} JoinParsed(env: Env, path: Path, t: Term, rest: seq<Token>)
    requires FormedTerm(t) && t.JoinCall?
    ensures ParseString(env, TermTokens(t, rest), path) == After(StringTerm(env, path, t), rest)
    decreases t, 0
  {
    hide FormedTerm, FormedSum, TermTokens, SumTokens, StringTerm, StringOf, ListOf, ParseString, ParseStringThen, ParseListExpr;
    var more := SumTokens(t.separator, [Token(CloseParen, ")")] + rest);
    JoinUnfolds(env, path, t, rest);
    ListParsed(env, path, t.list, [Token(Comma, ",")] + more);
    StringThen(env, path, t.separator, Token(CloseParen, ")"), rest);
    JoinIs(env, path, SumTokens(t.list, [Token(Comma, ",")] + more), ListOf(env, path, t.list), more, StringOf(env, path, t.separator), rest);
  }

  lemma JoinUnfolds(env: Env, path: Path, t: Term, rest: seq<Token>)
    requires t.JoinCall?
    ensures FormedTerm(t) <==> FormedSum(t.list) && FormedSum(t.separator)
    ensures TermTokens(t, rest) ==
            [Token(Join, "join(")] + SumTokens(t.list, [Token(Comma, ",")] + SumTokens(t.separator, [Token(CloseParen, ")")] + rest))
    ensures StringTerm(env, path, t) == match (ListOf(env, path, t.list), StringOf(env, path, t.separator))
                                        case (Some(l), Some(s)) => Some(StringFunctions.Joined(l, s))
                                        case _ => None
  {
    hide FormedSum, SumTokens, StringOf, ListOf;
  }

  lemma JoinIs(env: Env, path: Path, ts: seq<Token>, list: Option<seq<string>>, more: seq<Token>, separator: Option<string>, rest: seq<Token>)
    requires ParseListExpr(env, ts, path) == After(list, [Token(Comma, ",")] + more)
    requires ParseStringThen(env, more, path, CloseParen) == After(separator, rest)
    ensures ParseString(env, [Token(Join, "join(")] + ts, path)
         == if list.Some? && separator.Some? then Done(StringFunctions.Joined(list.value, separator.value), rest) else Fail
  {
    hide ParseStringThen, ParseListExpr;
    Head(Token(Join, "join("), ts);
    Head(Token(Comma, ","), more);
  }

  lemma {:induction false} ReplaceParsed(env: Env, path: Path, t: Term, rest: seq<Token>)
    requires FormedTerm(t) && t.ReplaceCall?
    ensures ParseString(env, TermTokens(t, rest), path) == After(StringTerm(env, path, t), rest)
    decreases t, 0
  {
    hide FormedTerm, FormedSum, TermTokens, SumTokens, StringTerm, StringOf, ParseString, ParseStringThen, CText, StringFunctions.Replaced;
    var last := SumTokens(t.replacement, [Token(CloseParen, ")")] + rest);
    var more := SumTokens(t.search, [Token(Comma, ",")] + last);
    ReplaceUnfolds(env, path, t, rest);
    StringThen(env, path, t.text, Token(Comma, ","), more);
    StringThen(env, path, t.search, Token(Comma, ","), last);
    StringThen(env, path, t.replacement, Token(CloseParen, ")"), rest);
    ReplaceIs(env, path, SumTokens(t.text, [Token(Comma, ",")] + more), StringOf(env, path, t.text), more, StringOf(env, path, t.search), last,
              StringOf(env, path, t.replacement), rest);
  }

  lemma ReplaceUnfolds(env: Env, path: Path, t: Term, rest: seq<Token>)
    requires t.ReplaceCall?
    ensures FormedTerm(t) <==> FormedSum(t.text) && FormedSum(t.search) && FormedSum(t.replacement)
    ensures TermTokens(t, rest) ==
            [Token(Replace, "replace(")] +
            SumTokens(t.text, [Token(Comma, ",")] + SumTokens(t.search, [Token(Comma, ",")] +
                                                                        SumTokens(t.replacement, [Token(CloseParen, ")")] + rest)))
    ensures StringTerm(env, path, t) ==
            match (StringOf(env, path, t.text), StringOf(env, path, t.search), StringOf(env, path, t.replacement))
            case (Some(s), Some(x), Some(y)) => if CText(x) == "" then None else Some(StringFunctions.Replaced(CText(s), CText(x), y))
            case _ => None
  {
    hide FormedSum, SumTokens, StringOf, CText, StringFunctions.Replaced;
  }

  lemma ReplaceIs(env: Env, path: Path, ts: seq<Token>, s: Option<string>, more: seq<Token>, x: Option<string>, last: seq<Token>,
                  y: Option<string>, rest: seq<Token>)
    requires ParseStringThen(env, ts, path, Comma) == After(s, more) && ParseStringThen(env, more, path, Comma) == After(x, last)
    requires ParseStringThen(env, last, path, CloseParen) == After(y, rest)
    ensures ParseString(env, [Token(Replace, "replace(")] + ts, path)
         == if s.Some? && x.Some? && y.Some? && CText(x.value) != ""
            then Done(StringFunctions.Replaced(CText(s.value), CText(x.value), y.value), rest) else Fail
  {
    hide ParseStringThen, CText, StringFunctions.Replaced;
    Head(Token(Replace, "replace("), ts);
  }

  lemma {:induction false} CallParsed(env: Env, path: Path, t: Term, rest: seq<Token>)
    requires FormedTerm(t) && t.SystemCall?
    ensures ParseString(env, TermTokens(t, rest), path) == After(StringTerm(env, path, t), rest)
    decreases t, 0
  {
    hide FormedSum, SumTokens, StringOf, StringsOf, ArgumentTokens, ParseArguments, CallSymbol, Takes;
    TakenArguments(t.callee, |t.arguments|);
    var f, a, close := t.callee, t.arguments, [Token(CloseParen, ")")] + rest;
    var ts := ArgumentTokens(a, close);
    assert ([Token(CallSymbol(f), f)] + ts)[1..] == ts && close[1..] == rest;
    if |a| == 0 {
      NoArguments(env, path, close);
    } else {
      ArgumentsParsed(env, path, a, if CallSymbol(f) == OneArgFunc then 1 else 2, close);
    }
  }

  lemma TakenArguments(f: string, n: nat)
    requires Takes(f, n)
    ensures match CallSymbol(f) case NoArgFunc => n == 0 case OneArgFunc => n == 1 case TwoArgFunc => 1 <= n <= 2 case _ => false
  {
    assert n <= 2;
  }

  lemma NoArguments(env: Env, path: Path, rest: seq<Token>)
    ensures ArgumentTokens([], rest) == rest && StringsOf(env, path, []) == Some([])
  {}

  lemma {:induction false} ArgumentsParsed(env: Env, path: Path, a: seq<Sum>, most: nat, rest: seq<Token>)
    requires (forall i :: 0 <= i < |a| ==> FormedSum(a[i])) && 1 <= |a| <= most <= 2 && Sym(rest) == CloseParen
    ensures ParseArguments(env, ArgumentTokens(a, rest), path, most) == After(StringsOf(env, path, a), rest)
    decreases a, 4
  {
    hide FormedSum, SumTokens, StringOf, ParseStringExpr;
    hide StringsOf, ArgumentTokens;
    if |a| == 1 {
      OneArgument(env, path, a, rest);
      StringParsed(env, path, a[0], rest);
    } else {
      var more := SumTokens(a[1], rest);
      TwoArguments(env, path, a, rest);
      assert ([Token(Comma, ",")] + more)[1..] == more;
      StringParsed(env, path, a[0], [Token(Comma, ",")] + more);
      StringParsed(env, path, a[1], rest);
    }
  }

  lemma OneArgument(env: Env, path: Path, a: seq<Sum>, rest: seq<Token>)
    requires |a| == 1
    ensures ArgumentTokens(a, rest) == SumTokens(a[0], rest)
    ensures StringsOf(env, path, a) == match StringOf(env, path, a[0]) case None => None case Some(s) => Some([s])
  {
    hide SumTokens, StringOf;
    assert a[1..] == [];
    if StringOf(env, path, a[0]).Some? { assert [StringOf(env, path, a[0]).value] + [] == [StringOf(env, path, a[0]).value]; }
  }

  lemma TwoArguments(env: Env, path: Path, a: seq<Sum>, rest: seq<Token>)
    requires |a| == 2
    ensures ArgumentTokens(a, rest) == SumTokens(a[0], [Token(Comma, ",")] + SumTokens(a[1], rest))
    ensures StringsOf(env, path, a) == match (StringOf(env, path, a[0]), StringOf(env, path, a[1]))
                                       case (Some(s), Some(t)) => Some([s, t])
                                       case _ => None
  {
    hide SumTokens, StringOf;
    OneArgument(env, path, a[1..], rest);
    if StringOf(env, path, a[0]).Some? && StringOf(env, path, a[1]).Some? {
      var s, t := StringOf(env, path, a[0]).value, StringOf(env, path, a[1]).value;
      assert [s] + [t] == [s, t];
    }
  }

  lemma {:induction false} ListParsed(env: Env, path: Path, e: Sum, rest: seq<Token>)
    requires FormedSum(e) && Sym(rest) != Plus
    ensures ParseListExpr(env, SumTokens(e, rest), path) == After(ListOf(env, path, e), rest)
    decreases e, 2
  {
    hide FormedTerm, TermTokens, ListTerm, ParseList;
    if e.Just? {
      TermList(env, path, e.term, rest);
    } else {
      var more := SumTokens(e.more, rest);
      assert ([Token(Plus, "+")] + more)[1..] == more;
      TermList(env, path, e.term, [Token(Plus, "+")] + more);
      ListParsed(env, path, e.more, rest);
    }
  }

  lemma {:induction false} TermList(env: Env, path: Path, t: Term, rest: seq<Token>)
    requires FormedTerm(t)
    ensures ParseList(env, TermTokens(t, rest), path) == After(ListTerm(env, path, t), rest)
    decreases t, 1
  {
    hide FormedSum, SumTokens, ArgumentTokens, StringOf, StringsOf, ParseStringThen, ParseStringExprList, ParseSplit, Value;
    match t
    case Variable(name) => Head(Token(Ident, name), rest);
    case Elements(_, _) => ElementsList(env, path, t, rest);
    case SplitCall(_, _) => SplitList(env, path, t, rest);
    case _ =>
  }

  lemma InBrackets(env: Env, path: Path, ts: seq<Token>)
    ensures ParseList(env, [Token(OpenBracket, "[")] + ts, path) == Accept(ParseStringExprList(env, ts, path), CloseBracket)
  {
    hide ParseStringExprList, Accept;
    Head(Token(OpenBracket, "["), ts);
  }

  lemma {:induction false} ElementsList(env: Env, path: Path, t: Term, rest: seq<Token>)
    requires FormedTerm(t) && t.Elements?
    ensures ParseList(env, TermTokens(t, rest), path) == After(ListTerm(env, path, t), rest)
    decreases t, 0
  {
    hide FormedSum, ArgumentTokens, StringsOf, ParseList, ParseStringExprList;
    var bracket := [Token(CloseBracket, "]")] + rest;
    var close := if t.comma && |t.elements| > 0 then [Token(Comma, ",")] + bracket else bracket;
    InBrackets(env, path, ArgumentTokens(t.elements, close));
    Head(Token(Comma, ","), bracket);
    Head(Token(CloseBracket, "]"), rest);
    ElementsParsed(env, path, t.elements, close);
  }

  lemma {:induction false} SplitList(env: Env, path: Path, t: Term, rest: seq<Token>)
    requires FormedTerm(t) && t.SplitCall?
    ensures ParseList(env, TermTokens(t, rest), path) == After(ListTerm(env, path, t), rest)
    decreases t, 0
  {
    hide FormedTerm, FormedSum, TermTokens, SumTokens, ListTerm, StringOf, ParseList, ParseStringThen, CText, StringFunctions.Pieces;
    var more := SumTokens(t.delim, [Token(CloseParen, ")")] + rest);
    SplitUnfolds(env, path, t, rest);
    StringThen(env, path, t.text, Token(Comma, ","), more);
    StringThen(env, path, t.delim, Token(CloseParen, ")"), rest);
    SplitIs(env, path, SumTokens(t.text, [Token(Comma, ",")] + more), StringOf(env, path, t.text), more, StringOf(env, path, t.delim), rest);
  }

  lemma SplitUnfolds(env: Env, path: Path, t: Term, rest: seq<Token>)
    requires t.SplitCall?
    ensures FormedTerm(t) <==> FormedSum(t.text) && FormedSum(t.delim)
    ensures TermTokens(t, rest) ==
            [Token(Split, "split(")] + SumTokens(t.text, [Token(Comma, ",")] + SumTokens(t.delim, [Token(CloseParen, ")")] + rest))
    ensures ListTerm(env, path, t) ==
            match (StringOf(env, path, t.text), StringOf(env, path, t.delim))
            case (Some(s), Some(d)) => if CText(d) == "" then None else Some(StringFunctions.Pieces(CText(s), CText(d)))
            case _ => None
  {
    hide FormedSum, SumTokens, StringOf, CText, StringFunctions.Pieces;
  }

  lemma SplitIs(env: Env, path: Path, ts: seq<Token>, s: Option<string>, more: seq<Token>, d: Option<string>, rest: seq<Token>)
    requires ParseStringThen(env, ts, path, Comma) == After(s, more) && ParseStringThen(env, more, path, CloseParen) == After(d, rest)
    ensures ParseList(env, [Token(Split, "split(")] + ts, path)
         == if s.Some? && d.Some? && CText(d.value) != "" then Done(StringFunctions.Pieces(CText(s.value), CText(d.value)), rest) else Fail
  {
    hide ParseStringThen, CText, StringFunctions.Pieces;
    Head(Token(Split, "split("), ts);
  }

  /** A comma behind the last element is passed over. */
  lemma {:induction false} ElementsParsed(env: Env, path: Path, es: seq<Sum>, rest: seq<Token>)
    requires forall i :: 0 <= i < |es| ==> FormedSum(es[i])
    requires Sym(rest) == CloseBracket || (|es| > 0 && Sym(rest) == Comma && Sym(rest[1..]) == CloseBracket)
    ensures ParseStringExprList(env, ArgumentTokens(es, rest), path)
         == After(StringsOf(env, path, es), if Sym(rest) == Comma then rest[1..] else rest)
    decreases es, 4
  {
    hide FormedSum, SumTokens, StringOf, StringsOf, ArgumentTokens, ParseStringExpr, ParseStringExprList;
    if |es| == 0 {
      NoArguments(env, path, rest);
      ListEnds(env, path, rest);
    } else if |es| == 1 {
      SumStarts(es[0], rest);
      StringParsed(env, path, es[0], rest);
      OneArgument(env, path, es, rest);
      LastElement(env, path, SumTokens(es[0], rest), StringOf(env, path, es[0]), rest);
    } else {
      var more := ArgumentTokens(es[1..], rest);
      SumStarts(es[0], [Token(Comma, ",")] + more);
      StringParsed(env, path, es[0], [Token(Comma, ",")] + more);
      ElementsParsed(env, path, es[1..], rest);
      MoreArguments(env, path, es, rest);
      NextElement(env, path, SumTokens(es[0], [Token(Comma, ",")] + more), StringOf(env, path, es[0]), more);
    }
  }

  lemma MoreArguments(env: Env, path: Path, es: seq<Sum>, rest: seq<Token>)
    requires |es| > 1
    ensures ArgumentTokens(es, rest) == SumTokens(es[0], [Token(Comma, ",")] + ArgumentTokens(es[1..], rest))
    ensures StringsOf(env, path, es) == match (StringOf(env, path, es[0]), StringsOf(env, path, es[1..]))
                                        case (Some(s), Some(l)) => Some([s] + l)
                                        case _ => None
  {
    hide SumTokens, StringOf;
  }

  lemma ListEnds(env: Env, path: Path, ts: seq<Token>)
    requires Sym(ts) == CloseBracket
    ensures ParseStringExprList(env, ts, path) == Done([], ts)
  {}

  lemma LastElement(env: Env, path: Path, ts: seq<Token>, s: Option<string>, rest: seq<Token>)
    requires Sym(ts) != CloseBracket && ParseStringExpr(env, ts, path) == After(s, rest)
    requires Sym(rest) == CloseBracket || (Sym(rest) == Comma && Sym(rest[1..]) == CloseBracket)
    ensures ParseStringExprList(env, ts, path)
         == if s.Some? then Done([s.value], if Sym(rest) == Comma then rest[1..] else rest) else Fail
  {
    hide ParseStringExpr;
    if Sym(rest) == Comma && s.Some? {
      ListEnds(env, path, rest[1..]);
      assert [s.value] + [] == [s.value];
    }
  }

  lemma NextElement(env: Env, path: Path, ts: seq<Token>, s: Option<string>, more: seq<Token>)
    requires Sym(ts) != CloseBracket && ParseStringExpr(env, ts, path) == After(s, [Token(Comma, ",")] + more)
    ensures ParseStringExprList(env, ts, path)
         == if s.None? then Fail
            else match ParseStringExprList(env, more, path) case Fail => Fail case Done(l, rest) => Done([s.value] + l, rest)
  {
    hide ParseStringExpr;
    Head(Token(Comma, ","), more);
  }

  // ---------- conditions ----------

  lemma {:induction false} ConditionParsed(env: Env, path: Path, c: Condition, rest: seq<Token>)
    requires FormedCondition(c) && Sym(rest) != Plus && Sym(rest) != And && Sym(rest) != Or
    ensures ParseCondition(env, ConditionTokens(c, 0, rest), path) == After(Truth(env, path, c), rest)
    decreases c, 3
  {
    hide FormedCondition, BareTokens, Truth, ParseAndCondition;
    if c.Either? { EitherParsed(env, path, c, rest); } else { ConjunctionParsed(env, path, c, rest); }
  }

  /** At level 1. */
  lemma {:induction false} ConjunctionParsed(env: Env, path: Path, c: Condition, rest: seq<Token>)
    requires FormedCondition(c) && Sym(rest) != Plus && Sym(rest) != And
    ensures ParseAndCondition(env, ConditionTokens(c, 1, rest), path) == After(Truth(env, path, c), rest)
    decreases c, 2
  {
    hide FormedCondition, BareTokens, Truth, ParseTerminalCondition;
    if c.Both? { BothParsed(env, path, c, rest); } else { OperandParsed(env, path, c, rest); }
  }

  /** At level 2. */
  lemma {:induction false} OperandParsed(env: Env, path: Path, c: Condition, rest: seq<Token>)
    requires FormedCondition(c) && Sym(rest) != Plus
    ensures ParseTerminalCondition(env, ConditionTokens(c, 2, rest), path) == After(Truth(env, path, c), rest)
    decreases c, 1
  {
    hide FormedCondition, BareTokens, Truth, ParseTerminalCondition, ParseAndCondition;
    match c
    case Compare(_, _, _) => CompareParsed(env, path, c, rest);
    case Member(_, _) => MemberParsed(env, path, c, rest);
    case Readable(_) => ReadableParsed(env, path, c, rest);
    case Negation(_) => EnclosedParsed(env, path, c, rest);
    case Grouped(_) => EnclosedParsed(env, path, c, rest);
    case Both(_, _) =>
      BothParsed(env, path, c, [Token(CloseParen, ")")] + rest);
      InParentheses(env, path, BareTokens(c, [Token(CloseParen, ")")] + rest), Truth(env, path, c), rest);
    case Either(_, _) =>
      EitherParsed(env, path, c, [Token(CloseParen, ")")] + rest);
      InParentheses(env, path, BareTokens(c, [Token(CloseParen, ")")] + rest), Truth(env, path, c), rest);
  }

  lemma InParentheses(env: Env, path: Path, ts: seq<Token>, truth: Option<bool>, rest: seq<Token>)
    requires ParseCondition(env, ts, path) == After(truth, [Token(CloseParen, ")")] + rest)
    ensures ParseTerminalCondition(env, [Token(OpenParen, "(")] + ts, path) == After(truth, rest)
    ensures ParseTerminalCondition(env, [Token(Not, "!"), Token(OpenParen, "(")] + ts, path)
         == After(match truth case None => None case Some(b) => Some(!b), rest)
  {
    hide ParseCondition;
    Head(Token(OpenParen, "("), ts);
    Head(Token(Not, "!"), [Token(OpenParen, "(")] + ts);
    Head(Token(CloseParen, ")"), rest);
    var negated := [Token(Not, "!"), Token(OpenParen, "(")] + ts;
    assert negated == [Token(Not, "!")] + ([Token(OpenParen, "(")] + ts) && negated[2..] == ts;
  }

  lemma {:induction false} EitherParsed(env: Env, path: Path, c: Condition, rest: seq<Token>)
    requires FormedCondition(c) && c.Either? && Sym(rest) != Plus && Sym(rest) != And && Sym(rest) != Or
    ensures ParseCondition(env, BareTokens(c, rest), path) == After(Truth(env, path, c), rest)
    decreases c, 0
  {
    hide ConditionTokens, ParseAndCondition;
    var more := ConditionTokens(c.second, 0, rest);
    ConjunctionParsed(env, path, c.first, [Token(Or, "||")] + more);
    ConditionParsed(env, path, c.second, rest);
    Head(Token(Or, "||"), more);
  }

  lemma {:induction false} BothParsed(env: Env, path: Path, c: Condition, rest: seq<Token>)
    requires FormedCondition(c) && c.Both? && Sym(rest) != Plus && Sym(rest) != And
    ensures ParseAndCondition(env, BareTokens(c, rest), path) == After(Truth(env, path, c), rest)
    ensures Sym(rest) != Or ==> ParseCondition(env, BareTokens(c, rest), path) == After(Truth(env, path, c), rest)
    decreases c, 0
  {
    hide ConditionTokens, ParseTerminalCondition;
    var more := ConditionTokens(c.second, 1, rest);
    OperandParsed(env, path, c.first, [Token(And, "&&")] + more);
    ConjunctionParsed(env, path, c.second, rest);
    Head(Token(And, "&&"), more);
  }

  lemma StringFirst(env: Env, path: Path, ts: seq<Token>, s: Option<string>, rest: seq<Token>)
    requires StartsTerm(Sym(ts)) && ParseStringExpr(env, ts, path) == After(s, rest)
    ensures ParseTerminalCondition(env, ts, path) == if s.Some? then ParseComparison(env, rest, path, s.value) else Fail
  {
    hide ParseStringExpr, ParseComparison;
  }

  lemma {:induction false} CompareParsed(env: Env, path: Path, c: Condition, rest: seq<Token>)
    requires FormedCondition(c) && c.Compare? && Sym(rest) != Plus
    ensures ParseTerminalCondition(env, BareTokens(c, rest), path) == After(Truth(env, path, c), rest)
  {
    hide FormedSum, SumTokens, StringOf, ParseStringExpr, ParseTerminalCondition, PatternMatch.Matches, CText;
    var more := SumTokens(c.right, rest);
    SumStarts(c.left, [ComparisonToken(c.comparison)] + more);
    StringParsed(env, path, c.left, [ComparisonToken(c.comparison)] + more);
    StringParsed(env, path, c.right, rest);
    Head(ComparisonToken(c.comparison), more);
    StringFirst(env, path, BareTokens(c, rest), StringOf(env, path, c.left), [ComparisonToken(c.comparison)] + more);
  }

  lemma {:induction false} MemberParsed(env: Env, path: Path, c: Condition, rest: seq<Token>)
    requires FormedCondition(c) && c.Member? && Sym(rest) != Plus
    ensures ParseTerminalCondition(env, BareTokens(c, rest), path) == After(Truth(env, path, c), rest)
  {
    hide FormedSum, SumTokens, StringOf, ListOf, ParseStringExpr, ParseListExpr, ParseTerminalCondition;
    var more := SumTokens(c.list, rest);
    SumStarts(c.element, [Token(In, "@in")] + more);
    StringParsed(env, path, c.element, [Token(In, "@in")] + more);
    ListParsed(env, path, c.list, rest);
    Head(Token(In, "@in"), more);
    StringFirst(env, path, BareTokens(c, rest), StringOf(env, path, c.element), [Token(In, "@in")] + more);
  }

  lemma {:induction false} ReadableParsed(env: Env, path: Path, c: Condition, rest: seq<Token>)
    requires FormedCondition(c) && c.Readable?
    ensures ParseTerminalCondition(env, BareTokens(c, rest), path) == After(Truth(env, path, c), rest)
  {
    hide FormedSum, SumTokens, StringOf, ParseStringExpr;
    var close := [Token(CloseParen, ")")] + rest;
    Head(Token(IsFileReadable, "isFileReadable("), SumTokens(c.file, close));
    StringThen(env, path, c.file, Token(CloseParen, ")"), rest);
  }

  lemma {:induction false} EnclosedParsed(env: Env, path: Path, c: Condition, rest: seq<Token>)
    requires FormedCondition(c) && (c.Negation? || c.Grouped?)
    ensures ParseTerminalCondition(env, BareTokens(c, rest), path) == After(Truth(env, path, c), rest)
    decreases c, 0
  {
    hide ConditionTokens, ParseCondition, ParseTerminalCondition;
    ConditionParsed(env, path, c.operand, [Token(CloseParen, ")")] + rest);
    InParentheses(env, path, ConditionTokens(c.operand, 0, [Token(CloseParen, ")")] + rest), Truth(env, path, c.operand), rest);
  }

  // ---------- skipping ----------

  // What is written between n open braces closes as many as it opens.

  lemma TokenSkipped(token: Token, ts: seq<Token>, n: nat)
    requires token.sym != OpenBrace && token.sym != CloseBrace && n > 0
    ensures SkipToClosingBrace([token] + ts, n) == SkipToClosingBrace(ts, n)
  {
    Head(token, ts);
  }

  lemma {:induction false} SumSkipped(e: Sum, rest: seq<Token>, n: nat)
    requires FormedSum(e) && n > 0
    ensures SkipToClosingBrace(SumTokens(e, rest), n) == SkipToClosingBrace(rest, n)
    decreases e, 1
  {
    hide SkipToClosingBrace, FormedTerm, TermTokens;
    if e.Just? {
      TermSkipped(e.term, rest, n);
    } else {
      var more := SumTokens(e.more, rest);
      TermSkipped(e.term, [Token(Plus, "+")] + more, n);
      TokenSkipped(Token(Plus, "+"), more, n);
      SumSkipped(e.more, rest, n);
    }
  }

  /** An expression and the token behind it. */
  lemma {:induction false} SumTokenSkipped(e: Sum, token: Token, rest: seq<Token>, n: nat)
    requires FormedSum(e) && n > 0 && token.sym != OpenBrace && token.sym != CloseBrace
    ensures SkipToClosingBrace(SumTokens(e, [token] + rest), n) == SkipToClosingBrace(rest, n)
    decreases e, 2
  {
    hide SkipToClosingBrace, FormedSum, SumTokens;
    SumSkipped(e, [token] + rest, n);
    TokenSkipped(token, rest, n);
  }

  lemma {:induction false} TermSkipped(t: Term, rest: seq<Token>, n: nat)
    requires FormedTerm(t) && n > 0
    ensures SkipToClosingBrace(TermTokens(t, rest), n) == SkipToClosingBrace(rest, n)
    decreases t, 0
  {
    hide SkipToClosingBrace, FormedSum, SumTokens, ArgumentTokens, CallSymbol;
    var close := [Token(CloseParen, ")")] + rest;
    match t
    case Literal(s) => TokenSkipped(Token(Str, s), rest, n);
    case Variable(name) => TokenSkipped(Token(Ident, name), rest, n);
    case Elements(es, comma) =>
      var bracket := [Token(CloseBracket, "]")] + rest;
      var close := if comma && |es| > 0 then [Token(Comma, ",")] + bracket else bracket;
      TokenSkipped(Token(OpenBracket, "["), ArgumentTokens(es, close), n);
      ArgumentsSkipped(es, close, n);
      TokenSkipped(Token(Comma, ","), bracket, n);
      TokenSkipped(Token(CloseBracket, "]"), rest, n);
    case JoinCall(list, separator) =>
      var more := SumTokens(separator, close);
      TokenSkipped(Token(Join, "join("), SumTokens(list, [Token(Comma, ",")] + more), n);
      SumTokenSkipped(list, Token(Comma, ","), more, n);
      SumTokenSkipped(separator, Token(CloseParen, ")"), rest, n);
    case ReplaceCall(text, search, replacement) =>
      var last := SumTokens(replacement, close);
      var more := SumTokens(search, [Token(Comma, ",")] + last);
      TokenSkipped(Token(Replace, "replace("), SumTokens(text, [Token(Comma, ",")] + more), n);
      SumTokenSkipped(text, Token(Comma, ","), more, n);
      SumTokenSkipped(search, Token(Comma, ","), last, n);
      SumTokenSkipped(replacement, Token(CloseParen, ")"), rest, n);
    case SplitCall(text, delim) =>
      var more := SumTokens(delim, close);
      TokenSkipped(Token(Split, "split("), SumTokens(text, [Token(Comma, ",")] + more), n);
      SumTokenSkipped(text, Token(Comma, ","), more, n);
      SumTokenSkipped(delim, Token(CloseParen, ")"), rest, n);
    case SystemCall(f, a) =>
      TokenSkipped(Token(CallSymbol(f), f), ArgumentTokens(a, close), n);
      ArgumentsSkipped(a, close, n);
      TokenSkipped(Token(CloseParen, ")"), rest, n);
  }

  lemma {:induction false} ArgumentsSkipped(es: seq<Sum>, rest: seq<Token>, n: nat)
    requires (forall i :: 0 <= i < |es| ==> FormedSum(es[i])) && n > 0
    ensures SkipToClosingBrace(ArgumentTokens(es, rest), n) == SkipToClosingBrace(rest, n)
    decreases es, 3
  {
    hide SkipToClosingBrace, FormedSum, SumTokens;
    if |es| == 1 {
      SumSkipped(es[0], rest, n);
    } else if |es| > 1 {
      SumTokenSkipped(es[0], Token(Comma, ","), ArgumentTokens(es[1..], rest), n);
      ArgumentsSkipped(es[1..], rest, n);
    }
  }

  lemma {:induction false} ConditionSkipped(c: Condition, level: nat, rest: seq<Token>, n: nat)
    requires FormedCondition(c) && n > 0
    ensures SkipToClosingBrace(ConditionTokens(c, level, rest), n) == SkipToClosingBrace(rest, n)
    decreases c, 1
  {
    hide SkipToClosingBrace, FormedCondition, BareTokens;
    var close := [Token(CloseParen, ")")] + rest;
    TokenSkipped(Token(OpenParen, "("), BareTokens(c, close), n);
    TokenSkipped(Token(CloseParen, ")"), rest, n);
    BareSkipped(c, close, n);
    BareSkipped(c, rest, n);
  }

  lemma {:induction false} BareSkipped(c: Condition, rest: seq<Token>, n: nat)
    requires FormedCondition(c) && n > 0
    ensures SkipToClosingBrace(BareTokens(c, rest), n) == SkipToClosingBrace(rest, n)
    decreases c, 0
  {
    hide SkipToClosingBrace, FormedSum, SumTokens, ConditionTokens;
    var close := [Token(CloseParen, ")")] + rest;
    TokenSkipped(Token(CloseParen, ")"), rest, n);
    match c
    case Compare(l, op, r) =>
      SumTokenSkipped(l, ComparisonToken(op), SumTokens(r, rest), n);
      SumSkipped(r, rest, n);
    case Member(e, l) =>
      SumTokenSkipped(e, Token(In, "@in"), SumTokens(l, rest), n);
      SumSkipped(l, rest, n);
    case Readable(f) =>
      TokenSkipped(Token(IsFileReadable, "isFileReadable("), SumTokens(f, close), n);
      SumSkipped(f, close, n);
    case Grouped(d) =>
      TokenSkipped(Token(OpenParen, "("), ConditionTokens(d, 0, close), n);
      ConditionSkipped(d, 0, close, n);
    case Negation(d) =>
      var ts := ConditionTokens(d, 0, close);
      assert [Token(Not, "!"), Token(OpenParen, "(")] + ts == [Token(Not, "!")] + ([Token(OpenParen, "(")] + ts);
      TokenSkipped(Token(Not, "!"), [Token(OpenParen, "(")] + ts, n);
      TokenSkipped(Token(OpenParen, "("), ts, n);
      ConditionSkipped(d, 0, close, n);
    case Both(d, e) =>
      var more := ConditionTokens(e, 1, rest);
      ConditionSkipped(d, 2, [Token(And, "&&")] + more, n);
      TokenSkipped(Token(And, "&&"), more, n);
      ConditionSkipped(e, 1, rest, n);
    case Either(d, e) =>
      var more := ConditionTokens(e, 0, rest);
      ConditionSkipped(d, 1, [Token(Or, "||")] + more, n);
      TokenSkipped(Token(Or, "||"), more, n);
      ConditionSkipped(e, 0, rest, n);
  }

  lemma {:induction false} BodySkipped(body: seq<Statement>, rest: seq<Token>, n: nat)
    requires FormedBody(body) && n > 0
    ensures SkipToClosingBrace(BodyTokens(body, rest), n) == SkipToClosingBrace(rest, n)
    decreases body, 3
  {
    hide SkipToClosingBrace, FormedStatement, StatementTokens;
    if |body| > 0 {
      StatementSkipped(body[0], BodyTokens(body[1..], rest), n);
      BodySkipped(body[1..], rest, n);
    }
  }

  lemma {:induction false} BlockSkipped(body: seq<Statement>, rest: seq<Token>, n: nat)
    requires FormedBody(body)
    ensures n > 0 ==> SkipToClosingBrace(BlockTokens(body, rest), n) == SkipToClosingBrace(rest, n)
    ensures SkipToClosingBrace(BodyTokens(body, [Token(CloseBrace, "}")] + rest), 1) == Done((), rest)
    decreases body, 4
  {
    hide FormedBody, BodyTokens;
    var close := [Token(CloseBrace, "}")] + rest;
    Head(Token(CloseBrace, "}"), rest);
    Head(Token(OpenBrace, "{"), BodyTokens(body, close));
    BodySkipped(body, close, 1);
    BodySkipped(body, close, n + 1);
  }

  lemma {:induction false} StatementSkipped(s: Statement, rest: seq<Token>, n: nat)
    requires FormedStatement(s) && n > 0
    ensures SkipToClosingBrace(StatementTokens(s, rest), n) == SkipToClosingBrace(rest, n)
    decreases s, 1
  {
    hide SkipToClosingBrace, FormedSum, FormedCondition, FormedBody, FormedClauses, SumTokens, ConditionTokens, BlockTokens, ClauseTokens;
    match s
    case Assign(name, always, value) =>
      var sign := if always then Token(Equals, "=") else Token(QuestionEquals, "?=");
      TwoSkipped(Token(Ident, name), sign, SumTokens(value, [Token(Semicolon, ";")] + rest), n);
      SumTokenSkipped(value, Token(Semicolon, ";"), rest, n);
    case Scope(name, body, semicolon) =>
      TokenSkipped(Token(Ident, name), BlockTokens(body, Ended(semicolon, rest)), n);
      BlockSkipped(body, Ended(semicolon, rest), n);
      TokenSkipped(Token(Semicolon, ";"), rest, n);
    case Conditional(c, body, more, semicolon) =>
      var end := Ended(semicolon, rest);
      GuardSkipped(Token(If, "@if"), c, BlockTokens(body, ClauseTokens(more, end)), n);
      BlockSkipped(body, ClauseTokens(more, end), n);
      ClausesSkipped(more, end, n);
      TokenSkipped(Token(Semicolon, ";"), rest, n);
    case RemoveEntry(name) =>
      assert StatementTokens(s, rest) == [Token(Remove, "@remove"), Token(Ident, name)] + ([Token(Semicolon, ";")] + rest);
      TwoSkipped(Token(Remove, "@remove"), Token(Ident, name), [Token(Semicolon, ";")] + rest, n);
      TokenSkipped(Token(Semicolon, ";"), rest, n);
    case IncludeFile(source, ifExists) =>
      TokenSkipped(Token(Include, "@include"), SumTokens(source, EndTokens(ifExists, rest)), n);
      EndSkipped(source, ifExists, rest, n);
    case CopyScope(source, ifExists) =>
      TokenSkipped(Token(CopyFrom, "@copyFrom"), SumTokens(source, EndTokens(ifExists, rest)), n);
      EndSkipped(source, ifExists, rest, n);
    case ErrorWith(message) =>
      TokenSkipped(Token(Error, "@error"), SumTokens(message, [Token(Semicolon, ";")] + rest), n);
      SumTokenSkipped(message, Token(Semicolon, ";"), rest, n);
  }

  lemma TwoSkipped(t: Token, u: Token, ts: seq<Token>, n: nat)
    requires t.sym != OpenBrace && t.sym != CloseBrace && u.sym != OpenBrace && u.sym != CloseBrace && n > 0
    ensures SkipToClosingBrace([t, u] + ts, n) == SkipToClosingBrace(ts, n)
  {
    hide SkipToClosingBrace;
    assert [t, u] + ts == [t] + ([u] + ts);
    TokenSkipped(t, [u] + ts, n);
    TokenSkipped(u, ts, n);
  }

  /** A keyword and the condition in parentheses behind it. */
  lemma GuardSkipped(keyword: Token, c: Condition, ts: seq<Token>, n: nat)
    requires keyword.sym != OpenBrace && keyword.sym != CloseBrace && FormedCondition(c) && n > 0
    ensures SkipToClosingBrace([keyword, Token(OpenParen, "(")] + ConditionTokens(c, 0, [Token(CloseParen, ")")] + ts), n)
         == SkipToClosingBrace(ts, n)
  {
    hide SkipToClosingBrace, FormedCondition, ConditionTokens;
    TwoSkipped(keyword, Token(OpenParen, "("), ConditionTokens(c, 0, [Token(CloseParen, ")")] + ts), n);
    ConditionSkipped(c, 0, [Token(CloseParen, ")")] + ts, n);
    TokenSkipped(Token(CloseParen, ")"), ts, n);
  }

  lemma EndSkipped(source: Sum, ifExists: bool, rest: seq<Token>, n: nat)
    requires FormedSum(source) && n > 0
    ensures SkipToClosingBrace(SumTokens(source, EndTokens(ifExists, rest)), n) == SkipToClosingBrace(rest, n)
  {
    hide SkipToClosingBrace, FormedSum, SumTokens;
    SumSkipped(source, EndTokens(ifExists, rest), n);
    if ifExists {
      TwoSkipped(Token(IfExists, "@ifExists"), Token(Semicolon, ";"), rest, n);
    } else {
      TokenSkipped(Token(Semicolon, ";"), rest, n);
    }
  }

  lemma {:induction false} ClausesSkipped(clauses: Clauses, rest: seq<Token>, n: nat)
    requires FormedClauses(clauses) && n > 0
    ensures SkipToClosingBrace(ClauseTokens(clauses, rest), n) == SkipToClosingBrace(rest, n)
    decreases clauses, 1
  {
    hide SkipToClosingBrace, FormedCondition, FormedBody, ConditionTokens, BlockTokens;
    match clauses
    case NoMore =>
    case Otherwise(body) =>
      TokenSkipped(Token(Else, "@else"), BlockTokens(body, rest), n);
      BlockSkipped(body, rest, n);
    case When(c, body, more) =>
      GuardSkipped(Token(ElseIf, "@elseIf"), c, BlockTokens(body, ClauseTokens(more, rest)), n);
      BlockSkipped(body, ClauseTokens(more, rest), n);
      ClausesSkipped(more, rest, n);
  }

  // ---------- statements ----------

  /** What may come behind a statement that ends with a brace. */
  predicate Follows(sym: Symbol) { sym != Semicolon && sym != Else && sym != ElseIf }

  lemma StatementStarts(s: Statement, rest: seq<Token>)
    ensures |StatementTokens(s, rest)| > 0 && StartsStmt(Sym(StatementTokens(s, rest)))
  {
    hide SumTokens, ConditionTokens, BlockTokens;
  }

  lemma {:induction false} BodyParsed(env: Env, path: Path, body: seq<Statement>, rest: seq<Token>)
    requires FormedBody(body) && !StartsStmt(Sym(rest)) && Follows(Sym(rest))
    ensures ParseStmtList(env, BodyTokens(body, rest), path) == After(Run(env, path, body), rest)
    decreases body, 3
  {
    hide FormedStatement, StatementTokens, RunOne, ParseStmt;
    if |body| > 0 {
      var more := BodyTokens(body[1..], rest);
      if |body| > 1 { StatementStarts(body[1], BodyTokens(body[1..][1..], rest)); }
      StatementStarts(body[0], more);
      StatementParsed(env, path, body[0], more);
      var first := RunOne(env, path, body[0]);
      if first.Some? { BodyParsed(env, first.value, body[1..], rest); }
    }
  }

  /** A block that is executed, and one that is skipped. */
  lemma {:induction false} BlockParsed(env: Env, path: Path, body: seq<Statement>, run: bool, rest: seq<Token>)
    requires FormedBody(body)
    ensures ParseBlock(env, BlockTokens(body, rest), path, run) == After(if run then Run(env, path, body) else Some(path), rest)
    decreases body, 4
  {
    hide FormedBody, BodyTokens, Run, ParseStmtList, SkipToClosingBrace;
    var close := [Token(CloseBrace, "}")] + rest;
    Head(Token(CloseBrace, "}"), rest);
    Head(Token(OpenBrace, "{"), BodyTokens(body, close));
    BlockSkipped(body, rest, 1);
    BodyParsed(env, path, body, close);
  }

  lemma {:induction false} StatementParsed(env: Env, path: Path, s: Statement, rest: seq<Token>)
    requires FormedStatement(s) && Follows(Sym(rest))
    ensures ParseStmt(env, StatementTokens(s, rest), path) == After(RunOne(env, path, s), rest)
    decreases s, 2
  {
    hide FormedStatement, StatementTokens, RunOne, ParseStmt;
    match s
    case Assign(_, _, _) => AssignParsed(env, path, s, rest);
    case Scope(_, _, _) => ScopeParsed(env, path, s, rest);
    case Conditional(_, _, _, _) => ConditionalParsed(env, path, s, rest);
    case RemoveEntry(_) => RemoveParsed(env, path, s, rest);
    case IncludeFile(_, _) => EffectParsed(env, path, s, rest);
    case CopyScope(_, _) => EffectParsed(env, path, s, rest);
    case ErrorWith(_) => ErrorThrows(env, path, s, rest);
  }

  lemma ErrorThrows(env: Env, path: Path, s: Statement, rest: seq<Token>)
    requires FormedStatement(s) && s.ErrorWith?
    ensures ParseStmt(env, StatementTokens(s, rest), path) == After(RunOne(env, path, s), rest)
  {
    hide SumTokens;
    Head(Token(Error, "@error"), SumTokens(s.message, [Token(Semicolon, ";")] + rest));
  }

  lemma RemoveParsed(env: Env, path: Path, s: Statement, rest: seq<Token>)
    requires FormedStatement(s) && s.RemoveEntry?
    ensures ParseStmt(env, StatementTokens(s, rest), path) == After(RunOne(env, path, s), rest)
  {
    hide Removable, Removed;
    var ts := StatementTokens(s, rest);
    assert ts[1..] == [Token(Ident, s.name), Token(Semicolon, ";")] + rest;
    assert ts[2..] == [Token(Semicolon, ";")] + rest && ts[2..][1..] == rest;
  }

  lemma EffectParsed(env: Env, path: Path, s: Statement, rest: seq<Token>)
    requires FormedStatement(s) && (s.IncludeFile? || s.CopyScope?)
    ensures ParseStmt(env, StatementTokens(s, rest), path) == After(RunOne(env, path, s), rest)
  {
    hide FormedSum, SumTokens, ParseStmt, ParseInclude, Effect;
    var keyword := if s.IncludeFile? then Token(Include, "@include") else Token(CopyFrom, "@copyFrom");
    EffectStatement(env, path, keyword, SumTokens(s.source, EndTokens(s.ifExists, rest)));
    IncludeParsed(env, path, keyword, s.source, s.ifExists, rest);
  }

  lemma EffectStatement(env: Env, path: Path, keyword: Token, ts: seq<Token>)
    requires keyword.sym == Include || keyword.sym == CopyFrom
    ensures ParseStmt(env, [keyword] + ts, path)
         == if keyword.sym == Include && |path.at| > 0 then Fail else ParseInclude(env, [keyword] + ts, path)
  {
    hide ParseInclude;
  }

  lemma IncludeParsed(env: Env, path: Path, keyword: Token, source: Sum, ifExists: bool, rest: seq<Token>)
    requires FormedSum(source)
    ensures ParseInclude(env, [keyword] + SumTokens(source, EndTokens(ifExists, rest)), path)
         == After(Effect(env, path, keyword.sym, source, ifExists), rest)
  {
    hide FormedSum, SumTokens, StringOf, ParseStringExpr, SetCurrent;
    Head(keyword, SumTokens(source, EndTokens(ifExists, rest)));
    Head(Token(Semicolon, ";"), rest);
    assert ([Token(IfExists, "@ifExists"), Token(Semicolon, ";")] + rest)[1..] == [Token(Semicolon, ";")] + rest;
    StringParsed(env, path, source, EndTokens(ifExists, rest));
  }

  lemma AssignParsed(env: Env, path: Path, s: Statement, rest: seq<Token>)
    requires FormedStatement(s) && s.Assign?
    ensures ParseStmt(env, StatementTokens(s, rest), path) == After(RunOne(env, path, s), rest)
  {
    hide FormedSum, SumTokens, ItemOf, Stored, Lookup, ParseStmt, ParseAssignment;
    var value := SumTokens(s.value, [Token(Semicolon, ";")] + rest);
    AssignmentStatement(env, path, s.name, s.always, value);
    Head(Token(Semicolon, ";"), rest);
    AssignmentParsed(env, path, s.name, s.always, s.value, [Token(Semicolon, ";")] + rest);
  }

  lemma AssignmentStatement(env: Env, path: Path, name: string, always: bool, ts: seq<Token>)
    ensures ParseStmt(env, [Token(Ident, name), if always then Token(Equals, "=") else Token(QuestionEquals, "?=")] + ts, path)
         == if StartsWithDot(name) then Fail else Accept(ParseAssignment(env, ts, path, name, always), Semicolon)
  {
    hide ParseAssignment;
    var all := [Token(Ident, name), if always then Token(Equals, "=") else Token(QuestionEquals, "?=")] + ts;
    assert all[1..] == [all[1]] + ts && all[2..] == ts;
  }

  lemma AssignmentParsed(env: Env, path: Path, name: string, always: bool, value: Sum, rest: seq<Token>)
    requires FormedSum(value) && Sym(rest) != Plus
    ensures ParseAssignment(env, SumTokens(value, rest), path, name, always)
         == match ItemOf(env, path, value)
            case None => Fail
            case Some(item) => After(Stored(path, name, item, !always && IsVariable(Lookup(path, name))), rest)
  {
    hide FormedSum, SumTokens, StringOf, ListOf, IsList, IsListRhs, Lookup, ParseStringExpr, ParseListExpr, Insert, SetCurrent, Current, Components;
    TypeParsed(path, value, rest);
    if IsList(path, value.term) == Some(false) { StringParsed(env, path, value, rest); }
    if IsList(path, value.term) == Some(true) { ListParsed(env, path, value, rest); }
  }

  /** The first token tells the type. */
  lemma TypeParsed(path: Path, value: Sum, rest: seq<Token>)
    requires FormedSum(value)
    ensures IsListRhs(SumTokens(value, rest), path) == IsList(path, value.term)
  {
    hide Lookup, ArgumentTokens;
    var more := if value.Just? then rest else [Token(Plus, "+")] + SumTokens(value.more, rest);
    assert SumTokens(value, rest) == TermTokens(value.term, more);
    TermType(path, value.term, more);
  }

  lemma TermType(path: Path, t: Term, rest: seq<Token>)
    requires FormedTerm(t)
    ensures IsListRhs(TermTokens(t, rest), path) == IsList(path, t)
  {
    hide Lookup, SumTokens, ArgumentTokens, CallSymbol;
  }

  lemma {:induction false} ScopeParsed(env: Env, path: Path, s: Statement, rest: seq<Token>)
    requires FormedStatement(s) && s.Scope? && Follows(Sym(rest))
    ensures ParseStmt(env, StatementTokens(s, rest), path) == After(RunOne(env, path, s), rest)
    decreases s, 1
  {
    hide FormedBody, BodyTokens, Run, ParseStmt, ParseStmtList, Entered;
    var end := Ended(s.semicolon, rest);
    var close := [Token(CloseBrace, "}")] + end;
    ScopeStatement(env, path, s.name, BodyTokens(s.body, close));
    Head(Token(CloseBrace, "}"), end);
    Head(Token(Semicolon, ";"), rest);
    var inner := Entered(path, s.name);
    if inner.Some? { BodyParsed(env, inner.value, s.body, close); }
  }

  lemma ScopeStatement(env: Env, path: Path, name: string, ts: seq<Token>)
    ensures ParseStmt(env, [Token(Ident, name)] + ([Token(OpenBrace, "{")] + ts), path)
         == if StartsWithDot(name) then Fail else OptionalSemicolon(ParseScope(env, ts, path, name))
  {
    hide ParseScope;
    var all := [Token(Ident, name)] + ([Token(OpenBrace, "{")] + ts);
    assert all[1..] == [Token(OpenBrace, "{")] + ts && all[2..] == ts;
  }

  lemma IfStatement(env: Env, path: Path, ts: seq<Token>)
    ensures ParseStmt(env, [Token(If, "@if")] + ts, path) == OptionalSemicolon(ParseIfStmt(env, ts, path))
  {
    hide ParseIfStmt;
    Head(Token(If, "@if"), ts);
  }

  lemma {:induction false} ConditionalParsed(env: Env, path: Path, s: Statement, rest: seq<Token>)
    requires FormedStatement(s) && s.Conditional? && Follows(Sym(rest))
    ensures ParseStmt(env, StatementTokens(s, rest), path) == After(RunOne(env, path, s), rest)
    decreases s, 1
  {
    hide FormedCondition, FormedBody, FormedClauses, ConditionTokens, BlockTokens, ClauseTokens, Truth, Run, RunClauses;
    hide ParseStmt, ParseParenthesised, ParseBlock, ParseElses;
    var end := Ended(s.semicolon, rest);
    var block := BlockTokens(s.body, ClauseTokens(s.more, end));
    var ts := [Token(OpenParen, "(")] + ConditionTokens(s.condition, 0, [Token(CloseParen, ")")] + block);
    assert StatementTokens(s, rest) == [Token(If, "@if")] + ts;
    IfStatement(env, path, ts);
    Head(Token(Semicolon, ";"), rest);
    GuardParsed(env, path, s.condition, block);
    var truth := Truth(env, path, s.condition);
    if truth.Some? {
      BlockParsed(env, path, s.body, truth.value, ClauseTokens(s.more, end));
      var after := if truth.value then Run(env, path, s.body) else Some(path);
      if after.Some? { ClausesParsed(env, after.value, s.more, truth.value, end); }
    }
  }

  lemma GuardParsed(env: Env, path: Path, c: Condition, ts: seq<Token>)
    requires FormedCondition(c)
    ensures ParseParenthesised(env, [Token(OpenParen, "(")] + ConditionTokens(c, 0, [Token(CloseParen, ")")] + ts), path)
         == After(Truth(env, path, c), ts)
  {
    hide FormedCondition, ConditionTokens, Truth, ParseCondition;
    ConditionParsed(env, path, c, [Token(CloseParen, ")")] + ts);
    Head(Token(OpenParen, "("), ConditionTokens(c, 0, [Token(CloseParen, ")")] + ts));
    Head(Token(CloseParen, ")"), ts);
  }

  lemma {:induction false} ClausesParsed(env: Env, path: Path, clauses: Clauses, done: bool, rest: seq<Token>)
    requires FormedClauses(clauses) && Sym(rest) != Else && Sym(rest) != ElseIf
    ensures ParseElses(env, ClauseTokens(clauses, rest), path, done) == After(RunClauses(env, path, clauses, done), rest)
    decreases clauses, 1
  {
    hide FormedCondition, FormedBody, ConditionTokens, BlockTokens, Truth, Run, ParseParenthesised, ParseBlock;
    match clauses
    case NoMore =>
    case Otherwise(body) =>
      Head(Token(Else, "@else"), BlockTokens(body, rest));
      BlockParsed(env, path, body, !done, rest);
    case When(c, body, more) =>
      var block := BlockTokens(body, ClauseTokens(more, rest));
      var ts := [Token(OpenParen, "(")] + ConditionTokens(c, 0, [Token(CloseParen, ")")] + block);
      assert ClauseTokens(clauses, rest) == [Token(ElseIf, "@elseIf")] + ts;
      Head(Token(ElseIf, "@elseIf"), ts);
      GuardParsed(env, path, c, block);
      var truth := Truth(env, path, c);
      if truth.Some? {
        BlockParsed(env, path, body, !done && truth.value, ClauseTokens(more, rest));
        var after := if !done && truth.value then Run(env, path, body) else Some(path);
        if after.Some? { ClausesParsed(env, after.value, more, done || truth.value, rest); }
      }
  }

  // ---------- whole programs ----------

  /** Parsing what a program is written with does what the program means, and throws exactly where it
      means nothing. */
  lemma ProgramParsed(env: Env, root: Entries, body: seq<Statement>)
    requires FormedBody(body)
    ensures ParseAll(env, BodyTokens(body, []), root)
         == match Run(env, Path(root, []), body) case None => None case Some(path) => Some(path.root)
  {
    hide FormedBody, BodyTokens, Run, ParseStmtList;
    BodyParsed(env, Path(root, []), body, []);
  }
}
