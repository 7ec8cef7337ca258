/** What config4cpp's configuration language means: tokens, and the grammar of ConfigParser.cpp as
    functions from tokens and a configuration to the configuration that the statements leave. */
module ConfigSyntax {
  import opened Wrappers
  import opened CStrings
  import opened ConfigPaths
  import PatternMatch
  import StringFunctions

  // ---------- tokens ----------

  datatype Symbol =
    | Eof | Unknown | UnknownFunc | SoleDot | TwoDots | StringWithEol | BlockStringWithEof | IllegalIdent | BadEscape
    | Ident | Str | Semicolon | Plus | Equals | QuestionEquals | EqualsEquals | NotEquals | Not | And | Or
    | OpenBracket | CloseBracket | OpenBrace | CloseBrace | OpenParen | CloseParen | Comma
    | CopyFrom | Else | ElseIf | Error | If | IfExists | In | Include | Matches | Remove
    | NoArgFunc | OneArgFunc | TwoArgFunc | Join | Replace | Split | IsFileReadable

  datatype Token = Token(sym: Symbol, spelling: string)

  /** The type of the current token; ts are the tokens from it up to the end of the input. */
  function Sym(ts: seq<Token>): Symbol { if |ts| == 0 then Eof else ts[0].sym }

  // ---------- what the parser is given ----------

  /** The world outside the parser: built-in functions that ask the system, the statements @include
      and @copyFrom, which change the current scope, and what the fallback configuration has under
      a name. None stands for an exception, or for nothing found. */
  datatype Env = Env(call: (string, seq<string>, Path) -> Option<string>,
                     readable: string -> bool,
                     effect: (Symbol, string, bool, Path) -> Option<Entries>,
                     fallback: string -> Option<Item>)

  /** The item that a name stands for in an expression: what is in the fallback configuration is
      visible here, though not where the type of a right-hand side is read off its first name. */
  function Value(env: Env, path: Path, name: string): Option<Item>
  {
    var item := Lookup(path, name);
    if item.Some? || |name| == 0 then item else env.fallback(name)
  }

  datatype Parsed<T> = Fail | Done(value: T, rest: seq<Token>)

  function Accept<T>(p: Parsed<T>, sym: Symbol): (r: Parsed<T>)
    ensures r.Done? ==> p.Done? && |p.rest| > 0 && p.rest[0].sym == sym && sym != Eof && r == Done(p.value, p.rest[1..])
  {
    if p.Done? && |p.rest| > 0 && p.rest[0].sym == sym && sym != Eof then Done(p.value, p.rest[1..]) else Fail
  }

  // ---------- strings and lists ----------

  ghost function ParseStringExpr(env: Env, ts: seq<Token>, path: Path): (r: Parsed<string>)
    ensures r.Done? ==> |r.rest| < |ts|
    decreases |ts|, 3
  {
    match ParseString(env, ts, path)
    case Fail => Fail
    case Done(s, rest) =>
      if Sym(rest) != Plus then Done(s, rest)
      else match ParseStringExpr(env, rest[1..], path)
           case Fail => Fail
           case Done(t, rest') => Done(s + t, rest')
  }

  ghost function ParseString(env: Env, ts: seq<Token>, path: Path): (r: Parsed<string>)
    ensures r.Done? ==> |r.rest| < |ts|
    decreases |ts|, 2
  {
    match Sym(ts)
    case Str => Done(ts[0].spelling, ts[1..])
    case Ident =>
      (match Value(env, path, ts[0].spelling)
       case Some(StringItem(s)) => Done(s, ts[1..])
       case _ => Fail)
    case NoArgFunc => Accept(Called(env, ts[0].spelling, Done([], ts[1..]), path), CloseParen)
    case OneArgFunc => ParseCall(env, ts[0].spelling, ts[1..], path, 1)
    case TwoArgFunc => ParseCall(env, ts[0].spelling, ts[1..], path, 2)
    case Join => ParseJoin(env, ts[1..], path)
    case Replace => ParseReplace(env, ts[1..], path)
    case _ => Fail
  }

  /** A string expression and the token that must follow it. */
  ghost function ParseStringThen(env: Env, ts: seq<Token>, path: Path, sym: Symbol): (r: Parsed<string>)
    ensures r.Done? ==> |r.rest| < |ts|
    decreases |ts|, 4
  {
    Accept(ParseStringExpr(env, ts, path), sym)
  }

  ghost function ParseJoin(env: Env, ts: seq<Token>, path: Path): (r: Parsed<string>)
    ensures r.Done? ==> |r.rest| < |ts|
    decreases |ts|, 5
  {
    match Accept(ParseListExpr(env, ts, path), Comma)
    case Fail => Fail
    case Done(list, rest) =>
      match ParseStringThen(env, rest, path, CloseParen)
      case Fail => Fail
      case Done(separator, rest') => Done(StringFunctions.Joined(list, separator), rest')
  }

  /** For an empty text to search for the source does not return (StringFunctions.LoopEnds). */
  ghost function ParseReplace(env: Env, ts: seq<Token>, path: Path): (r: Parsed<string>)
    ensures r.Done? ==> |r.rest| < |ts|
    decreases |ts|, 5
  {
    match ParseStringThen(env, ts, path, Comma)
    case Fail => Fail
    case Done(s, rest) =>
      match ParseStringThen(env, rest, path, Comma)
      case Fail => Fail
      case Done(search, rest') =>
        match ParseStringThen(env, rest', path, CloseParen)
        case Fail => Fail
        case Done(replacement, rest'') =>
          if CText(search) == "" then Fail
          else Done(StringFunctions.Replaced(CText(s), CText(search), replacement), rest'')
  }

  /** A function that asks the system, with one argument or up to two. */
  ghost function ParseCall(env: Env, f: string, ts: seq<Token>, path: Path, most: nat): (r: Parsed<string>)
    ensures r.Done? ==> |r.rest| < |ts|
    decreases |ts|, 5
  {
    Accept(Called(env, f, ParseArguments(env, ts, path, most), path), CloseParen)
  }

  /** The result of a built-in function on the parsed arguments. */
  function Called(env: Env, f: string, args: Parsed<seq<string>>, path: Path): (r: Parsed<string>)
    ensures r.Done? ==> args.Done? && r.rest == args.rest
  {
    match args
    case Fail => Fail
    case Done(values, rest) => match env.call(f, values, path) case None => Fail case Some(s) => Done(s, rest)
  }

  /** One string expression, or up to two. */
  ghost function ParseArguments(env: Env, ts: seq<Token>, path: Path, most: nat): (r: Parsed<seq<string>>)
    ensures r.Done? ==> |r.rest| < |ts|
    decreases |ts|, 4
  {
    match ParseStringExpr(env, ts, path)
    case Fail => Fail
    case Done(s, rest) =>
      if most < 2 || Sym(rest) != Comma then Done([s], rest)
      else match ParseStringExpr(env, rest[1..], path)
           case Fail => Fail
           case Done(t, rest') => Done([s, t], rest')
  }

  ghost function ParseListExpr(env: Env, ts: seq<Token>, path: Path): (r: Parsed<seq<string>>)
    ensures r.Done? ==> |r.rest| < |ts|
    decreases |ts|, 3
  {
    match ParseList(env, ts, path)
    case Fail => Fail
    case Done(l, rest) =>
      if Sym(rest) != Plus then Done(l, rest)
      else match ParseListExpr(env, rest[1..], path)
           case Fail => Fail
           case Done(m, rest') => Done(l + m, rest')
  }

  ghost function ParseList(env: Env, ts: seq<Token>, path: Path): (r: Parsed<seq<string>>)
    ensures r.Done? ==> |r.rest| < |ts|
    decreases |ts|, 2
  {
    match Sym(ts)
    case Split => ParseSplit(env, ts[1..], path)
    case OpenBracket => Accept(ParseStringExprList(env, ts[1..], path), CloseBracket)
    case Ident =>
      (match Value(env, path, ts[0].spelling)
       case Some(ListItem(l)) => Done(l, ts[1..])
       case _ => Fail)
    case _ => Fail
  }

  /** For an empty delimiter the source does not return (StringFunctions.LoopEnds). */
  ghost function ParseSplit(env: Env, ts: seq<Token>, path: Path): (r: Parsed<seq<string>>)
    ensures r.Done? ==> |r.rest| < |ts|
    decreases |ts|, 5
  {
    match ParseStringThen(env, ts, path, Comma)
    case Fail => Fail
    case Done(s, rest) =>
      match ParseStringThen(env, rest, path, CloseParen)
      case Fail => Fail
      case Done(delim, rest') =>
        if CText(delim) == "" then Fail else Done(StringFunctions.Pieces(CText(s), CText(delim)), rest')
  }

  /** The strings of a list up to its closing bracket; a comma may come before that. */
  ghost function ParseStringExprList(env: Env, ts: seq<Token>, path: Path): (r: Parsed<seq<string>>)
    ensures r.Done? ==> |r.rest| <= |ts|
    decreases |ts|, 4
  {
    if Sym(ts) == CloseBracket then Done([], ts)
    else match ParseStringExpr(env, ts, path)
         case Fail => Fail
         case Done(s, rest) =>
           if Sym(rest) != Comma then Done([s], rest)
           else match ParseStringExprList(env, rest[1..], path)
                case Fail => Fail
                case Done(l, rest') => Done([s] + l, rest')
  }

  // ---------- conditions ----------

  ghost function ParseCondition(env: Env, ts: seq<Token>, path: Path): (r: Parsed<bool>)
    ensures r.Done? ==> |r.rest| < |ts|
    decreases |ts|, 3
  {
    match ParseAndCondition(env, ts, path)
    case Fail => Fail
    case Done(b, rest) =>
      if Sym(rest) != Or then Done(b, rest)
      else match ParseCondition(env, rest[1..], path)
           case Fail => Fail
           case Done(c, rest') => Done(b || c, rest')
  }

  ghost function ParseAndCondition(env: Env, ts: seq<Token>, path: Path): (r: Parsed<bool>)
    ensures r.Done? ==> |r.rest| < |ts|
    decreases |ts|, 2
  {
    match ParseTerminalCondition(env, ts, path)
    case Fail => Fail
    case Done(b, rest) =>
      if Sym(rest) != And then Done(b, rest)
      else match ParseAndCondition(env, rest[1..], path)
           case Fail => Fail
           case Done(c, rest') => Done(b && c, rest')
  }

  ghost function ParseTerminalCondition(env: Env, ts: seq<Token>, path: Path): (r: Parsed<bool>)
    ensures r.Done? ==> |r.rest| < |ts|
    decreases |ts|, 1
  {
    match Sym(ts)
    case Not =>
      if Sym(ts[1..]) != OpenParen then Fail
      else (match Accept(ParseCondition(env, ts[2..], path), CloseParen)
            case Fail => Fail
            case Done(b, rest) => Done(!b, rest))
    case OpenParen => Accept(ParseCondition(env, ts[1..], path), CloseParen)
    case IsFileReadable =>
      (match Accept(ParseStringExpr(env, ts[1..], path), CloseParen)
       case Fail => Fail
       case Done(s, rest) => Done(env.readable(s), rest))
    case _ =>
      match ParseStringExpr(env, ts, path)
      case Fail => Fail
      case Done(s, rest) => ParseComparison(env, rest, path, s)
  }

  /** The rest of a condition that began with the string s. */
  ghost function ParseComparison(env: Env, ts: seq<Token>, path: Path, s: string): (r: Parsed<bool>)
    ensures r.Done? ==> |r.rest| < |ts|
  {
    if Sym(ts) == In then
      match ParseListExpr(env, ts[1..], path)
      case Fail => Fail
      case Done(l, rest) => Done(s in l, rest)
    else if Sym(ts) == EqualsEquals || Sym(ts) == NotEquals || Sym(ts) == Matches then
      match ParseStringExpr(env, ts[1..], path)
      case Fail => Fail
      case Done(t, rest) =>
        Done(if Sym(ts) == EqualsEquals then s == t else if Sym(ts) == NotEquals then s != t else PatternMatch.Matches(CText(s), CText(t)), rest)
    else Fail
  }

  // ---------- statements ----------

  predicate StartsStmt(sym: Symbol)
  {
    sym == Ident || sym == Include || sym == If || sym == Remove || sym == Error || sym == CopyFrom
  }

  /** The configuration after the statements up to a token that starts none. */
  ghost function ParseStmtList(env: Env, ts: seq<Token>, path: Path): (r: Parsed<Path>)
    ensures r.Done? ==> |r.rest| <= |ts|
    decreases |ts|, 9
  {
    if !StartsStmt(Sym(ts)) then Done(path, ts)
    else match ParseStmt(env, ts, path)
         case Fail => Fail
         case Done(path', rest) => ParseStmtList(env, rest, path')
  }

  ghost function ParseStmt(env: Env, ts: seq<Token>, path: Path): (r: Parsed<Path>)
    ensures r.Done? ==> |r.rest| < |ts|
    decreases |ts|, 8
  {
    match Sym(ts)
    case If => OptionalSemicolon(ParseIfStmt(env, ts[1..], path))
    case Remove =>
      if Sym(ts[1..]) != Ident || !Removable(path, ts[1].spelling) then Fail
      else Accept(Done(Removed(path, ts[1].spelling), ts[2..]), Semicolon)
    case Include => if |path.at| > 0 then Fail else ParseInclude(env, ts, path)
    case CopyFrom => ParseInclude(env, ts, path)
    case Ident =>
      if StartsWithDot(ts[0].spelling) then Fail
      else if Sym(ts[1..]) == Equals || Sym(ts[1..]) == QuestionEquals then
        Accept(ParseAssignment(env, ts[2..], path, ts[0].spelling, Sym(ts[1..]) == Equals), Semicolon)
      else if Sym(ts[1..]) == OpenBrace then OptionalSemicolon(ParseScope(env, ts[2..], path, ts[0].spelling))
      else Fail
    case _ => Fail
  }

  predicate StartsWithDot(name: string) { |name| > 0 && name[0] == '.' }

  /** Only entries of the current scope can be removed. */
  predicate Removable(path: Path, name: string) { '.' !in name && Find(Current(path), name).Some? }

  function Removed(path: Path, name: string): Path { SetCurrent(path, Without(Current(path), name)) }

  function OptionalSemicolon<T>(p: Parsed<T>): (r: Parsed<T>)
    ensures r.Done? <==> p.Done?
    ensures r.Done? ==> r.value == p.value && r.rest == (if Sym(p.rest) == Semicolon then p.rest[1..] else p.rest)
  {
    if p.Done? && Sym(p.rest) == Semicolon then Done(p.value, p.rest[1..]) else p
  }

  /** @include and @copyFrom. */
  ghost function ParseInclude(env: Env, ts: seq<Token>, path: Path): (r: Parsed<Path>)
    requires |ts| > 0
    ensures r.Done? ==> |r.rest| < |ts|
  {
    match ParseStringExpr(env, ts[1..], path)
    case Fail => Fail
    case Done(source, rest) =>
      var ifExists := Sym(rest) == IfExists;
      match env.effect(ts[0].sym, source, ifExists, path)
      case None => Fail
      case Some(es) => Accept(Done(SetCurrent(path, es), if ifExists then rest[1..] else rest), Semicolon)
  }

  /** Whether a right-hand side is parsed as a list. None: neither a string nor a list can start here. */
  ghost function IsListRhs(ts: seq<Token>, path: Path): Option<bool>
  {
    match Sym(ts)
    case OpenBracket => Some(true)
    case Split => Some(true)
    case NoArgFunc => Some(false)
    case OneArgFunc => Some(false)
    case TwoArgFunc => Some(false)
    case Join => Some(false)
    case Replace => Some(false)
    case Str => Some(false)
    case Ident =>
      (match Lookup(path, ts[0].spelling)
       case Some(StringItem(_)) => Some(false)
       case Some(ListItem(_)) => Some(true)
       case _ => None)
    case _ => None
  }

  /** name = value, or name ?= value, which keeps a variable that is visible already. */
  ghost function ParseAssignment(env: Env, ts: seq<Token>, path: Path, name: string, always: bool): (r: Parsed<Path>)
    ensures r.Done? ==> |r.rest| < |ts|
  {
    var doAssign := always || !IsVariable(Lookup(path, name));
    match IsListRhs(ts, path)
    case None => Fail
    case Some(false) =>
      (match ParseStringExpr(env, ts, path)
       case Fail => Fail
       case Done(s, rest) => Assigned(path, name, StringItem(s), doAssign, rest))
    case Some(true) =>
      match ParseListExpr(env, ts, path)
      case Fail => Fail
      case Done(l, rest) => Assigned(path, name, ListItem(l), doAssign, rest)
  }

  function Assigned(path: Path, name: string, item: Item, doAssign: bool, rest: seq<Token>): (r: Parsed<Path>)
    ensures r.Done? ==> r.rest == rest
  {
    if !doAssign then Done(path, rest)
    else match Insert(Current(path), Components(name), item)
         case None => Fail
         case Some(es) => Done(SetCurrent(path, es), rest)
  }

  /** The statements of a scope, after its opening brace: the scope becomes the current one, and at
      the closing brace the scope around it is that again. */
  ghost function ParseScope(env: Env, ts: seq<Token>, path: Path, name: string): (r: Parsed<Path>)
    ensures r.Done? ==> |r.rest| < |ts|
    decreases |ts|, 10
  {
    match Entered(path, name)
    case None => Fail
    case Some(inner) =>
      match Accept(ParseStmtList(env, ts, inner), CloseBrace)
      case Fail => Fail
      case Done(path', rest) => Done(Path(path'.root, path.at), rest)
  }

  /** The named scope as the current one, created where it did not exist. */
  function Entered(path: Path, name: string): Option<Path>
  {
    match EnsureScope(Current(path), Components(name))
    case None => None
    case Some(es) => Some(Path(SetCurrent(path, es).root, path.at + Components(name)))
  }

  /** skipToClosingBrace: n braces are open. */
  function SkipToClosingBrace(ts: seq<Token>, n: nat): (r: Parsed<()>)
    ensures r.Done? ==> |r.rest| <= |ts| && (n > 0 ==> |r.rest| < |ts|)
    decreases |ts|
  {
    if n == 0 then Done((), ts)
    else if |ts| == 0 then Fail
    else SkipToClosingBrace(ts[1..], if ts[0].sym == OpenBrace then n + 1 else if ts[0].sym == CloseBrace then n - 1 else n)
  }

  /** A block in braces, executed or skipped. */
  ghost function ParseBlock(env: Env, ts: seq<Token>, path: Path, run: bool): (r: Parsed<Path>)
    ensures r.Done? ==> |r.rest| < |ts|
    decreases |ts|, 1
  {
    if Sym(ts) != OpenBrace then Fail
    else if run then Accept(ParseStmtList(env, ts[1..], path), CloseBrace)
    else match SkipToClosingBrace(ts[1..], 1)
         case Fail => Fail
         case Done(_, rest) => Done(path, rest)
  }

  /** A condition in parentheses. */
  ghost function ParseParenthesised(env: Env, ts: seq<Token>, path: Path): (r: Parsed<bool>)
    ensures r.Done? ==> |r.rest| < |ts|
  {
    if Sym(ts) != OpenParen then Fail else Accept(ParseCondition(env, ts[1..], path), CloseParen)
  }

  /** @if, after the keyword and up to the optional semicolon. */
  ghost function ParseIfStmt(env: Env, ts: seq<Token>, path: Path): (r: Parsed<Path>)
    ensures r.Done? ==> |r.rest| < |ts|
    decreases |ts|, 5
  {
    match ParseParenthesised(env, ts, path)
    case Fail => Fail
    case Done(condition, rest) =>
      match ParseBlock(env, rest, path, condition)
      case Fail => Fail
      case Done(path', rest') => ParseElses(env, rest', path', condition)
  }

  /** The @elseIf and @else clauses; condition tells whether a branch has been executed. */
  ghost function ParseElses(env: Env, ts: seq<Token>, path: Path, condition: bool): (r: Parsed<Path>)
    ensures r.Done? ==> |r.rest| <= |ts|
    decreases |ts|, 4
  {
    if Sym(ts) == ElseIf then
      match ParseParenthesised(env, ts[1..], path)
      case Fail => Fail
      case Done(condition2, rest) =>
        match ParseBlock(env, rest, path, !condition && condition2)
        case Fail => Fail
        case Done(path', rest') => ParseElses(env, rest', path', condition || condition2)
    else if Sym(ts) == Else then ParseBlock(env, ts[1..], path, !condition)
    else Done(path, ts)
  }

  /** A whole input: nothing may follow the statements. */
  ghost function ParseAll(env: Env, ts: seq<Token>, root: Entries): Option<Entries>
  {
    match ParseStmtList(env, ts, Path(root, []))
    case Done(path, rest) => if |rest| == 0 then Some(path.root) else None
    case Fail => None
  }
}
