/** Programs of the configuration language as trees: what they mean, said of the tree itself, and the
    tokens that they are written with. */
module ConfigPrograms {
  import opened Wrappers
  import opened CStrings
  import opened ConfigPaths
  import opened ConfigSyntax
  import opened ConfigText
  import PatternMatch
  import StringFunctions

  // ---------- programs ----------

  /** A sum of terms; of strings it is their concatenation, and so of lists. */
  datatype Sum = Just(term: Term) | Added(term: Term, more: Sum)

  datatype Term =
    | Literal(str: string)
    | Variable(name: string)
    | Elements(elements: seq<Sum>, comma: bool) // whether a comma follows the last
    | JoinCall(list: Sum, separator: Sum)
    | ReplaceCall(text: Sum, search: Sum, replacement: Sum)
    | SplitCall(text: Sum, delim: Sum)
    | SystemCall(callee: string, arguments: seq<Sum>)

  datatype Comparison = Equal | Unequal | Like

  datatype Condition =
    | Compare(left: Sum, comparison: Comparison, right: Sum)
    | Member(element: Sum, list: Sum)
    | Readable(file: Sum)
    | Negation(operand: Condition)
    | Grouped(operand: Condition) // in parentheses that it may not need
    | Both(first: Condition, second: Condition)
    | Either(first: Condition, second: Condition)

  /** The clauses of an @if statement from one of them on. */
  datatype Clauses = NoMore | Otherwise(body: seq<Statement>) | When(condition: Condition, body: seq<Statement>, more: Clauses)

  datatype Statement =
    | Assign(name: string, always: bool, value: Sum)
    | Scope(name: string, body: seq<Statement>, semicolon: bool) // whether a semicolon follows the brace
    | Conditional(condition: Condition, body: seq<Statement>, more: Clauses, semicolon: bool)
    | RemoveEntry(name: string)
    | IncludeFile(source: Sum, ifExists: bool)
    | CopyScope(source: Sum, ifExists: bool)
    | ErrorWith(message: Sum)

  /** Functions that ask the system have as many arguments as they take. */
  predicate FormedSum(e: Sum)
    decreases e
  {
    FormedTerm(e.term) && (e.Added? ==> FormedSum(e.more))
  }

  predicate FormedTerm(t: Term)
    decreases t
  {
    match t
    case Literal(_) => true
    case Variable(_) => true
    case Elements(es, _) => forall i :: 0 <= i < |es| ==> FormedSum(es[i])
    case JoinCall(l, s) => FormedSum(l) && FormedSum(s)
    case ReplaceCall(s, a, b) => FormedSum(s) && FormedSum(a) && FormedSum(b)
    case SplitCall(s, d) => FormedSum(s) && FormedSum(d)
    case SystemCall(f, a) => Takes(f, |a|) && forall i :: 0 <= i < |a| ==> FormedSum(a[i])
  }

  /** How many arguments the functions take that ask the system. */
  predicate Takes(f: string, n: nat)
  {
    match n
    case 0 => f in ["configFile(", "osDirSeparator(", "osPathSeparator(", "osType("]
    case 1 => f in ["configType(", "exec(", "fileToDir(", "getenv(", "readFile(", "siblingScope("]
    case 2 => f in ["exec(", "getenv("]
    case _ => false
  }

  predicate FormedCondition(c: Condition)
  {
    match c
    case Compare(l, _, r) => FormedSum(l) && FormedSum(r)
    case Member(e, l) => FormedSum(e) && FormedSum(l)
    case Readable(f) => FormedSum(f)
    case Negation(d) => FormedCondition(d)
    case Grouped(d) => FormedCondition(d)
    case Both(a, b) => FormedCondition(a) && FormedCondition(b)
    case Either(a, b) => FormedCondition(a) && FormedCondition(b)
  }

  predicate FormedBody(body: seq<Statement>)
    decreases body
  {
    forall i :: 0 <= i < |body| ==> FormedStatement(body[i])
  }

  predicate FormedStatement(s: Statement)
    decreases s
  {
    match s
    case Assign(_, _, e) => FormedSum(e)
    case Scope(_, body, _) => FormedBody(body)
    case Conditional(c, body, more, _) => FormedCondition(c) && FormedBody(body) && FormedClauses(more)
    case RemoveEntry(_) => true
    case IncludeFile(e, _) => FormedSum(e)
    case CopyScope(e, _) => FormedSum(e)
    case ErrorWith(e) => FormedSum(e)
  }

  predicate FormedClauses(c: Clauses)
    decreases c
  {
    match c
    case NoMore => true
    case Otherwise(body) => FormedBody(body)
    case When(d, body, more) => FormedCondition(d) && FormedBody(body) && FormedClauses(more)
  }

  // ---------- what they mean ----------

  /** The string that a sum stands for; None if it is no sum of strings, or a name in it stands for none. */
  function StringOf(env: Env, path: Path, e: Sum): Option<string>
    decreases e, 1
  {
    if e.Just? then StringTerm(env, path, e.term)
    else match (StringTerm(env, path, e.term), StringOf(env, path, e.more))
         case (Some(s), Some(t)) => Some(s + t)
         case _ => None
  }

  function StringTerm(env: Env, path: Path, t: Term): Option<string>
    decreases t, 0
  {
    match t
    case Literal(s) => Some(s)
    case Variable(name) => (match Value(env, path, name) case Some(StringItem(s)) => Some(s) case _ => None)
    case JoinCall(list, separator) =>
      (match (ListOf(env, path, list), StringOf(env, path, separator))
       case (Some(l), Some(s)) => Some(StringFunctions.Joined(l, s))
       case _ => None)
    case ReplaceCall(text, search, replacement) =>
      (match (StringOf(env, path, text), StringOf(env, path, search), StringOf(env, path, replacement))
       case (Some(s), Some(x), Some(y)) =>
         if CText(x) == "" then None else Some(StringFunctions.Replaced(CText(s), CText(x), y))
       case _ => None)
    case SystemCall(f, arguments) =>
      (match StringsOf(env, path, arguments) case Some(values) => env.call(f, values, path) case None => None)
    case Elements(_, _) => None
    case SplitCall(_, _) => None
  }

  function StringsOf(env: Env, path: Path, es: seq<Sum>): Option<seq<string>>
    decreases es, 2
  {
    if |es| == 0 then Some([])
    else match (StringOf(env, path, es[0]), StringsOf(env, path, es[1..]))
         case (Some(s), Some(l)) => Some([s] + l)
         case _ => None
  }

  /** The list that a sum stands for. */
  function ListOf(env: Env, path: Path, e: Sum): Option<seq<string>>
    decreases e, 1
  {
    if e.Just? then ListTerm(env, path, e.term)
    else match (ListTerm(env, path, e.term), ListOf(env, path, e.more))
         case (Some(l), Some(m)) => Some(l + m)
         case _ => None
  }

  function ListTerm(env: Env, path: Path, t: Term): Option<seq<string>>
    decreases t, 0
  {
    match t
    case Elements(es, _) => StringsOf(env, path, es)
    case Variable(name) => (match Value(env, path, name) case Some(ListItem(l)) => Some(l) case _ => None)
    case SplitCall(text, delim) =>
      (match (StringOf(env, path, text), StringOf(env, path, delim))
       case (Some(s), Some(d)) => if CText(d) == "" then None else Some(StringFunctions.Pieces(CText(s), CText(d)))
       case _ => None)
    case _ => None
  }

  /** Whether a condition holds; None if one of its expressions stands for nothing, even where the other
      operands would settle it. */
  ghost function Truth(env: Env, path: Path, c: Condition): Option<bool>
  {
    match c
    case Compare(l, op, r) =>
      (match (StringOf(env, path, l), StringOf(env, path, r))
       case (Some(s), Some(t)) =>
         Some(match op case Equal => s == t case Unequal => s != t case Like => PatternMatch.Matches(CText(s), CText(t)))
       case _ => None)
    case Member(e, l) =>
      (match (StringOf(env, path, e), ListOf(env, path, l)) case (Some(s), Some(list)) => Some(s in list) case _ => None)
    case Readable(f) => (match StringOf(env, path, f) case Some(s) => Some(env.readable(s)) case None => None)
    case Grouped(d) => Truth(env, path, d)
    case Negation(d) => (match Truth(env, path, d) case Some(b) => Some(!b) case None => None)
    case Both(d, e) =>
      (match (Truth(env, path, d), Truth(env, path, e)) case (Some(b), Some(b')) => Some(b && b') case _ => None)
    case Either(d, e) =>
      match (Truth(env, path, d), Truth(env, path, e)) case (Some(b), Some(b')) => Some(b || b') case _ => None
  }

  /** Whether a value is a list: by its first term, and for a variable by what it holds. */
  function IsList(path: Path, t: Term): Option<bool>
  {
    match t
    case Elements(_, _) => Some(true)
    case SplitCall(_, _) => Some(true)
    case Variable(name) =>
      (match Lookup(path, name) case Some(StringItem(_)) => Some(false) case Some(ListItem(_)) => Some(true) case _ => None)
    case _ => Some(false)
  }

  /** The item that a value stands for. */
  function ItemOf(env: Env, path: Path, e: Sum): Option<Item>
  {
    match IsList(path, e.term)
    case None => None
    case Some(false) => (match StringOf(env, path, e) case Some(s) => Some(StringItem(s)) case None => None)
    case Some(true) => match ListOf(env, path, e) case Some(l) => Some(ListItem(l)) case None => None
  }

  /** The configuration with the item under the name, unless it is to be kept. */
  function Stored(path: Path, name: string, item: Item, keep: bool): Option<Path>
  {
    if keep then Some(path)
    else match Insert(Current(path), Components(name), item)
         case None => None
         case Some(es) => Some(SetCurrent(path, es))
  }

  /** The configuration after the statements; None for an exception. */
  ghost function Run(env: Env, path: Path, body: seq<Statement>): Option<Path>
    requires FormedBody(body)
    decreases body, 2
  {
    if |body| == 0 then Some(path)
    else match RunOne(env, path, body[0])
         case None => None
         case Some(path') => Run(env, path', body[1..])
  }

  ghost function RunOne(env: Env, path: Path, s: Statement): Option<Path>
    requires FormedStatement(s)
    decreases s, 0
  {
    match s
    case Assign(name, always, value) =>
      if StartsWithDot(name) then None
      else (match ItemOf(env, path, value)
            case None => None
            case Some(item) => Stored(path, name, item, !always && IsVariable(Lookup(path, name))))
    case Scope(name, body, _) =>
      if StartsWithDot(name) then None
      else (match Entered(path, name)
            case None => None
            case Some(inner) =>
              match Run(env, inner, body) case None => None case Some(path') => Some(Path(path'.root, path.at)))
    case Conditional(c, body, more, _) =>
      (match Truth(env, path, c)
       case None => None
       case Some(b) =>
         match if b then Run(env, path, body) else Some(path)
         case None => None
         case Some(path') => RunClauses(env, path', more, b))
    case RemoveEntry(name) => if Removable(path, name) then Some(Removed(path, name)) else None
    case IncludeFile(source, ifExists) => if |path.at| > 0 then None else Effect(env, path, Include, source, ifExists)
    case CopyScope(source, ifExists) => Effect(env, path, CopyFrom, source, ifExists)
    case ErrorWith(_) => None
  }

  function Effect(env: Env, path: Path, keyword: Symbol, source: Sum, ifExists: bool): Option<Path>
  {
    match StringOf(env, path, source)
    case None => None
    case Some(s) => match env.effect(keyword, s, ifExists, path) case None => None case Some(es) => Some(SetCurrent(path, es))
  }

  /** The first of the clauses whose condition holds is run, unless one has been already; the conditions
      of the others are still worked out. */
  ghost function RunClauses(env: Env, path: Path, clauses: Clauses, done: bool): Option<Path>
    requires FormedClauses(clauses)
    decreases clauses, 1
  {
    match clauses
    case NoMore => Some(path)
    case Otherwise(body) => if done then Some(path) else Run(env, path, body)
    case When(c, body, more) =>
      match Truth(env, path, c)
      case None => None
      case Some(b) =>
        match if b && !done then Run(env, path, body) else Some(path)
        case None => None
        case Some(path') => RunClauses(env, path', more, done || b)
  }

  // ---------- the tokens they are written with ----------

  // Each function puts the tokens of its program in front of those that follow it.

  function SumTokens(e: Sum, rest: seq<Token>): seq<Token>
    decreases e, 1
  {
    if e.Just? then TermTokens(e.term, rest) else TermTokens(e.term, [Token(Plus, "+")] + SumTokens(e.more, rest))
  }

  function TermTokens(t: Term, rest: seq<Token>): seq<Token>
    decreases t, 0
  {
    match t
    case Literal(s) => [Token(Str, s)] + rest
    case Variable(name) => [Token(Ident, name)] + rest
    case Elements(es, comma) =>
      var close := [Token(CloseBracket, "]")] + rest;
      [Token(OpenBracket, "[")] + ArgumentTokens(es, if comma && |es| > 0 then [Token(Comma, ",")] + close else close)
    case JoinCall(list, separator) =>
      [Token(Join, "join(")] + SumTokens(list, [Token(Comma, ",")] + SumTokens(separator, [Token(CloseParen, ")")] + rest))
    case ReplaceCall(text, search, replacement) =>
      [Token(Replace, "replace(")] +
      SumTokens(text, [Token(Comma, ",")] + SumTokens(search, [Token(Comma, ",")] +
                                                              SumTokens(replacement, [Token(CloseParen, ")")] + rest)))
    case SplitCall(text, delim) =>
      [Token(Split, "split(")] + SumTokens(text, [Token(Comma, ",")] + SumTokens(delim, [Token(CloseParen, ")")] + rest))
    case SystemCall(f, arguments) => [Token(CallSymbol(f), f)] + ArgumentTokens(arguments, [Token(CloseParen, ")")] + rest)
  }

  /** The symbol of a function that asks the system, by the number of its arguments. */
  function CallSymbol(f: string): (sym: Symbol)
    ensures sym == NoArgFunc || sym == OneArgFunc || sym == TwoArgFunc
  {
    if Takes(f, 2) then TwoArgFunc else if Takes(f, 1) then OneArgFunc else NoArgFunc
  }

  function ArgumentTokens(es: seq<Sum>, rest: seq<Token>): seq<Token>
    decreases es, 2
  {
    if |es| == 0 then rest
    else if |es| == 1 then SumTokens(es[0], rest)
    else SumTokens(es[0], [Token(Comma, ",")] + ArgumentTokens(es[1..], rest))
  }

  function ComparisonToken(op: Comparison): Token
  {
    match op case Equal => Token(EqualsEquals, "==") case Unequal => Token(NotEquals, "!=") case Like => Token(Matches, "@matches")
  }

  /** At level 1 an alternative is put in parentheses, and at level 2 a conjunction too. */
  function ConditionTokens(c: Condition, level: nat, rest: seq<Token>): seq<Token>
    decreases c, 1
  {
    if (c.Either? && level > 0) || (c.Both? && level > 1) then
      [Token(OpenParen, "(")] + BareTokens(c, [Token(CloseParen, ")")] + rest)
    else BareTokens(c, rest)
  }

  function BareTokens(c: Condition, rest: seq<Token>): seq<Token>
    decreases c, 0
  {
    match c
    case Compare(l, op, r) => SumTokens(l, [ComparisonToken(op)] + SumTokens(r, rest))
    case Member(e, l) => SumTokens(e, [Token(In, "@in")] + SumTokens(l, rest))
    case Readable(f) => [Token(IsFileReadable, "isFileReadable(")] + SumTokens(f, [Token(CloseParen, ")")] + rest)
    case Grouped(d) => [Token(OpenParen, "(")] + ConditionTokens(d, 0, [Token(CloseParen, ")")] + rest)
    case Negation(d) => [Token(Not, "!"), Token(OpenParen, "(")] + ConditionTokens(d, 0, [Token(CloseParen, ")")] + rest)
    case Both(d, e) => ConditionTokens(d, 2, [Token(And, "&&")] + ConditionTokens(e, 1, rest))
    case Either(d, e) => ConditionTokens(d, 1, [Token(Or, "||")] + ConditionTokens(e, 0, rest))
  }

  function BodyTokens(body: seq<Statement>, rest: seq<Token>): seq<Token>
    decreases body, 1
  {
    if |body| == 0 then rest else StatementTokens(body[0], BodyTokens(body[1..], rest))
  }

  function StatementTokens(s: Statement, rest: seq<Token>): seq<Token>
    decreases s, 0
  {
    match s
    case Assign(name, always, value) =>
      [Token(Ident, name), if always then Token(Equals, "=") else Token(QuestionEquals, "?=")] + SumTokens(value, [Token(Semicolon, ";")] + rest)
    case Scope(name, body, semicolon) => [Token(Ident, name)] + BlockTokens(body, Ended(semicolon, rest))
    case Conditional(c, body, more, semicolon) =>
      [Token(If, "@if"), Token(OpenParen, "(")] +
      ConditionTokens(c, 0, [Token(CloseParen, ")")] + BlockTokens(body, ClauseTokens(more, Ended(semicolon, rest))))
    case RemoveEntry(name) => [Token(Remove, "@remove"), Token(Ident, name), Token(Semicolon, ";")] + rest
    case IncludeFile(source, ifExists) => [Token(Include, "@include")] + SumTokens(source, EndTokens(ifExists, rest))
    case CopyScope(source, ifExists) => [Token(CopyFrom, "@copyFrom")] + SumTokens(source, EndTokens(ifExists, rest))
    case ErrorWith(message) => [Token(Error, "@error")] + SumTokens(message, [Token(Semicolon, ";")] + rest)
  }

  function Ended(semicolon: bool, rest: seq<Token>): seq<Token>
  {
    if semicolon then [Token(Semicolon, ";")] + rest else rest
  }

  function EndTokens(ifExists: bool, rest: seq<Token>): seq<Token>
  {
    if ifExists then [Token(IfExists, "@ifExists"), Token(Semicolon, ";")] + rest else [Token(Semicolon, ";")] + rest
  }

  function BlockTokens(body: seq<Statement>, rest: seq<Token>): seq<Token>
    decreases body, 2
  {
    [Token(OpenBrace, "{")] + BodyTokens(body, [Token(CloseBrace, "}")] + rest)
  }

  function ClauseTokens(clauses: Clauses, rest: seq<Token>): seq<Token>
    decreases clauses, 0
  {
    match clauses
    case NoMore => rest
    case Otherwise(body) => [Token(Else, "@else")] + BlockTokens(body, rest)
    case When(c, body, more) =>
      [Token(ElseIf, "@elseIf"), Token(OpenParen, "(")] +
      ConditionTokens(c, 0, [Token(CloseParen, ")")] + BlockTokens(body, ClauseTokens(more, rest)))
  }
}
