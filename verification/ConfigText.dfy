/** The text of a configuration: how characters become tokens (LexBase.cpp, ConfigLex.cpp) and how
    a configuration is printed (ConfigItem.cpp, ConfigScope.cpp). */
module ConfigText {
  import opened CStrings
  import opened Wrappers
  import opened ConfigPaths
  import opened ConfigSyntax

  // ---------- characters ----------

  predicate IsLetter(c: char) { 'A' <= c <= 'Z' || 'a' <= c <= 'z' }

  predicate IsIdentifierChar(c: char)
  {
    IsLetter(c) || '0' <= c <= '9' || c == '-' || c == '_' || c == '.' || c == ':' || c == '$' || c == '?' || c == '/' || c == '\\'
  }

  /** The characters the lexer sees: carriage returns are dropped. */
  function NoCr(s: string): (r: string)
    ensures '\r' !in r && forall c :: c in r ==> c in s
  {
    if |s| == 0 then "" else if s[0] == '\r' then NoCr(s[1..]) else [s[0]] + NoCr(s[1..])
  }

  // ---------- the lexer ----------

  function SkipSpace(s: string): (r: string)
    ensures |r| <= |s| && (|r| > 0 ==> !IsSpace(r[0]))
  {
    if |s| > 0 && IsSpace(s[0]) then SkipSpace(s[1..]) else s
  }

  function SkipLine(s: string): (r: string)
    ensures |r| <= |s|
    ensures |r| > 0 ==> r[0] == '\n'
  {
    if |s| > 0 && s[0] != '\n' then SkipLine(s[1..]) else s
  }

  /** Comment lines, and the white space after each. */
  function SkipComments(s: string): (r: string)
    ensures |r| <= |s| && (|r| > 0 ==> r[0] != '#')
    ensures |s| > 0 && s[0] == '#' ==> |r| < |s|
    decreases |s|
  {
    if |s| > 0 && s[0] == '#' then
      var line := SkipLine(s[1..]);
      SkipComments(SkipSpace(if |line| > 0 then line[1..] else line))
    else s
  }

  function WhileIdentifier(s: string): (n: nat)
    ensures n <= |s| && (n < |s| ==> !IsIdentifierChar(s[n])) && forall i :: 0 <= i < n ==> IsIdentifierChar(s[i])
  {
    if |s| > 0 && IsIdentifierChar(s[0]) then 1 + WhileIdentifier(s[1..]) else 0
  }

  function WhileLetter(s: string): (n: nat)
    ensures n <= |s| && (n < |s| ==> !IsLetter(s[n])) && forall i :: 0 <= i < n ==> IsLetter(s[i])
  {
    if |s| > 0 && IsLetter(s[0]) then 1 + WhileLetter(s[1..]) else 0
  }

  function Keyword(s: string): Symbol
  {
    if s == "@copyFrom" then CopyFrom else if s == "@else" then Else else if s == "@elseIf" then ElseIf
    else if s == "@error" then Error else if s == "@if" then If else if s == "@ifExists" then IfExists
    else if s == "@in" then In else if s == "@include" then Include else if s == "@matches" then Matches
    else if s == "@remove" then Remove else Unknown
  }

  function Function(s: string): Symbol
  {
    if s == "configFile(" || s == "osDirSeparator(" || s == "osPathSeparator(" || s == "osType(" then NoArgFunc
    else if s == "configType(" || s == "fileToDir(" || s == "readFile(" || s == "siblingScope(" then OneArgFunc
    else if s == "exec(" || s == "getenv(" then TwoArgFunc
    else if s == "isFileReadable(" then IsFileReadable
    else if s == "join(" then Join
    else if s == "replace(" then Replace
    else if s == "split(" then Split
    else UnknownFunc
  }

  /** A string after its opening quote: the kind of token, its spelling, and the text after it. */
  function StringBody(s: string): (r: (Symbol, string, string))
    ensures |r.2| <= |s| && r.0 != Eof
  {
    if |s| == 0 || s[0] == '\n' then (StringWithEol, "", s)
    else if s[0] == '"' then (Str, "", s[1..])
    else if s[0] != '%' then (var r := StringBody(s[1..]); (r.0, [s[0]] + r.1, r.2))
    else if |s| == 1 || s[1] == '\n' then (StringWithEol, "", s[1..])
    else if s[1] == 't' then (var r := StringBody(s[2..]); (r.0, ['\t'] + r.1, r.2))
    else if s[1] == 'n' then (var r := StringBody(s[2..]); (r.0, ['\n'] + r.1, r.2))
    else if s[1] == '%' || s[1] == '"' then (var r := StringBody(s[2..]); (r.0, [s[1]] + r.1, r.2))
    else (BadEscape, "", s[1..])
  }

  /** A block string after its opening mark. */
  function BlockBody(s: string): (r: (Symbol, string, string))
    ensures |r.2| <= |s| && r.0 != Eof
  {
    if |s| == 0 then (BlockStringWithEof, "", s)
    else if |s| > 1 && s[0] == '%' && s[1] == '>' then (Str, "", s[2..])
    else var r := BlockBody(s[1..]); (r.0, [s[0]] + r.1, r.2)
  }

  predicate StartsWith(s: string, c: char) { |s| > 0 && s[0] == c }

  /** The tokens of one character. */
  function Punctuation(c: char): Option<Symbol>
  {
    match c
    case '+' => Some(Plus) case ';' => Some(Semicolon) case ',' => Some(Comma)
    case '[' => Some(OpenBracket) case ']' => Some(CloseBracket)
    case '{' => Some(OpenBrace) case '}' => Some(CloseBrace)
    case '(' => Some(OpenParen) case ')' => Some(CloseParen)
    case _ => None
  }

  /** What the processor of uid- names makes of a name; None for one it refuses. */
  type Expand = string -> Option<string>

  /** nextToken: the token at the start of s, and the text after it. */
  function Lexeme(expand: Expand, s: string): (r: (Token, string))
    ensures r.0.sym != Eof ==> |r.1| < |s|
    ensures r.0.sym == Eof ==> r.1 == ""
    decreases |s|
  {
    var t := SkipSpace(s);
    if |t| == 0 then (Token(Eof, "<end of string>"), "")
    else if t[0] == '#' then Lexeme(expand, SkipComments(t))
    else LexemeHere(expand, t)
  }

  /** The token that begins with the first character of t. */
  function LexemeHere(expand: Expand, t: string): (r: (Token, string))
    requires |t| > 0
    ensures r.0.sym != Eof && |r.1| < |t|
  {
    match t[0]
    case '"' => (var r := StringBody(t[1..]); (Token(r.0, r.1), r.2))
    case '<' =>
      if StartsWith(t[1..], '%') then (var r := BlockBody(t[2..]); (Token(r.0, r.1), r.2)) else (Token(Unknown, "<"), t[1..])
    case '@' =>
      var n := 1 + WhileLetter(t[1..]);
      (Token(Keyword(t[..n]), t[..n]), t[n..])
    case '?' => OrEquals(Token(QuestionEquals, "?="), Token(Unknown, ""), t)
    case '!' => OrEquals(Token(NotEquals, "!="), Token(Not, "!"), t)
    case '=' => OrEquals(Token(EqualsEquals, "=="), Token(Equals, "="), t)
    case '&' => Doubled('&', And, t[1..])
    case '|' => Doubled('|', Or, t[1..])
    case c =>
      if Punctuation(c).Some? then (Token(Punctuation(c).value, [c]), t[1..])
      else if IsIdentifierChar(c) then Name(expand, t)
      else (Token(Unknown, [c]), t[1..])
  }

  /** One token if an equals sign follows, another if not. */
  function OrEquals(both: Token, alone: Token, t: string): (r: (Token, string))
    requires |t| > 0 && both.sym != Eof && alone.sym != Eof
    ensures r.0.sym != Eof && |r.1| < |t|
  {
    if StartsWith(t[1..], '=') then (both, t[2..]) else (alone, t[1..])
  }

  /** && and ||, after the first character; alone it is an unknown token. */
  function Doubled(c: char, sym: Symbol, s: string): (r: (Token, string))
    requires sym != Eof
    ensures r.0.sym != Eof && |r.1| <= |s|
  {
    if StartsWith(s, c) then (Token(sym, [c, c]), s[1..]) else (Token(Unknown, [c] + s[..if |s| > 0 then 1 else 0]), s)
  }

  /** An identifier, or a function's name with its parenthesis. */
  function Name(expand: Expand, s: string): (r: (Token, string))
    requires |s| > 0 && IsIdentifierChar(s[0])
    ensures r.0.sym != Eof && |r.1| < |s|
  {
    var n := WhileIdentifier(s);
    if StartsWith(s[n..], '(') then (Token(Function(s[..n + 1]), s[..n + 1]), s[n + 1..])
    else if s[..n] == "." then (Token(SoleDot, "."), s[n..])
    else if HasTwoDots(s[..n]) then (Token(TwoDots, s[..n]), s[n..])
    else match expand(s[..n])
         case Some(name) => (Token(Ident, name), s[n..])
         case None => (Token(IllegalIdent, s[..n]), s[n..])
  }

  predicate HasTwoDots(s: string) { exists i :: 0 <= i < |s| - 1 && s[i] == '.' && s[i + 1] == '.' }

  /** The tokens of a text. An invalid escape sequence is an exception in the source, which ends
      the parse; here it is a last token that no production accepts. */
  function Tokens(expand: Expand, s: string): seq<Token>
    decreases |s|
  {
    var r := Lexeme(expand, s);
    if r.0.sym == Eof then [] else if r.0.sym == BadEscape then [r.0] else [r.0] + Tokens(expand, r.1)
  }

  // ---------- the printer ----------

  function EscapedChar(c: char): string
  {
    match c case '\t' => "%t" case '\n' => "%n" case '%' => "%%" case '"' => "%\"" case _ => [c]
  }

  function Escaped(s: string): string
  {
    if |s| == 0 then "" else EscapedChar(s[0]) + Escaped(s[1..])
  }

  function Quoted(s: string): string { "\"" + Escaped(s) + "\"" }

  function Indent(level: nat): string { if level == 0 then "" else "\t" + Indent(level - 1) }

  function ListText(l: seq<string>): string
  {
    if |l| == 0 then "" else if |l| == 1 then Quoted(l[0]) else Quoted(l[0]) + ", " + ListText(l[1..])
  }

  /** ConfigItem::dump */
  function ItemText(e: Entry, level: nat): string
    decreases e, 1
  {
    Indent(level) + e.name +
    match e.item
    case StringItem(s) => " = " + Quoted(s) + ";\n"
    case ListItem(l) => " = [" + ListText(l) + "];\n"
    case ScopeItem(es) => " {\n" + ScopeText(es, level + 1) + Indent(level) + "}\n"
  }

  /** ConfigScope::dump: the variables by name, then the nested scopes by name. */
  function ScopeText(es: Entries, level: nat): string
    decreases es, 2
  {
    PassText(es, level, false) + PassText(es, level, true)
  }

  function PassText(es: Entries, level: nat, scopes: bool): string
    decreases es, 1
  {
    if |es| == 0 then ""
    else (if es[0].item.ScopeItem? == scopes then ItemText(es[0], level) else "") + PassText(es[1..], level, scopes)
  }
}
