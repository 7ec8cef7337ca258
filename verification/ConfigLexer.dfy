/** The lexer of LexBase.cpp, character by character, proved against the functions on texts. */
module ConfigLexer {
  import opened CStrings
  import opened Wrappers
  import opened ConfigPaths
  import opened ConfigSyntax
  import opened ConfigText

  class LexBase {
    const m_source: string
    const m_expand: Expand      // the processor of uid- names
    var m_ptr: nat
    var m_ch: char              // NUL at the end of the input
    var m_atEOF: bool

    ghost predicate Valid()
      reads this
    {
      m_ptr <= |m_source| && '\0' !in m_source
      && (if m_atEOF then m_ch == '\0' && NoCr(m_source[m_ptr..]) == "" else m_ch != '\0' && m_ch != '\r')
    }

    /** The text from the current character on. */
    ghost function Rest(): string
      reads this
      requires Valid()
    {
      if m_atEOF then "" else [m_ch] + NoCr(m_source[m_ptr..])
    }

    constructor (source: string, expand: Expand)
      requires '\0' !in source
      ensures Valid() && Rest() == NoCr(source) && m_expand == expand
    {
      m_source, m_expand, m_ptr, m_ch, m_atEOF := source, expand, 0, '\0', false;
      new;
      nextByte();
      assert source[0..] == source;
    }

    /** nextByte, into m_ch: the next byte that is not a carriage return. */
    method nextByte()
      requires m_ptr <= |m_source| && '\0' !in m_source
      modifies this
      ensures Valid() && Rest() == NoCr(old(m_source[m_ptr..]))
    {
      while m_ptr < |m_source| && m_source[m_ptr] == '\r'
        invariant m_ptr <= |m_source| && NoCr(m_source[m_ptr..]) == NoCr(old(m_source[m_ptr..]))
      {
        assert m_source[m_ptr..][1..] == m_source[m_ptr + 1..];
        m_ptr := m_ptr + 1;
      }
      m_atEOF := m_ptr == |m_source|;
      if m_atEOF {
        m_ch := '\0';
      } else {
        assert m_source[m_ptr..][1..] == m_source[m_ptr + 1..];
        m_ch := m_source[m_ptr];
        m_ptr := m_ptr + 1;
      }
    }

    method nextChar()
      requires Valid()
      modifies this
      ensures Valid() && Rest() == if old(Rest()) == "" then "" else old(Rest())[1..]
    {
      nextByte();
    }

    method skipSpace()
      requires Valid()
      modifies this
      ensures Valid() && Rest() == SkipSpace(old(Rest()))
    {
      while IsSpace(m_ch)
        invariant Valid() && SkipSpace(Rest()) == SkipSpace(old(Rest()))
        decreases |Rest()|
      {
        nextChar();
      }
    }

    /** The loop over comment lines. */
    method skipComments()
      requires Valid()
      modifies this
      ensures Valid() && Rest() == SkipComments(old(Rest()))
    {
      while m_ch == '#'
        invariant Valid() && SkipComments(Rest()) == SkipComments(old(Rest()))
        decreases |Rest()|
      {
        ghost var r := Rest();
        skipLine();
        if m_ch == '\n' { nextChar(); }
        skipSpace();
      }
    }

    method skipLine()
      requires Valid() && m_ch == '#'
      modifies this
      ensures Valid() && Rest() == SkipLine(old(Rest())[1..]) && |Rest()| < old(|Rest()|)
    {
      while !m_atEOF && m_ch != '\n'
        invariant Valid() && SkipLine(Rest()) == SkipLine(old(Rest())) == SkipLine(old(Rest())[1..])
        decreases |Rest()|
      {
        nextChar();
      }
    }

    /** nextToken */
    method nextToken() returns (token: Token)
      requires Valid()
      modifies this
      ensures Valid() && (token, Rest()) == Lexeme(m_expand, old(Rest()))
      decreases |Rest()|
    {
      hide StringBody, BlockBody, SkipComments, WhileIdentifier, WhileLetter, Keyword, Function, HasTwoDots, NoCr;
      skipSpace();
      ghost var t := Rest();
      if m_atEOF { return Token(Eof, "<end of string>"); }
      match m_ch
      case '?' =>
        nextChar();
        if m_ch == '=' { nextChar(); token := Token(QuestionEquals, "?="); } else { token := Token(Unknown, ""); }
      case '!' =>
        nextChar();
        if m_ch == '=' { nextChar(); token := Token(NotEquals, "!="); } else { token := Token(Not, "!"); }
      case '=' =>
        nextChar();
        if m_ch == '=' { nextChar(); token := Token(EqualsEquals, "=="); } else { token := Token(Equals, "="); }
      case '&' => token := doubled(And);
      case '|' => token := doubled(Or);
      case '@' => token := keyword();
      case '"' => token := consumeString();
      case '<' =>
        nextChar();
        if m_ch != '%' { return Token(Unknown, "<"); }
        nextChar();
        token := consumeBlockString();
      case '#' =>
        skipComments();
        token := nextToken();
      case c =>
        if Punctuation(c).Some? {
          nextChar();
          token := Token(Punctuation(c).value, [c]);
        } else if IsIdentifierChar(c) {
          token := name();
        } else {
          nextChar();
          token := Token(Unknown, [c]);
        }
    }

    /** && and || */
    method doubled(sym: Symbol) returns (token: Token)
      requires Valid() && !m_atEOF && sym != Eof
      modifies this
      ensures Valid() && (token, Rest()) == Doubled(old(m_ch), sym, old(Rest())[1..])
    {
      var c := m_ch;
      nextChar();
      if m_ch == c {
        nextChar();
        token := Token(sym, [c, c]);
      } else {
        token := Token(Unknown, [c] + (if m_atEOF then "" else [m_ch]));
      }
    }

    /** The keywords begin with '@'. */
    method keyword() returns (token: Token)
      requires Valid() && !m_atEOF
      modifies this
      ensures Valid()
      ensures var n := 1 + WhileLetter(old(Rest())[1..]);
              n <= |old(Rest())| && token == Token(Keyword(old(Rest())[..n]), old(Rest())[..n]) && Rest() == old(Rest())[n..]
    {
      hide NoCr, Keyword, WhileLetter;
      ghost var t := Rest();
      var spelling := [m_ch];
      nextChar();
      var letters := letters();
      spelling := spelling + letters;
      assert t == spelling + Rest();
      token := Token(Keyword(spelling), spelling);
    }

    method letters() returns (spelling: string)
      requires Valid()
      modifies this
      ensures Valid() && old(Rest()) == spelling + Rest() && |spelling| == WhileLetter(old(Rest()))
    {
      hide NoCr, IsLetter, WhileLetter;
      ghost var t := Rest();
      spelling := "";
      while !m_atEOF && IsLetter(m_ch)
        invariant Valid() && t == spelling + Rest()
        invariant WhileLetter(t) == |spelling| + WhileLetter(Rest())
        decreases |Rest()|
      {
        Shift(spelling, Rest());
        LetterFirst(Rest());
        spelling := spelling + [m_ch];
        nextChar();
      }
      LetterFirst(Rest());
    }

    /** The identifier characters at the front. */
    method identifier() returns (spelling: string)
      requires Valid() && !m_atEOF && IsIdentifierChar(m_ch)
      modifies this
      ensures Valid() && old(Rest()) == spelling + Rest() && |spelling| == WhileIdentifier(old(Rest()))
    {
      hide NoCr, IsIdentifierChar;
      ghost var t := Rest();
      spelling := [m_ch];
      nextChar();
      while !m_atEOF && IsIdentifierChar(m_ch)
        invariant Valid() && t == spelling + Rest() && |spelling| > 0
        invariant WhileIdentifier(t) == |spelling| + WhileIdentifier(Rest())
        decreases |Rest()|
      {
        Shift(spelling, Rest());
        spelling := spelling + [m_ch];
        nextChar();
      }
    }

    /** An identifier, or a function with the parenthesis that follows it immediately. */
    method name() returns (token: Token)
      requires Valid() && !m_atEOF && IsIdentifierChar(m_ch)
      modifies this
      ensures Valid() && (token, Rest()) == Name(m_expand, old(Rest()))
    {
      hide NoCr, WhileIdentifier;
      ghost var t := Rest();
      var spelling := identifier();
      assert t[..|spelling|] == spelling && t[|spelling|..] == Rest();
      if m_ch == '(' {
        assert t[..|spelling| + 1] == spelling + ['('];
        spelling := spelling + [m_ch];
        nextChar();
        return Token(Function(spelling), spelling);
      }
      if spelling == "." {
        token := Token(SoleDot, spelling);
      } else if HasTwoDots(spelling) {
        token := Token(TwoDots, spelling);
      } else {
        match m_expand(spelling)
        case Some(expanded) => token := Token(Ident, expanded);
        case None => token := Token(IllegalIdent, spelling);
      }
    }

    /** consumeString: the token, its spelling, and the text behind it are those of StringBody. In
        the source an invalid escape sequence throws. */
    method consumeString() returns (token: Token)
      requires Valid() && m_ch == '"'
      modifies this
      ensures Valid() && (token.sym, token.spelling, Rest()) == StringBody(old(Rest())[1..])
    {
      nextChar();
      var spelling := "";
      ghost var body := Rest();
      PrefixEnds("", StringBody(body));
      while m_ch != '"'
        invariant Valid() && StringBody(body) == Prefixed(spelling, StringBody(Rest()))
        decreases |Rest()|
      {
        hide StringBody;
        ghost var s := Rest();
        StringBodyStep(s);
        PrefixEnds(spelling, StringBody(s));
        if |s| > 0 { EscapePrefixes(spelling, StringBody(s[1..])); }
        if |s| > 1 { EscapePrefixes(spelling, StringBody(s[2..])); }
        if m_atEOF || m_ch == '\n' { return Token(StringWithEol, spelling); }
        if m_ch == '%' {
          nextChar();
          if m_atEOF || m_ch == '\n' { return Token(StringWithEol, spelling); }
          match m_ch
          case 't' => spelling := spelling + ['\t'];
          case 'n' => spelling := spelling + ['\n'];
          case '%' => spelling := spelling + ['%'];
          case '"' => spelling := spelling + ['"'];
          case _ => return Token(BadEscape, spelling);
        } else {
          spelling := spelling + [m_ch];
        }
        nextChar();
      }
      PrefixEnds(spelling, StringBody(Rest()));
      nextChar();
      token := Token(Str, spelling);
    }

    /** consumeBlockString, after the opening mark. */
    method consumeBlockString() returns (token: Token)
      requires Valid()
      modifies this
      ensures Valid() && (token.sym, token.spelling, Rest()) == BlockBody(old(Rest()))
    {
      var spelling, prevCh := "", ' ';
      assert [prevCh] + Rest() == [' '] + Rest();
      while !(prevCh == '%' && m_ch == '>')
        invariant Valid() && BlockState(spelling, prevCh, Rest(), old(Rest()))
        decreases |Rest()|
      {
        BlockStep(spelling, prevCh, Rest(), old(Rest()));
        if m_atEOF { return Token(BlockStringWithEof, spelling); }
        spelling := spelling + [m_ch];
        prevCh := m_ch;
        nextChar();
      }
      BlockEnd(spelling, Rest(), old(Rest()));
      spelling := spelling[..|spelling| - 1];
      nextChar();
      token := Token(Str, spelling);
    }
  }

  lemma Shift(p: string, s: string)
    requires |s| > 0
    ensures p + s == p + [s[0]] + s[1..]
  {}

  lemma LetterFirst(s: string)
    ensures WhileLetter(s) == if |s| > 0 && IsLetter(s[0]) then 1 + WhileLetter(s[1..]) else 0
  {}

  /** The result of a scan that has taken in the characters of prefix before. */
  function Prefixed(prefix: string, r: (Symbol, string, string)): (Symbol, string, string) { (r.0, prefix + r.1, r.2) }

  lemma PrefixEnds(p: string, r: (Symbol, string, string))
    ensures Prefixed("", r) == r && Prefixed(p, (r.0, "", r.2)) == (r.0, p, r.2)
  {
    assert "" + r.1 == r.1 && p + "" == p;
  }

  lemma StringBodyStep(s: string)
    ensures |s| == 0 || s[0] == '\n' ==> StringBody(s) == (StringWithEol, "", s)
    ensures |s| > 0 && s[0] != '\n' && s[0] != '"' && s[0] != '%' ==> StringBody(s) == Prefixed([s[0]], StringBody(s[1..]))
    ensures |s| > 0 && s[0] == '%' ==>
              if |s| == 1 || s[1] == '\n' then StringBody(s) == (StringWithEol, "", s[1..])
              else if s[1] == 't' then StringBody(s) == Prefixed(['\t'], StringBody(s[2..]))
              else if s[1] == 'n' then StringBody(s) == Prefixed(['\n'], StringBody(s[2..]))
              else if s[1] == '%' || s[1] == '"' then StringBody(s) == Prefixed([s[1]], StringBody(s[2..]))
              else StringBody(s) == (BadEscape, "", s[1..])
  {}

  lemma EscapePrefixes(p: string, r: (Symbol, string, string))
    ensures forall c :: Prefixed(p, Prefixed([c], r)) == Prefixed(p + [c], r)
  {
    forall c ensures Prefixed(p, Prefixed([c], r)) == Prefixed(p + [c], r) {
      Reprefixed(p, [c], r);
    }
  }

  /** Where the scan of a block string is: all but the last character taken in are surely part of
      it; the last may belong to the closing mark. */
  ghost predicate BlockState(spelling: string, prevCh: char, rest: string, body: string)
  {
    if |spelling| == 0 then prevCh == ' ' && rest == body
    else prevCh == spelling[|spelling| - 1]
         && BlockBody(body) == Prefixed(spelling[..|spelling| - 1], BlockBody([prevCh] + rest))
  }

  lemma BlockStep(spelling: string, prevCh: char, rest: string, body: string)
    requires BlockState(spelling, prevCh, rest, body) && !(prevCh == '%' && StartsWith(rest, '>'))
    ensures |rest| == 0 ==> BlockBody(body) == (BlockStringWithEof, spelling, "")
    ensures |rest| > 0 ==> BlockState(spelling + [rest[0]], rest[0], rest[1..], body)
  {
    var s := [prevCh] + rest;
    assert s[1..] == rest;
    PrefixEnds(spelling, BlockBody(rest));
    if |rest| > 0 {
      assert [rest[0]] + rest[1..] == rest;
      assert (spelling + [rest[0]])[..|spelling|] == spelling;
    }
    if |spelling| == 0 {
      PrefixEnds("", BlockBody(rest));
    } else {
      assert BlockBody(s) == Prefixed([prevCh], BlockBody(rest));
      assert spelling[..|spelling| - 1] + [prevCh] == spelling;
      Reprefixed(spelling[..|spelling| - 1], [prevCh], BlockBody(rest));
    }
  }

  lemma Reprefixed(p: string, q: string, r: (Symbol, string, string))
    ensures Prefixed(p, Prefixed(q, r)) == Prefixed(p + q, r)
  {
    assert p + (q + r.1) == p + q + r.1;
  }

  lemma BlockEnd(spelling: string, rest: string, body: string)
    requires BlockState(spelling, '%', rest, body) && StartsWith(rest, '>')
    ensures |spelling| > 0 && BlockBody(body) == (Str, spelling[..|spelling| - 1], rest[1..])
  {
    assert (['%'] + rest)[2..] == rest[1..];
    PrefixEnds(spelling[..|spelling| - 1], (Str, "", rest[1..]));
  }
}
