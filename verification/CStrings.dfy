/** Strings as the C++ sources hold them. */
module CStrings {

  /** isspace, for characters of one byte */
  predicate IsSpace(c: char) { c == ' ' || '\t' <= c <= '\r' }

  /** A text as a C string: what comes before its first NUL. */
  function CText(s: string): (t: string)
    ensures '\0' !in t && ('\0' !in s ==> t == s)
  {
    if |s| == 0 || s[0] == '\0' then "" else [s[0]] + CText(s[1..])
  }
}
