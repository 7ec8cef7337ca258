/** The printing loops of ConfigItem.cpp, appending to a buffer. */
module ConfigPrinter {
  import opened Wrappers
  import opened ConfigPaths
  import opened ConfigSyntax
  import opened ConfigText

  method escapeString(str: string) returns (buf: string)
    ensures buf == Escaped(str)
  {
    buf := "";
    var i := 0;
    while i < |str|
      invariant 0 <= i <= |str| && buf + Escaped(str[i..]) == Escaped(str)
    {
      assert str[i..][1..] == str[i + 1..];
      ghost var rest := Escaped(str[i + 1..]);
      assert buf + (EscapedChar(str[i]) + rest) == buf + EscapedChar(str[i]) + rest;
      match str[i] {
        case '\t' => buf := buf + "%t";
        case '\n' => buf := buf + "%n";
        case '%' => buf := buf + "%%";
        case '"' => buf := buf + "%\"";
        case c => buf := buf + [c];
      }
      i := i + 1;
    }
  }

  method printIndent(buf: string, indentLevel: nat) returns (r: string)
    ensures r == buf + Indent(indentLevel)
  {
    r := buf;
    var i := 0;
    while i < indentLevel
      invariant 0 <= i <= indentLevel && r + Indent(indentLevel - i) == buf + Indent(indentLevel)
    {
      assert r + "\t" + Indent(indentLevel - i - 1) == r + Indent(indentLevel - i);
      r := r + "\t";
      i := i + 1;
    }
  }

  method dumpList(buf: string, list: seq<string>) returns (r: string)
    ensures r == buf + ListText(list)
  {
    hide Escaped;
    r := buf;
    var i := 0;
    while i < |list|
      invariant 0 <= i <= |list| && r + ListText(list[i..]) == buf + ListText(list)
    {
      ghost var before := r;
      assert list[i..][1..] == list[i + 1..];
      var escStr := escapeString(list[i]);
      r := r + "\"" + escStr + "\"";
      if i < |list| - 1 { r := r + ", "; }
      assert before + ListText(list[i..]) == r + ListText(list[i + 1..]);
      i := i + 1;
    }
  }
}
