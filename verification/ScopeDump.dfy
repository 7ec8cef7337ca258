/** ConfigScope::dump over the hash table itself: names are listed in the order of the buckets, then
    sorted, and each item is found again by its name. */
module ScopeDump {
  import opened Wrappers
  import opened ConfigPaths
  import opened ConfigSyntax
  import opened ConfigText
  import opened SortedEntries
  import ConfigPrinter
  import ConfigRoundTrip
  import ConfigParsing
  import Scopes = ConfigScopes

  const CFG_VARIABLES := 3
  const CFG_SCOPE := 4

  /** All objects of the table are in foot. */
  ghost predicate Within(scope: Scopes.ConfigScope, foot: set<object>)
    reads foot
  {
    scope in foot && scope.m_table in foot && (forall h :: h in scope.heads ==> h in foot) && scope.entries.Values <= foot
  }

  /** The hash table holds exactly these entries, nested scopes included. */
  ghost predicate Represents(scope: Scopes.ConfigScope, es: Entries, foot: set<object>)
    reads foot
    decreases es, 1
  {
    Within(scope, foot) && scope.Valid() && Sorted(es)
    && (forall n :: n in scope.Contents() <==> Find(es, n).Some?)
    && (forall i :: 0 <= i < |es| ==> es[i].name in scope.Contents() && Means(scope.Contents()[es[i].name], es[i].item, foot))
  }

  ghost predicate Means(item: Scopes.ConfigItem, value: Item, foot: set<object>)
    reads foot
    decreases value, 0
  {
    match value
    case StringItem(s) => item == Scopes.StringItem(s)
    case ListItem(l) => item == Scopes.ListItem(l)
    case ScopeItem(es) => item.ScopeItem? && Represents(item.scope, es, foot)
  }

  // ---------- sorting names ----------

  predicate Increasing(names: seq<string>) { forall i, j :: 0 <= i < j < |names| ==> Less(names[i], names[j]) }

  predicate Different(names: seq<string>) { forall i, j :: 0 <= i < j < |names| ==> names[i] != names[j] }

  /** Where name belongs in an increasing list. */
  method PlaceOf(names: seq<string>, name: string) returns (k: nat)
    requires Increasing(names) && name !in names
    ensures k <= |names| && (forall i :: 0 <= i < k ==> Less(names[i], name)) && (forall i :: k <= i < |names| ==> Less(name, names[i]))
  {
    hide Less;
    k := 0;
    while k < |names| && Less(names[k], name)
      invariant 0 <= k <= |names| && forall i :: 0 <= i < k ==> Less(names[i], name)
    {
      k := k + 1;
    }
    forall i | k <= i < |names| ensures Less(name, names[i]) {
      LessTotal(name, names[k]);
      if i > k { LessTransitive(name, names[k], names[i]); }
    }
  }

  /** StringVector::sort, for names that differ. */
  method SortNames(names: seq<string>) returns (sorted: seq<string>)
    requires Different(names)
    ensures Increasing(sorted) && forall n :: n in sorted <==> n in names
  {
    hide Less;
    sorted := [];
    var i := 0;
    while i < |names|
      invariant 0 <= i <= |names| && Increasing(sorted) && forall n :: n in sorted <==> n in names[..i]
    {
      var k := PlaceOf(sorted, names[i]);
      sorted := sorted[..k] + [names[i]] + sorted[k..];
      assert names[..i + 1] == names[..i] + [names[i]];
      i := i + 1;
    }
    assert names[..i] == names;
  }

  // ---------- entries of one kind ----------

  /** The entries that are scopes, or those that are not. */
  function OfKind(es: Entries, scopes: bool): Entries
  {
    if |es| == 0 then [] else (if es[0].item.ScopeItem? == scopes then [es[0]] else []) + OfKind(es[1..], scopes)
  }

  function Names(es: Entries): (names: seq<string>)
    ensures |names| == |es| && forall i :: 0 <= i < |es| ==> names[i] == es[i].name
  {
    seq(|es|, i requires 0 <= i < |es| => es[i].name)
  }

  /** A pass prints the entries of its kind, in their order. */
  lemma {:induction false} PassOfKind(es: Entries, level: nat, scopes: bool)
    ensures PassText(OfKind(es, scopes), level, scopes) == PassText(es, level, scopes)
  {
    hide ItemText;
    if |es| > 0 {
      PassOfKind(es[1..], level, scopes);
      if es[0].item.ScopeItem? == scopes {
        assert OfKind(es, scopes)[1..] == OfKind(es[1..], scopes);
      } else {
        assert OfKind(es, scopes) == OfKind(es[1..], scopes);
        assert PassText(es, level, scopes) == "" + PassText(es[1..], level, scopes);
      }
    }
  }

  lemma {:induction false} KindMembers(es: Entries, scopes: bool, e: Entry)
    ensures e in OfKind(es, scopes) <==> e in es && e.item.ScopeItem? == scopes
  {
    if |es| > 0 {
      KindMembers(es[1..], scopes, e);
      assert es == [es[0]] + es[1..];
    }
  }

  lemma {:induction false} KindSorted(es: Entries, scopes: bool)
    requires Sorted(es)
    ensures Sorted(OfKind(es, scopes))
  {
    hide Less;
    if |es| > 0 {
      KindSorted(es[1..], scopes);
      var rest := OfKind(es[1..], scopes);
      forall j | 0 <= j < |rest| ensures Less(es[0].name, rest[j].name) {
        KindMembers(es[1..], scopes, rest[j]);
        var i :| 0 <= i < |es[1..]| && es[1..][i] == rest[j];
        assert es[i + 1] == rest[j];
      }
    }
  }

  /** Two increasing lists of the same names are the same. */
  lemma {:induction false} SameIncreasing(a: seq<string>, b: seq<string>)
    requires Increasing(a) && Increasing(b) && forall n :: n in a <==> n in b
    ensures a == b
  {
    hide Less;
    assert |a| > 0 ==> a[0] in b;
    assert |b| > 0 ==> b[0] in a;
    if |a| > 0 && |b| > 0 {
      LeastFirst(a, b);
      assert a == [a[0]] + a[1..] && b == [b[0]] + b[1..];
      forall n ensures n in a[1..] <==> n in b[1..] {
        NotAgain(a);
        NotAgain(b);
        assert n in a <==> n in b;
      }
      SameIncreasing(a[1..], b[1..]);
    }
  }

  lemma NotAgain(a: seq<string>)
    requires |a| > 0 && Increasing(a)
    ensures a[0] !in a[1..]
  {
    hide Less;
    forall j | 0 < j < |a| ensures a[j] != a[0] { LessIrreflexive(a[0]); }
  }

  lemma LeastFirst(a: seq<string>, b: seq<string>)
    requires |a| > 0 && |b| > 0 && Increasing(a) && Increasing(b) && forall n :: n in a <==> n in b
    ensures a[0] == b[0]
  {
    hide Less;
    assert a[0] in b && b[0] in a;
    var i :| 0 <= i < |b| && b[i] == a[0];
    var j :| 0 <= j < |a| && a[j] == b[0];
    if i > 0 && j > 0 {
      LessTransitive(a[0], b[0], a[0]);
      LessIrreflexive(a[0]);
    }
  }

  // ---------- the listed names ----------

  /** The bit of an item's type is in the mask for its kind. */
  lemma MaskIsKind(item: Scopes.ConfigItem, value: Item, foot: set<object>, scopes: bool)
    requires Means(item, value, foot)
    ensures Scopes.InMask(item, if scopes then CFG_SCOPE else CFG_VARIABLES) <==> value.ScopeItem? == scopes
  {
    hide Represents, Scopes.ConfigScope.Valid;
  }

  /** Listed and sorted, the names are those of the entries of the kind, in their order. */
  lemma ListedNames(scope: Scopes.ConfigScope, es: Entries, foot: set<object>, scopes: bool, names: seq<string>)
    requires Represents(scope, es, foot) && Increasing(names)
    requires var mask := if scopes then CFG_SCOPE else CFG_VARIABLES;
             forall n :: n in names <==> n in scope.Contents() && Scopes.InMask(scope.Contents()[n], mask)
    ensures names == Names(OfKind(es, scopes))
  {
    hide Less, Scopes.InMask, Scopes.ConfigScope.Valid;
    var kind := Names(OfKind(es, scopes));
    KindSorted(es, scopes);
    forall n ensures n in names <==> n in kind {
      if n in names {
        FindIn(es, n);
        var i :| 0 <= i < |es| && es[i].name == n;
        MaskIsKind(scope.Contents()[n], es[i].item, foot, scopes);
        KindMembers(es, scopes, es[i]);
        var k :| 0 <= k < |OfKind(es, scopes)| && OfKind(es, scopes)[k] == es[i];
        assert kind[k] == n;
      }
      if n in kind {
        var k :| 0 <= k < |kind| && kind[k] == n;
        var i := KindIndex(es, scopes, k);
        MaskIsKind(scope.Contents()[n], es[i].item, foot, scopes);
      }
    }
    SameIncreasing(names, kind);
  }

  lemma KindIndex(es: Entries, scopes: bool, k: nat) returns (i: nat)
    requires k < |OfKind(es, scopes)|
    ensures i < |es| && es[i] == OfKind(es, scopes)[k] && es[i].item.ScopeItem? == scopes
  {
    KindMembers(es, scopes, OfKind(es, scopes)[k]);
    i :| 0 <= i < |es| && es[i] == OfKind(es, scopes)[k];
  }

  /** A name in the table is hashable. */
  lemma NameHashable(scope: Scopes.ConfigScope, name: string)
    requires scope.Valid() && name in scope.Contents()
    ensures Scopes.Hashable(name)
  {
    assert Scopes.Placed(name, scope.nodes, scope.entries);
    var h := Scopes.HashOf(name, |scope.nodes|);
    assert Scopes.Members(scope.nodes[h], h, |scope.nodes|, scope.entries);
    assert Scopes.Sits(scope.entries[name], h, |scope.nodes|, scope.entries);
  }

  lemma Listable(scope: Scopes.ConfigScope, es: Entries, foot: set<object>)
    requires Represents(scope, es, foot)
    ensures scope.Valid()
  {}

  /** Entry k of a kind, found by its name. */
  lemma NextEntry(scope: Scopes.ConfigScope, es: Entries, foot: set<object>, scopes: bool, k: nat) returns (j: nat)
    requires Represents(scope, es, foot) && k < |OfKind(es, scopes)|
    ensures j < |es| && es[j] == OfKind(es, scopes)[k] && es[j].item.ScopeItem? == scopes
    ensures scope.Structured() && Scopes.Hashable(es[j].name)
    ensures es[j].name in scope.Contents() && Means(scope.Contents()[es[j].name], es[j].item, foot)
  {
    hide OfKind, Means, Less;
    j := KindIndex(es, scopes, k);
    NameHashable(scope, es[j].name);
  }

  // ---------- the loops ----------

  /** ConfigScope::dump: the variables, then the nested scopes. */
  method dump(scope: Scopes.ConfigScope, ghost es: Entries, ghost foot: set<object>, buf: string, indentLevel: nat) returns (r: string)
    requires Represents(scope, es, foot)
    ensures r == buf + ScopeText(es, indentLevel)
    decreases es, 2
  {
    hide PassText, Represents;
    r := dumpPass(scope, es, foot, buf, indentLevel, false);
    r := dumpPass(scope, es, foot, r, indentLevel, true);
  }

  method dumpPass(scope: Scopes.ConfigScope, ghost es: Entries, ghost foot: set<object>, buf: string, indentLevel: nat, scopes: bool)
    returns (r: string)
    requires Represents(scope, es, foot)
    ensures r == buf + PassText(es, indentLevel, scopes)
    decreases es, 1
  {
    hide ItemText, Scopes.ConfigScope.Valid, Scopes.ConfigScope.Structured, Scopes.InMask, Less, Represents, Means, OfKind;
    Listable(scope, es, foot);
    var nameVec := scope.listLocalNames(if scopes then CFG_SCOPE else CFG_VARIABLES);
    nameVec := SortNames(nameVec);
    ListedNames(scope, es, foot, scopes, nameVec);
    ghost var kind := OfKind(es, scopes);
    PassOfKind(es, indentLevel, scopes);
    r := buf;
    var i := 0;
    while i < |nameVec|
      invariant 0 <= i <= |nameVec| && r + PassText(kind[i..], indentLevel, scopes) == buf + PassText(kind, indentLevel, scopes)
    {
      ghost var j := NextEntry(scope, es, foot, scopes, i);
      var item := scope.findItem(nameVec[i]);
      r := dumpItem(item, nameVec[i], es[j].item, foot, r, indentLevel);
      assert kind[i..][1..] == kind[i + 1..];
      i := i + 1;
    }
  }

  /** ConfigItem::dump */
  method dumpItem(item: Scopes.ConfigItem, name: string, ghost value: Item, ghost foot: set<object>, buf: string, indentLevel: nat)
    returns (r: string)
    requires Means(item, value, foot)
    ensures r == buf + ItemText(Entry(name, value), indentLevel)
    decreases value, 0
  {
    hide Escaped, Indent, ListText, ScopeText, Represents;
    r := ConfigPrinter.printIndent(buf, indentLevel);
    match item
    case NoItem =>
    case StringItem(s) =>
      var escStr := ConfigPrinter.escapeString(s);
      r := r + name + " = \"" + escStr + "\";\n";
      assert Quoted(s) + ";\n" == "\"" + escStr + "\";\n";
    case ListItem(l) =>
      r := r + name + " = [";
      r := ConfigPrinter.dumpList(r, l);
      r := r + "];\n";
    case ScopeItem(scope) =>
      r := r + name + " {\n";
      r := dump(scope, value.entries, foot, r, indentLevel + 1);
      r := ConfigPrinter.printIndent(r, indentLevel);
      r := r + "}\n";
  }

  // ---------- the round trip of a hash table ----------

  /** A hash table represents one list of entries only. */
  lemma {:induction false} OneMeaning(scope: Scopes.ConfigScope, a: Entries, b: Entries, foot: set<object>)
    requires Represents(scope, a, foot) && Represents(scope, b, foot)
    ensures a == b
    decreases a, 1
  {
    hide Scopes.ConfigScope.Valid, Less, Sorted, Means;
    forall m ensures Find(a, m) == Find(b, m) {
      assert Find(a, m).Some? <==> Find(b, m).Some?;
      FindIn(a, m);
      FindIn(b, m);
      if Find(a, m).Some? {
        var i :| 0 <= i < |a| && a[i].name == m;
        var j :| 0 <= j < |b| && b[j].name == m;
        ConfigRoundTrip.FindAt(a, i);
        ConfigRoundTrip.FindAt(b, j);
        OneItem(scope.Contents()[m], a[i].item, b[j].item, foot);
      }
    }
    Canonical(a, b);
  }

  lemma {:induction false} OneItem(item: Scopes.ConfigItem, a: Item, b: Item, foot: set<object>)
    requires Means(item, a, foot) && Means(item, b, foot)
    ensures a == b
    decreases a, 0
  {
    hide Represents;
    if item.ScopeItem? { OneMeaning(item.scope, a.entries, b.entries, foot); }
  }

  /** Printing a hash table and parsing the text gives the contents of the table, but for carriage
      returns in values. */
  method DumpAndParse(scope: Scopes.ConfigScope, ghost es: Entries, ghost foot: set<object>, expand: Expand, env: Env)
    returns (ok: bool, contents: Entries)
    requires Represents(scope, es, foot) && ConfigRoundTrip.Legal(expand, es) && '\0' !in ScopeText(es, 0)
    ensures ok && contents == ConfigRoundTrip.Stripped(es) && (contents == es <==> ConfigRoundTrip.WithoutCr(es))
  {
    hide Represents, ScopeText, ConfigRoundTrip.Legal, ConfigRoundTrip.Stripped, ConfigRoundTrip.WithoutCr, Tokens, ParseAll;
    var text := dump(scope, es, foot, "", 0);
    assert "" + ScopeText(es, 0) == ScopeText(es, 0);
    ConfigRoundTrip.RoundTrip(env, expand, es);
    ok, contents := ConfigParsing.parse(text, expand, env, []);
  }
}
