/** Assignment to a dotted name in a tree of hash tables: ConfigurationImpl::insertString, insertList
    and ensureScopeExists walk down and change the tables that the walk meets. */
module ScopeTrees {
  import opened Wrappers
  import opened ConfigPaths
  import opened SortedEntries
  import PathLaws
  import ScopeDump
  import Scopes = ConfigScopes

  /** The objects of the hash table at every path of scope names. */
  type Shape = map<seq<string>, set<object>>

  /** No two tables share an object. */
  ghost predicate Apart(shape: Shape)
  {
    forall a, b :: a in shape && b in shape && a != b ==> shape[a] !! shape[b]
  }

  ghost function OwnOf(shape: Shape, at: seq<string>): set<object> { if at in shape then shape[at] else {} }

  /** The objects of the tables at a path and inside. */
  ghost function Below(shape: Shape, at: seq<string>): set<object>
  {
    set b, o | b in shape && at <= b && o in shape[b] :: o
  }

  /** Those strictly inside. */
  ghost function Inside(shape: Shape, at: seq<string>): set<object>
  {
    set b, o | b in shape && at <= b && at != b && o in shape[b] :: o
  }

  /** Those of the tables at a path and inside, but not at the other path or inside that. */
  ghost function Beside(shape: Shape, at: seq<string>, hole: seq<string>): set<object>
  {
    set b, o | b in shape && at <= b && !(hole <= b) && o in shape[b] :: o
  }

  lemma InnerBelow(shape: Shape, at: seq<string>, name: string)
    ensures Below(shape, at + [name]) <= Inside(shape, at) <= Below(shape, at) && OwnOf(shape, at) <= Below(shape, at)
  {
    forall b | b in shape && at + [name] <= b ensures at <= b && at != b { Longer(at, name, b); }
  }

  lemma Longer(at: seq<string>, name: string, b: seq<string>)
    requires at + [name] <= b
    ensures at <= b && at != b && b[|at|] == name
  {
    assert at == (at + [name])[..|at|] == b[..|at|];
  }

  lemma OtherBeside(shape: Shape, at: seq<string>, name: string, other: string)
    ensures other != name ==> Below(shape, at + [other]) <= Beside(shape, at, at + [name])
    ensures OwnOf(shape, at) <= Beside(shape, at, at + [name])
  {
    forall b | b in shape && at + [other] <= b && other != name ensures at <= b && !(at + [name] <= b) {
      Longer(at, other, b);
      if at + [name] <= b { Longer(at, name, b); }
    }
  }

  lemma DeeperBeside(shape: Shape, at: seq<string>, names: seq<string>)
    requires |names| > 0
    ensures Beside(shape, at + [names[0]], at + [names[0]] + names[1..]) <= Beside(shape, at, at + names)
    ensures OwnOf(shape, at) <= Beside(shape, at, at + [names[0]]) <= Beside(shape, at, at + names)
  {
    var name := names[0];
    assert at + [name] + names[1..] == at + names;
    forall b | b in shape && at + [name] <= b ensures at <= b { Longer(at, name, b); }
    forall b | b in shape && at + [name] + names[1..] <= b ensures at + [name] <= b {
      assert at + [name] == (at + [name] + names[1..])[..|at| + 1] == b[..|at| + 1];
    }
    OtherBeside(shape, at, name, name);
  }

  // ---------- trees of tables ----------

  /** The table is valid, and its objects are those given for its path. */
  ghost predicate Own(scope: Scopes.ConfigScope, at: seq<string>, shape: Shape)
    reads OwnOf(shape, at)
  {
    at in shape && ScopeDump.Within(scope, shape[at]) && scope.Repr == shape[at] && scope.Valid()
  }

  ghost predicate Named(contents: map<string, Scopes.ConfigItem>, es: Entries)
  {
    forall n :: n in contents <==> Find(es, n).Some?
  }

  /** The table holds exactly these entries, nested scopes included, each with objects of its own. */
  ghost predicate Tree(scope: Scopes.ConfigScope, es: Entries, at: seq<string>, shape: Shape)
    reads Below(shape, at)
    decreases es, 2
  {
    InnerBelow(shape, at, "");
    Own(scope, at, shape) && Sorted(es) && Named(scope.Contents(), es) && Subtrees(scope.Contents(), es, at, shape)
  }

  ghost predicate Subtrees(contents: map<string, Scopes.ConfigItem>, es: Entries, at: seq<string>, shape: Shape)
    reads Inside(shape, at)
    decreases es, 1
  {
    forall i :: 0 <= i < |es| ==> EntryTree(contents, es[i], at, shape)
  }

  ghost predicate EntryTree(contents: map<string, Scopes.ConfigItem>, e: Entry, at: seq<string>, shape: Shape)
    reads Below(shape, at + [e.name])
    decreases e, 0
  {
    e.name in contents && ItemTree(contents[e.name], e.item, at + [e.name], shape)
  }

  ghost predicate ItemTree(item: Scopes.ConfigItem, value: Item, at: seq<string>, shape: Shape)
    reads Below(shape, at)
    decreases value, 0
  {
    match value
    case StringItem(s) => item == Scopes.StringItem(s)
    case ListItem(l) => item == Scopes.ListItem(l)
    case ScopeItem(es) => item.ScopeItem? && Tree(item.scope, es, at, shape)
  }

  /** The same tree, but for the tree of the nested scope of that name, whose table is sub. */
  ghost predicate Level(scope: Scopes.ConfigScope, es: Entries, at: seq<string>, shape: Shape, name: string, sub: Scopes.ConfigScope)
    reads Beside(shape, at, at + [name])
  {
    OtherBeside(shape, at, name, name);
    Own(scope, at, shape) && Sorted(es) && !IsVariable(Find(es, name))
    && NamedBut(scope.Contents(), es, name, sub) && Others(scope.Contents(), es, at, shape, name)
  }

  ghost predicate NamedBut(contents: map<string, Scopes.ConfigItem>, es: Entries, name: string, sub: Scopes.ConfigScope)
  {
    name in contents && contents[name] == Scopes.ScopeItem(sub) && forall n :: n != name ==> (n in contents <==> Find(es, n).Some?)
  }

  ghost predicate Others(contents: map<string, Scopes.ConfigItem>, es: Entries, at: seq<string>, shape: Shape, name: string)
    reads Beside(shape, at, at + [name])
  {
    forall i :: 0 <= i < |es| ==> es[i].name == name || (OtherBeside(shape, at, name, es[i].name); EntryTree(contents, es[i], at, shape))
  }

  ghost predicate HasScope(contents: map<string, Scopes.ConfigItem>, name: string) { name in contents && contents[name].ScopeItem? }

  /** The same tree, but for the tree of the scope that names lead to, whose table is hole. */
  ghost predicate TreeBut(scope: Scopes.ConfigScope, es: Entries, at: seq<string>, shape: Shape, names: seq<string>, hole: Scopes.ConfigScope)
    reads Beside(shape, at, at + names)
    decreases |names|, 0
  {
    if |names| == 0 then scope == hole
    else
      DeeperBeside(shape, at, names);
      Own(scope, at, shape) && HasScope(scope.Contents(), names[0])
      && NextLevel(scope, es, at, shape, names, hole, scope.Contents()[names[0]].scope)
  }

  ghost predicate NextLevel(scope: Scopes.ConfigScope, es: Entries, at: seq<string>, shape: Shape, names: seq<string>,
                            hole: Scopes.ConfigScope, sub: Scopes.ConfigScope)
    requires |names| > 0
    reads Beside(shape, at, at + names)
    decreases |names| - 1, 1
  {
    DeeperBeside(shape, at, names);
    Level(scope, es, at, shape, names[0], sub) && TreeBut(sub, Inner(es, names[0]), at + [names[0]], shape, names[1..], hole)
  }

  // ---------- opening and closing a tree ----------

  lemma {:induction false} PutMembers(es: Entries, name: string, item: Item, e: Entry)
    requires Sorted(es) && e in Put(es, name, item)
    ensures e == Entry(name, item) || (e in es && e.name != name)
  {
    hide Less;
    if |es| > 0 {
      LessIrreflexive(name);
      SortedTail(es);
      assert es == [es[0]] + es[1..];
      if Less(name, es[0].name) {
        if e in es { PutApart(es, name, e); }
      } else if es[0].name == name {
        FindIn(es[1..], name);
        if e in es[1..] { var i :| 0 <= i < |es[1..]| && es[1..][i] == e; }
      } else if e != es[0] {
        PutMembers(es[1..], name, item, e);
      }
    }
  }

  lemma PutApart(es: Entries, name: string, e: Entry)
    requires Sorted(es) && |es| > 0 && Less(name, es[0].name) && e in es
    ensures e.name != name
  {
    hide Less;
    var i :| 0 <= i < |es| && es[i] == e;
    if i > 0 { LessTransitive(name, es[0].name, e.name); }
    LessIrreflexive(name);
  }

  /** A table whose contents changed at one name only. */
  lemma SubtreesPut(contents: map<string, Scopes.ConfigItem>, es: Entries, at: seq<string>, shape: Shape, name: string,
                    item: Scopes.ConfigItem, value: Item)
    requires Sorted(es) && Others(contents, es, at, shape, name) && ItemTree(item, value, at + [name], shape)
    ensures Subtrees(contents[name := item], Put(es, name, value), at, shape)
  {
    hide ItemTree, Sorted, Put;
    var c, r := contents[name := item], Put(es, name, value);
    forall i | 0 <= i < |r| ensures EntryTree(c, r[i], at, shape) {
      PutMembers(es, name, value, r[i]);
      if r[i] != Entry(name, value) {
        var j :| 0 <= j < |es| && es[j] == r[i];
        assert EntryTree(contents, es[j], at, shape);
      }
    }
  }

  lemma NamedPut(contents: map<string, Scopes.ConfigItem>, es: Entries, name: string, item: Scopes.ConfigItem, value: Item)
    requires forall n :: n != name ==> (n in contents <==> Find(es, n).Some?)
    ensures Named(contents[name := item], Put(es, name, value))
  {
    hide Find, Put;
    forall n ensures n in contents[name := item] <==> Find(Put(es, name, value), n).Some? { FindPut(es, name, value, n); }
  }

  lemma SubtreesOthers(contents: map<string, Scopes.ConfigItem>, es: Entries, at: seq<string>, shape: Shape, name: string)
    requires Subtrees(contents, es, at, shape)
    ensures Others(contents, es, at, shape, name)
  {}

  lemma SubtreeOf(contents: map<string, Scopes.ConfigItem>, es: Entries, at: seq<string>, shape: Shape, name: string)
    requires Subtrees(contents, es, at, shape) && Find(es, name).Some?
    ensures name in contents && ItemTree(contents[name], Find(es, name).value, at + [name], shape)
  {
    hide ItemTree;
    var i := FoundWhere(es, name);
    assert EntryTree(contents, es[i], at, shape);
  }

  lemma {:induction false} FoundWhere(es: Entries, name: string) returns (i: nat)
    requires Find(es, name).Some?
    ensures i < |es| && es[i] == Entry(name, Find(es, name).value)
  {
    if es[0].name == name { i := 0; } else {
      i := FoundWhere(es[1..], name);
      i := i + 1;
    }
  }

  /** Another tree is put in its place. */
  lemma Closed(scope: Scopes.ConfigScope, es: Entries, at: seq<string>, shape: Shape, name: string, sub: Scopes.ConfigScope, inner: Entries)
    requires Level(scope, es, at, shape, name, sub) && Tree(sub, inner, at + [name], shape)
    ensures Tree(scope, Put(es, name, ScopeItem(inner)), at, shape)
  {
    hide Own, Sorted, Find, Put, Subtrees, Others, Scopes.ConfigScope.Contents;
    var c := scope.Contents();
    assert c[name := Scopes.ScopeItem(sub)] == c;
    assert ItemTree(Scopes.ScopeItem(sub), ScopeItem(inner), at + [name], shape);
    SubtreesPut(c, es, at, shape, name, Scopes.ScopeItem(sub), ScopeItem(inner));
    NamedPut(c, es, name, Scopes.ScopeItem(sub), ScopeItem(inner));
    PutSorted(es, name, ScopeItem(inner));
  }

  lemma Regrouped(at: seq<string>, names: seq<string>, name: string)
    requires |names| > 0
    ensures at + [names[0]] + names[1..] == at + names
    ensures (names + [name])[0] == names[0] && (names + [name])[1..] == names[1..] + [name]
  {}

  lemma NextSub(scope: Scopes.ConfigScope, es: Entries, at: seq<string>, shape: Shape, names: seq<string>, hole: Scopes.ConfigScope)
    returns (sub: Scopes.ConfigScope)
    requires |names| > 0 && TreeBut(scope, es, at, shape, names, hole)
    ensures Level(scope, es, at, shape, names[0], sub) && TreeBut(sub, Inner(es, names[0]), at + [names[0]], shape, names[1..], hole)
  {
    hide Level, Own;
    sub := scope.Contents()[names[0]].scope;
  }

  lemma ThisLevel(scope: Scopes.ConfigScope, es: Entries, at: seq<string>, shape: Shape, names: seq<string>,
                  hole: Scopes.ConfigScope, sub: Scopes.ConfigScope)
    requires |names| > 0 && Level(scope, es, at, shape, names[0], sub)
    requires TreeBut(sub, Inner(es, names[0]), at + [names[0]], shape, names[1..], hole)
    ensures TreeBut(scope, es, at, shape, names, hole)
  {
    hide Own, Others, Inner, Find;
  }

  /** What is set in the tree of the inner scope is set in the whole tree. */
  lemma {:induction false} ClosedAll(scope: Scopes.ConfigScope, es: Entries, at: seq<string>, shape: Shape, names: seq<string>,
                                     hole: Scopes.ConfigScope, inner: Entries)
    requires TreeBut(scope, es, at, shape, names, hole) && Tree(hole, inner, at + names, shape)
    ensures Tree(scope, ConfigPaths.Within(es, names, inner), at, shape)
    decreases |names|
  {
    hide Level, Tree, Put;
    if |names| == 0 {
      assert at + names == at;
    } else {
      var sub := NextSub(scope, es, at, shape, names, hole);
      Regrouped(at, names, "");
      ClosedAll(sub, Inner(es, names[0]), at + [names[0]], shape, names[1..], hole, inner);
      Closed(scope, es, at, shape, names[0], sub, ConfigPaths.Within(Inner(es, names[0]), names[1..], inner));
    }
  }

  /** The hole is moved one scope further in. */
  lemma {:induction false} Deeper(scope: Scopes.ConfigScope, es: Entries, at: seq<string>, shape: Shape, names: seq<string>,
                                  hole: Scopes.ConfigScope, name: string, sub: Scopes.ConfigScope)
    requires TreeBut(scope, es, at, shape, names, hole) && Level(hole, Contents(es, names), at + names, shape, name, sub)
    ensures TreeBut(scope, es, at, shape, names + [name], sub)
    decreases |names|
  {
    hide Level;
    var all := names + [name];
    if |names| == 0 {
      assert at + names == at && all == [name];
      assert TreeBut(sub, Inner(es, name), at + [name], shape, [], sub);
      ThisLevel(scope, es, at, shape, all, sub, sub);
    } else {
      var next := NextSub(scope, es, at, shape, names, hole);
      Regrouped(at, names, name);
      Deeper(next, Inner(es, names[0]), at + [names[0]], shape, names[1..], hole, name, sub);
      ThisLevel(scope, es, at, shape, all, sub, next);
    }
  }

  // ---------- other shapes ----------

  /** What is at the path or inside is the same in both shapes. */
  ghost predicate SameBelow(shape: Shape, shape': Shape, at: seq<string>)
  {
    forall b :: b in shape && at <= b ==> b in shape' && shape'[b] == shape[b]
  }

  ghost predicate SameInside(shape: Shape, shape': Shape, at: seq<string>, name: string)
  {
    forall b :: b in shape && at <= b && at != b && !(at + [name] <= b) ==> b in shape' && shape'[b] == shape[b]
  }

  ghost predicate SameBeside(shape: Shape, shape': Shape, at: seq<string>, hole: seq<string>)
  {
    forall b :: b in shape && at <= b && !(hole <= b) ==> b in shape' && shape'[b] == shape[b]
  }

  lemma {:induction false} TreeSame(scope: Scopes.ConfigScope, es: Entries, at: seq<string>, shape: Shape, shape': Shape)
    requires Tree(scope, es, at, shape) && SameBelow(shape, shape', at)
    ensures Tree(scope, es, at, shape')
    decreases es, 1
  {
    hide ScopeDump.Within, Scopes.ConfigScope.Valid, Scopes.ConfigScope.Contents, Sorted, ItemTree;
    var c := scope.Contents();
    forall i | 0 <= i < |es| ensures EntryTree(c, es[i], at, shape') {
      assert EntryTree(c, es[i], at, shape);
      DeeperSame(shape, shape', at, es[i].name);
      ItemSame(c[es[i].name], es[i].item, at + [es[i].name], shape, shape');
    }
  }

  lemma DeeperSame(shape: Shape, shape': Shape, at: seq<string>, name: string)
    requires SameBelow(shape, shape', at)
    ensures SameBelow(shape, shape', at + [name])
  {
    forall b | b in shape && at + [name] <= b ensures at <= b { Longer(at, name, b); }
  }

  lemma {:induction false} ItemSame(item: Scopes.ConfigItem, value: Item, at: seq<string>, shape: Shape, shape': Shape)
    requires ItemTree(item, value, at, shape) && SameBelow(shape, shape', at)
    ensures ItemTree(item, value, at, shape')
    decreases value, 0
  {
    hide Tree, SameBelow;
    if value.ScopeItem? { TreeSame(item.scope, value.entries, at, shape, shape'); }
  }

  /** Of the other entries nothing changes. */
  lemma OthersSame(c: map<string, Scopes.ConfigItem>, c': map<string, Scopes.ConfigItem>, es: Entries, at: seq<string>,
                   shape: Shape, shape': Shape, name: string)
    requires Others(c, es, at, shape, name) && (forall n :: n != name && n in c ==> n in c' && c'[n] == c[n])
    requires SameInside(shape, shape', at, name)
    ensures Others(c', es, at, shape', name)
  {
    hide ItemTree, SameBelow;
    forall i | 0 <= i < |es| && es[i].name != name ensures EntryTree(c', es[i], at, shape') {
      assert EntryTree(c, es[i], at, shape);
      OtherSame(shape, shape', at, name, es[i].name);
      ItemSame(c[es[i].name], es[i].item, at + [es[i].name], shape, shape');
    }
  }

  lemma OtherSame(shape: Shape, shape': Shape, at: seq<string>, name: string, other: string)
    requires other != name && SameInside(shape, shape', at, name)
    ensures SameBelow(shape, shape', at + [other])
  {
    forall b | b in shape && at + [other] <= b ensures at <= b && at != b && !(at + [name] <= b) {
      Longer(at, other, b);
      if at + [name] <= b { Longer(at, name, b); }
    }
  }

  lemma LevelSame(scope: Scopes.ConfigScope, es: Entries, at: seq<string>, shape: Shape, shape': Shape, name: string, sub: Scopes.ConfigScope)
    requires Level(scope, es, at, shape, name, sub) && SameBeside(shape, shape', at, at + [name])
    ensures Level(scope, es, at, shape', name, sub)
  {
    hide ScopeDump.Within, Scopes.ConfigScope.Valid, Scopes.ConfigScope.Contents, Sorted, Others, NamedBut, Find;
    OthersSame(scope.Contents(), scope.Contents(), es, at, shape, shape', name);
  }

  lemma {:induction false} TreeButSame(scope: Scopes.ConfigScope, es: Entries, at: seq<string>, shape: Shape, shape': Shape,
                                       names: seq<string>, hole: Scopes.ConfigScope)
    requires TreeBut(scope, es, at, shape, names, hole) && SameBeside(shape, shape', at, at + names)
    ensures TreeBut(scope, es, at, shape', names, hole)
    decreases |names|
  {
    hide Level, SameBeside;
    if |names| > 0 {
      var sub := NextSub(scope, es, at, shape, names, hole);
      BesideSame(shape, shape', at, names);
      LevelSame(scope, es, at, shape, shape', names[0], sub);
      TreeButSame(sub, Inner(es, names[0]), at + [names[0]], shape, shape', names[1..], hole);
      ThisLevel(scope, es, at, shape', names, hole, sub);
    }
  }

  lemma BesideSame(shape: Shape, shape': Shape, at: seq<string>, names: seq<string>)
    requires |names| > 0 && SameBeside(shape, shape', at, at + names)
    ensures SameBeside(shape, shape', at, at + [names[0]]) && SameBeside(shape, shape', at + [names[0]], at + [names[0]] + names[1..])
  {
    var name := names[0];
    Regrouped(at, names, name);
    forall b | b in shape && at + [name] <= b ensures at <= b { Longer(at, name, b); }
    forall b | b in shape && at + names <= b ensures at + [name] <= b {
      assert at + [name] == (at + names)[..|at| + 1] == b[..|at| + 1];
    }
  }

  /** What is set in the hole leaves the rest as it is. */
  lemma {:induction false} ButSet(scope: Scopes.ConfigScope, es: Entries, at: seq<string>, shape: Shape, names: seq<string>,
                                  hole: Scopes.ConfigScope, inner: Entries)
    requires TreeBut(scope, es, at, shape, names, hole)
    ensures TreeBut(scope, ConfigPaths.Within(es, names, inner), at, shape, names, hole)
    decreases |names|
  {
    hide Level, Put, Inner;
    if |names| > 0 {
      var sub := NextSub(scope, es, at, shape, names, hole);
      var deeper := ConfigPaths.Within(Inner(es, names[0]), names[1..], inner);
      ButSet(sub, Inner(es, names[0]), at + [names[0]], shape, names[1..], hole, inner);
      PathLaws.InnerPut(es, names[0], deeper, names[0]);
      LevelSet(scope, es, at, shape, names[0], sub, deeper);
      ThisLevel(scope, ConfigPaths.Within(es, names, inner), at, shape, names, hole, sub);
    }
  }

  lemma LevelSet(scope: Scopes.ConfigScope, es: Entries, at: seq<string>, shape: Shape, name: string, sub: Scopes.ConfigScope, inner: Entries)
    requires Level(scope, es, at, shape, name, sub)
    ensures Level(scope, Put(es, name, ScopeItem(inner)), at, shape, name, sub)
  {
    hide Own, Sorted, Find, Put, Scopes.ConfigScope.Contents, ItemTree;
    var r := Put(es, name, ScopeItem(inner));
    PutSorted(es, name, ScopeItem(inner));
    forall n ensures Find(r, n) == if n == name then Some(ScopeItem(inner)) else Find(es, n) { FindPut(es, name, ScopeItem(inner), n); }
    forall i | 0 <= i < |r| && r[i].name != name ensures EntryTree(scope.Contents(), r[i], at, shape) {
      PutMembers(es, name, ScopeItem(inner), r[i]);
      var j :| 0 <= j < |es| && es[j] == r[i];
    }
  }

  // ---------- the tables of a tree as one table with nested ones ----------

  /** The tree is what the printer needs. */
  lemma {:induction false} TreeRepresents(scope: Scopes.ConfigScope, es: Entries, at: seq<string>, shape: Shape, foot: set<object>)
    requires Tree(scope, es, at, shape) && Below(shape, at) <= foot
    ensures ScopeDump.Represents(scope, es, foot)
    decreases es, 1
  {
    hide Scopes.ConfigScope.Valid, Scopes.ConfigScope.Contents, Sorted, ItemTree, ScopeDump.Means;
    var c := scope.Contents();
    InnerBelow(shape, at, "");
    forall i | 0 <= i < |es| ensures es[i].name in c && ScopeDump.Means(c[es[i].name], es[i].item, foot) {
      assert EntryTree(c, es[i], at, shape);
      InnerBelow(shape, at, es[i].name);
      ItemMeans(c[es[i].name], es[i].item, at + [es[i].name], shape, foot);
    }
  }

  lemma {:induction false} ItemMeans(item: Scopes.ConfigItem, value: Item, at: seq<string>, shape: Shape, foot: set<object>)
    requires ItemTree(item, value, at, shape) && Below(shape, at) <= foot
    ensures ScopeDump.Means(item, value, foot)
    decreases value, 0
  {
    hide Tree, Below, ScopeDump.Represents;
    if value.ScopeItem? { TreeRepresents(item.scope, value.entries, at, shape, foot); }
  }

  // ---------- one table of a tree ----------

  lemma OwnNow(scope: Scopes.ConfigScope, at: seq<string>, shape: Shape)
    requires scope.Valid()
    ensures Own(scope, at, shape[at := scope.Repr])
  {
    hide Scopes.Buckets, Scopes.AllPlaced, Scopes.Total;
  }

  lemma InsideApart(shape: Shape, at: seq<string>)
    requires Apart(shape)
    ensures Inside(shape, at) !! OwnOf(shape, at)
  {}

  lemma TableKept(scope: Scopes.ConfigScope, c: map<string, Scopes.ConfigItem>, es: Entries, at: seq<string>, shape: Shape)
    requires scope.Valid() && scope.Contents() == c && Sorted(es) && Named(c, es) && Subtrees(c, es, at, shape)
    ensures Tree(scope, es, at, shape[at := scope.Repr])
  {
    hide Scopes.ConfigScope.Valid, Scopes.ConfigScope.Contents, Sorted, ItemTree, Own, Named, SameBelow;
    var shape' := shape[at := scope.Repr];
    OwnNow(scope, at, shape);
    forall i | 0 <= i < |es| ensures EntryTree(c, es[i], at, shape') {
      assert EntryTree(c, es[i], at, shape);
      InnerSame(shape, scope.Repr, at, es[i].name);
      ItemSame(c[es[i].name], es[i].item, at + [es[i].name], shape, shape');
    }
  }

  lemma InnerSame(shape: Shape, repr: set<object>, at: seq<string>, name: string)
    ensures SameBelow(shape, shape[at := repr], at + [name])
  {
    forall b | b in shape && at + [name] <= b ensures at != b { Longer(at, name, b); }
  }

  /** A variable was added or replaced. */
  lemma TableAssigned(scope: Scopes.ConfigScope, c: map<string, Scopes.ConfigItem>, es: Entries, at: seq<string>, shape: Shape,
                      name: string, item: Scopes.ConfigItem, value: Item)
    requires scope.Valid() && scope.Contents() == c[name := item] && Sorted(es) && Named(c, es) && Subtrees(c, es, at, shape)
    requires !value.ScopeItem? && ItemTree(item, value, at + [name], shape)
    ensures Tree(scope, Put(es, name, value), at, shape[at := scope.Repr])
  {
    hide Scopes.ConfigScope.Valid, Scopes.ConfigScope.Contents, Sorted, ItemTree, Subtrees, Others, Put, Find;
    SubtreesOthers(c, es, at, shape, name);
    SubtreesPut(c, es, at, shape, name, item, value);
    NamedPut(c, es, name, item, value);
    PutSorted(es, name, value);
    TableKept(scope, c[name := item], Put(es, name, value), at, shape);
  }

  /** A nested scope was found, or a new one added. */
  lemma TableEntered(scope: Scopes.ConfigScope, c: map<string, Scopes.ConfigItem>, es: Entries, at: seq<string>, shape: Shape,
                     shape': Shape, name: string, sub: Scopes.ConfigScope)
    requires scope.Valid() && scope.Contents() == c[name := Scopes.ScopeItem(sub)] && !IsVariable(Find(es, name))
    requires Sorted(es) && Named(c, es) && Subtrees(c, es, at, shape) && SameInside(shape, shape', at, name)
    requires at in shape' && shape'[at] == scope.Repr
    ensures Level(scope, es, at, shape', name, sub)
  {
    hide Scopes.ConfigScope.Valid, Scopes.ConfigScope.Contents, Sorted, Subtrees, Others, Find, SameInside, Own;
    assert shape' == shape'[at := scope.Repr];
    OwnNow(scope, at, shape');
    SubtreesOthers(c, es, at, shape, name);
    OthersSame(c, c[name := Scopes.ScopeItem(sub)], es, at, shape, shape', name);
  }

  lemma NewTree(scope: Scopes.ConfigScope, at: seq<string>, shape: Shape)
    requires scope.Valid() && scope.Contents() == map[]
    ensures Tree(scope, [], at, shape[at := scope.Repr])
  {
    hide Scopes.ConfigScope.Valid, Scopes.ConfigScope.Contents;
    TableKept(scope, map[], [], at, shape);
  }

  /** The item that the table has under a name. */
  lemma WhatIsThere(c: map<string, Scopes.ConfigItem>, es: Entries, at: seq<string>, shape: Shape, name: string)
    requires Named(c, es) && Subtrees(c, es, at, shape)
    ensures IsScope(Find(es, name)) <==> name in c && c[name].ScopeItem?
    ensures IsVariable(Find(es, name)) <==> name in c && !c[name].ScopeItem?
    ensures IsScope(Find(es, name)) ==> Tree(c[name].scope, Inner(es, name), at + [name], shape)
    ensures Find(es, name).None? ==> Inner(es, name) == []
  {
    hide Subtrees, Tree, Find;
    if Find(es, name).Some? { SubtreeOf(c, es, at, shape, name); }
  }

  /** The leaf of insertString. */
  method addString(scope: Scopes.ConfigScope, name: string, str: string, ghost es: Entries, ghost at: seq<string>, ghost shape: Shape)
    returns (ok: bool)
    requires Apart(shape) && Tree(scope, es, at, shape) && Scopes.Hashable(name)
    modifies OwnOf(shape, at)
    ensures fresh(scope.Repr - OwnOf(shape, at)) && Apart(shape[at := scope.Repr])
    ensures ok <==> !IsScope(Find(es, name))
    ensures Tree(scope, if ok then Put(es, name, StringItem(str)) else es, at, shape[at := scope.Repr])
  {
    hide Scopes.ConfigScope.Valid, Scopes.ConfigScope.Contents, Sorted, ItemTree, Subtrees, Put, Find, Named;
    ghost var c := scope.Contents();
    InsideApart(shape, at);
    ok := scope.addOrReplaceString(name, str);
    WhatIsThere(c, es, at, shape, name);
    if ok {
      assert ItemTree(Scopes.StringItem(str), StringItem(str), at + [name], shape) by { StringTree(str, at + [name], shape); }
      TableAssigned(scope, c, es, at, shape, name, Scopes.StringItem(str), StringItem(str));
    } else {
      TableKept(scope, c, es, at, shape);
    }
  }

  lemma StringTree(str: string, at: seq<string>, shape: Shape)
    ensures ItemTree(Scopes.StringItem(str), StringItem(str), at, shape)
  {}

  /** The leaf of insertList. */
  method addList(scope: Scopes.ConfigScope, name: string, list: seq<string>, ghost es: Entries, ghost at: seq<string>, ghost shape: Shape)
    returns (ok: bool)
    requires Apart(shape) && Tree(scope, es, at, shape) && Scopes.Hashable(name)
    modifies OwnOf(shape, at)
    ensures fresh(scope.Repr - OwnOf(shape, at)) && Apart(shape[at := scope.Repr])
    ensures ok <==> !IsScope(Find(es, name))
    ensures Tree(scope, if ok then Put(es, name, ListItem(list)) else es, at, shape[at := scope.Repr])
  {
    hide Scopes.ConfigScope.Valid, Scopes.ConfigScope.Contents, Sorted, ItemTree, Subtrees, Put, Find, Named;
    ghost var c := scope.Contents();
    InsideApart(shape, at);
    ok := scope.addOrReplaceList(name, list);
    WhatIsThere(c, es, at, shape, name);
    if ok {
      assert ItemTree(Scopes.ListItem(list), ListItem(list), at + [name], shape) by { ListTree(list, at + [name], shape); }
      TableAssigned(scope, c, es, at, shape, name, Scopes.ListItem(list), ListItem(list));
    } else {
      TableKept(scope, c, es, at, shape);
    }
  }

  lemma ListTree(list: seq<string>, at: seq<string>, shape: Shape)
    ensures ItemTree(Scopes.ListItem(list), ListItem(list), at, shape)
  {}

  /** The shape when the table at a path has grown, and perhaps has a new nested scope. */
  ghost function Entered(shape: Shape, at: seq<string>, repr: set<object>, name: string, isNew: bool, sub: set<object>): (shape': Shape)
  {
    if isNew then shape[at := repr][at + [name] := sub] else shape[at := repr]
  }

  lemma EnteredSame(shape: Shape, at: seq<string>, repr: set<object>, name: string, isNew: bool, sub: set<object>)
    ensures var shape' := Entered(shape, at, repr, name, isNew, sub);
            at in shape' && shape'[at] == repr && SameInside(shape, shape', at, name) && (!isNew ==> SameBelow(shape, shape', at + [name]))
  {
    InnerSame(shape, repr, at, name);
  }

  lemma EnteredApart(shape: Shape, at: seq<string>, repr: set<object>, name: string, isNew: bool, sub: set<object>)
    requires Apart(shape) && (forall b :: b in shape && b != at ==> repr !! shape[b])
    requires isNew ==> sub !! repr && forall b :: b in shape ==> sub !! shape[b]
    ensures var shape' := Entered(shape, at, repr, name, isNew, sub);
            Apart(shape') && SameBeside(shape, shape', [], at)
            && forall b :: b in shape' ==> (b in shape && shape'[b] == shape[b]) || (b == at && shape'[b] == repr) || (isNew && shape'[b] == sub)
  {
    assert at <= at + [name] && at != at + [name];
  }

  /** One turn of the loop of ensureScopeExists. */
  method enterScope(scope: Scopes.ConfigScope, name: string, ghost es: Entries, ghost at: seq<string>, ghost shape: Shape)
    returns (ok: bool, sub: Scopes.ConfigScope?, ghost shape': Shape)
    requires Apart(shape) && Tree(scope, es, at, shape) && Scopes.Hashable(name)
    modifies OwnOf(shape, at)
    ensures Apart(shape') && SameBeside(shape, shape', [], at) && forall b :: b in shape' ==> fresh(shape'[b] - OwnOf(shape, b))
    ensures ok <==> !IsVariable(Find(es, name))
    ensures ok ==> sub != null && Level(scope, es, at, shape', name, sub) && Tree(sub, Inner(es, name), at + [name], shape')
    ensures !ok ==> Tree(scope, es, at, shape')
  {
    hide Scopes.ConfigScope.Valid, Scopes.ConfigScope.Contents, Sorted, ItemTree, Subtrees, Inner, Find, Named, Level;
    hide Apart, Entered, SameBeside, SameInside, SameBelow;
    ghost var c := scope.Contents();
    InsideApart(shape, at);
    OthersApart(shape, at);
    ok, sub := scope.ensureScopeExists(name);
    WhatIsThere(c, es, at, shape, name);
    ghost var isNew, subs := ok && name !in c, if sub == null then {} else sub.Repr;
    shape' := Entered(shape, at, scope.Repr, name, isNew, subs);
    EnteredSame(shape, at, scope.Repr, name, isNew, subs);
    EnteredApart(shape, at, scope.Repr, name, isNew, subs);
    if !ok {
      TableKept(scope, c, es, at, shape);
      assert shape' == shape[at := scope.Repr] by { EnteredIs(shape, at, scope.Repr, name, isNew, subs); }
    } else {
      assert c[name := Scopes.ScopeItem(sub)] == scope.Contents();
      TableEntered(scope, c, es, at, shape, shape', name, sub);
      if isNew {
        NewTree(sub, at + [name], shape[at := scope.Repr]);
        assert shape' == shape[at := scope.Repr][at + [name] := sub.Repr] by { EnteredIs(shape, at, scope.Repr, name, isNew, subs); }
      } else {
        TreeSame(sub, Inner(es, name), at + [name], shape, shape');
      }
    }
  }

  lemma EnteredIs(shape: Shape, at: seq<string>, repr: set<object>, name: string, isNew: bool, sub: set<object>)
    ensures Entered(shape, at, repr, name, isNew, sub) == if isNew then shape[at := repr][at + [name] := sub] else shape[at := repr]
  {}

  lemma OthersApart(shape: Shape, at: seq<string>)
    requires Apart(shape)
    ensures forall b :: b in shape && b != at ==> OwnOf(shape, at) !! shape[b]
  {}
}
