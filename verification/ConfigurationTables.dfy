/** ConfigurationImpl over its hash tables: assigning to dotted names and creating scopes changes the
    tables as the laws of dotted names say. */
module ConfigurationTables {
  import opened Wrappers
  import opened ConfigPaths
  import opened ScopeTrees
  import PathLaws
  import ScopeDump
  import ScopedNames
  import Scopes = ConfigScopes

  // ---------- walking down ----------

  /** No variable is in the way. */
  predicate Clear(es: Entries, names: seq<string>)
    decreases |names|
  {
    |names| == 0 || (!IsVariable(Find(es, names[0])) && Clear(Inner(es, names[0]), names[1..]))
  }

  /** The contents once the scopes along the names are there, up to the first that is a variable. */
  function Ensured(es: Entries, names: seq<string>): Entries
    decreases |names|
  {
    if |names| == 0 || IsVariable(Find(es, names[0])) then es
    else Put(es, names[0], ScopeItem(Ensured(Inner(es, names[0]), names[1..])))
  }

  lemma {:induction false} ClearNext(es: Entries, names: seq<string>, name: string)
    ensures Clear(es, names + [name]) <==> Clear(es, names) && !IsVariable(Find(Contents(es, names), name))
    ensures Contents(es, names + [name]) == Inner(Contents(es, names), name)
    decreases |names|
  {
    hide Find, Inner;
    if |names| > 0 {
      Regrouped([], names, name);
      ClearNext(Inner(es, names[0]), names[1..], name);
    } else {
      assert ([name])[1..] == [];
    }
  }

  lemma {:induction false} EnsuredClear(es: Entries, names: seq<string>)
    ensures EnsureScope(es, names) == if Clear(es, names) then Some(Ensured(es, names)) else None
    ensures Clear(es, names) ==> Ensured(es, names) == Within(es, names, Contents(es, names))
    decreases |names|
  {
    hide Find, Inner, Put;
    if |names| > 0 { EnsuredClear(Inner(es, names[0]), names[1..]); }
  }

  /** Where a variable is in the way, the scopes in front of it are there. */
  lemma {:induction false} EnsuredBlocked(es: Entries, names: seq<string>, n: nat)
    requires n < |names| && Clear(es, names[..n]) && IsVariable(Find(Contents(es, names[..n]), names[n]))
    ensures !Clear(es, names) && Ensured(es, names) == Within(es, names[..n], Contents(es, names[..n]))
    decreases |names|
  {
    hide Find, Inner, Put;
    if n > 0 {
      assert names[..n][1..] == names[1..][..n - 1];
      EnsuredBlocked(Inner(es, names[0]), names[1..], n - 1);
    }
  }

  /** What an assignment does, scope by scope. */
  lemma {:induction false} InsertClear(es: Entries, names: seq<string>, name: string, item: Item)
    ensures Insert(es, names + [name], item)
         == if Clear(es, names) && !IsScope(Find(Contents(es, names), name))
            then Some(Within(es, names, Put(Contents(es, names), name, item))) else None
    decreases |names|
  {
    hide Find, Inner, Put;
    if |names| > 0 {
      Regrouped([], names, name);
      InsertClear(Inner(es, names[0]), names[1..], name, item);
    }
  }

  // ---------- the loop of ensureScopeExists ----------

  lemma BesideApart(shape: Shape, a: seq<string>, hole: seq<string>, at: seq<string>)
    requires Apart(shape) && hole <= at
    ensures Beside(shape, a, hole) !! OwnOf(shape, at)
  {}

  lemma OwnBelow(shape: Shape, at: seq<string>, names: seq<string>)
    ensures OwnOf(shape, at + names) <= Below(shape, at)
  {}

  lemma BesideDeeper(shape: Shape, shape': Shape, at: seq<string>, names: seq<string>)
    requires SameBeside(shape, shape', [], at + names)
    ensures SameBeside(shape, shape', at, at + names) && SameBeside(shape, shape', [], at)
  {
    forall b | b in shape && at + names <= b ensures at <= b {
      assert at == (at + names)[..|at|] == b[..|at|];
    }
  }

  lemma SameTwice(shape: Shape, shape': Shape, shape'': Shape, at: seq<string>)
    requires SameBeside(shape, shape', [], at) && SameBeside(shape', shape'', [], at)
    ensures SameBeside(shape, shape'', [], at)
  {}

  lemma BesideDeeperApart(shape: Shape, at: seq<string>, names: seq<string>)
    requires Apart(shape)
    ensures Beside(shape, [], [] + at) !! OwnOf(shape, at + names)
  {}

  /** ensureScopeExists: the scope that the first n names lead to, from the table curr at a path; or
      false when a variable is in the way. */
  method walk(curr: Scopes.ConfigScope, vec: seq<string>, n: nat, ghost es: Entries, ghost at: seq<string>, ghost shape: Shape)
    returns (ok: bool, scope: Scopes.ConfigScope, ghost shape': Shape)
    requires Apart(shape) && Tree(curr, es, at, shape) && n <= |vec| && forall k :: 0 <= k < n ==> Scopes.Hashable(vec[k])
    modifies Below(shape, at)
    ensures Apart(shape') && SameBeside(shape, shape', [], at) && forall b :: b in shape' ==> fresh(shape'[b] - OwnOf(shape, b))
    ensures ok <==> Clear(es, vec[..n])
    ensures ok ==> TreeBut(curr, es, at, shape', vec[..n], scope) && Tree(scope, Contents(es, vec[..n]), at + vec[..n], shape')
    ensures !ok ==> Tree(curr, Ensured(es, vec[..n]), at, shape')
  {
    hide Apart, Tree, TreeBut, SameBeside, Clear, Ensured, Level, Contents, Find, Inner, Scopes.Hashable, Below;
    scope := curr;
    shape' := shape;
    var i := 0;
    AtStart(curr, es, at, shape, vec);
    while i < n
      invariant 0 <= i <= n && Apart(shape') && SameBeside(shape, shape', [], at)
      invariant forall b :: b in shape' ==> fresh(shape'[b] - OwnOf(shape, b))
      invariant Clear(es, vec[..i]) && TreeBut(curr, es, at, shape', vec[..i], scope)
      invariant Tree(scope, Contents(es, vec[..i]), at + vec[..i], shape')
    {
      ghost var before, p := shape', at + vec[..i];
      BesideApart(shape', at, p, p);
      OwnGrown(shape, shape', at, vec[..i]);
      var sub;
      ok, sub, shape' := enterScope(scope, vec[i], Contents(es, vec[..i]), p, before);
      BesideDeeper(before, shape', at, vec[..i]);
      SameTwice(shape, before, shape', at);
      TreeButSame(curr, es, at, before, shape', vec[..i], scope);
      assert vec[..i + 1] == vec[..i] + [vec[i]];
      ClearNext(es, vec[..i], vec[i]);
      if !ok {
        ClosedAll(curr, es, at, shape', vec[..i], scope, Contents(es, vec[..i]));
        assert vec[..n][..i] == vec[..i];
        EnsuredBlocked(es, vec[..n], i);
        return;
      }
      Deeper(curr, es, at, shape', vec[..i], scope, vec[i], sub);
      assert p + [vec[i]] == at + vec[..i + 1];
      scope := sub;
      i := i + 1;
    }
    ok := true;
  }

  lemma AtStart(curr: Scopes.ConfigScope, es: Entries, at: seq<string>, shape: Shape, vec: seq<string>)
    requires Tree(curr, es, at, shape)
    ensures Clear(es, vec[..0]) && TreeBut(curr, es, at, shape, vec[..0], curr) && Tree(curr, Contents(es, vec[..0]), at + vec[..0], shape)
    ensures SameBeside(shape, shape, [], at) && forall b :: b in shape ==> shape[b] == OwnOf(shape, b)
  {
    assert at + vec[..0] == at;
  }

  lemma OwnGrown(shape: Shape, shape': Shape, at: seq<string>, names: seq<string>)
    ensures OwnOf(shape', at + names) <= (if at + names in shape' then shape'[at + names] - OwnOf(shape, at + names) else {}) + Below(shape, at)
  {
    OwnBelow(shape, at, names);
  }

  // ---------- the configuration ----------

  /** What an assignment leaves: the item under the name, or, when something of the other kind is in
      the way, only the scopes in front of that. */
  function Assigned(es: Entries, names: seq<string>, item: Item): Entries
    requires |names| > 0
  {
    if Insert(es, names, item).Some? then Insert(es, names, item).value else Ensured(es, names[..|names| - 1])
  }

  class ConfigurationImpl {
    const m_rootScope: Scopes.ConfigScope
    var m_currScope: Scopes.ConfigScope
    ghost var path: Path             // the contents of the tables, and where the current scope is
    ghost var shape: Shape           // the objects of every table

    ghost predicate Valid()
      reads this, Below(shape, [])
    {
      InCurrent(shape, path.at);
      && Apart(shape) && this !in Below(shape, []) && Tree(m_rootScope, path.root, [], shape)
      && TreeBut(m_rootScope, path.root, [], shape, path.at, m_currScope) && Tree(m_currScope, Current(path), path.at, shape)
    }

    constructor ()
      ensures Valid() && path == Path([], []) && m_currScope == m_rootScope && fresh(Below(shape, []))
    {
      var root := new Scopes.ConfigScope(null);
      m_rootScope, m_currScope := root, root;
      path, shape := Path([], []), map[[] := root.Repr];
      new;
      NewTree(m_rootScope, [], map[]);
      assert map[][[] := root.Repr] == shape;
    }

    /** The tables are as they were, but for those at the current scope and inside. */
    ghost method Update(shape': Shape, es: Entries)
      requires Apart(shape') && this !in Below(shape', []) && SameBeside(shape, shape', [], path.at)
      requires TreeBut(m_rootScope, path.root, [], shape, path.at, m_currScope) && Tree(m_currScope, es, path.at, shape')
      modifies this`path, this`shape
      ensures Valid() && path == SetCurrent(old(path), es) && Current(path) == es && shape == shape'
    {
      hide Tree, TreeBut, Apart, Below, Beside, SameBeside;
      var es0, at := path.root, path.at;
      assert [] + at == at;
      InCurrent(shape', at);
      TreeButSame(m_rootScope, es0, [], shape, shape', at, m_currScope);
      ClosedAll(m_rootScope, es0, [], shape', at, m_currScope, es);
      ButSet(m_rootScope, es0, [], shape', at, m_currScope, es);
      PathLaws.ContentsWithin(es0, at, es);
      path, shape := SetCurrent(path, es), shape';
    }

    /** The scope that names lead to from the current one has new contents. */
    ghost method Assign(shape': Shape, es: Entries, names: seq<string>, scope: Scopes.ConfigScope, contents: Entries)
      requires Apart(shape'[path.at + names := scope.Repr]) && this !in Below(shape', []) && this !in scope.Repr
      requires SameBeside(shape, shape', [], path.at)
      requires TreeBut(m_rootScope, path.root, [], shape, path.at, m_currScope)
      requires TreeBut(m_currScope, es, path.at, shape', names, scope)
      requires Tree(scope, contents, path.at + names, shape'[path.at + names := scope.Repr])
      modifies this`path, this`shape
      ensures Valid() && path == SetCurrent(old(path), Within(es, names, contents)) && shape == shape'[old(path).at + names := scope.Repr]
    {
      hide Tree, TreeBut, Apart, SameBeside, Within;
      var shape'' := shape'[path.at + names := scope.Repr];
      var es' := LeafClosed(m_currScope, es, path.at, shape', shape'', names, scope, contents);
      SameTwice(shape, shape', shape'', path.at);
      Update(shape'', es');
    }

    /** insertString: what is written under the name is found there afterwards, and a failure leaves no more
        than the scopes in front of what is in the way. */
    method insertString(name: string, str: string) returns (ok: bool)
      requires Valid() && '\0' !in name && forall k :: 0 <= k < |Components(name)| ==> Scopes.Hashable(Components(name)[k])
      modifies this`path, this`shape, Below(shape, path.at)
      ensures Valid() && fresh(Below(shape, []) - old(Below(shape, [])))
      ensures ok <==> Insert(old(Current(path)), Components(name), StringItem(str)).Some?
      ensures path == SetCurrent(old(path), Assigned(old(Current(path)), Components(name), StringItem(str)))
    {
      hide Tree, TreeBut, Apart, SameBeside, Components, Scopes.Hashable, Clear, Contents, Assigned, Insert, Ensured, Within, Find, Put;
      var vec := ScopedNames.splitScopedNameIntoVector(name);
      var len := |vec|;
      ghost var es, at, names := Current(path), path.at, vec[..len - 1];
      AssignedBy(es, vec, StringItem(str));
      BesideBelow(shape, at);
      InCurrent(shape, at);
      var scopeObj;
      ghost var shape';
      ok, scopeObj, shape' := walk(m_currScope, vec, len - 1, es, at, shape);
      GrownBelow(shape, shape', at);
      if ok {
        BesideApart(shape', at, at + names, at + names);
        BesideDeeperApart(shape', at, names);
        ok := addString(scopeObj, vec[len - 1], str, Contents(es, names), at + names, shape');
        Assign(shape', es, names, scopeObj, if ok then Put(Contents(es, names), vec[len - 1], StringItem(str)) else Contents(es, names));
      } else {
        Update(shape', Ensured(es, names));
      }
    }

    /** insertList */
    method insertList(name: string, list: seq<string>) returns (ok: bool)
      requires Valid() && '\0' !in name && forall k :: 0 <= k < |Components(name)| ==> Scopes.Hashable(Components(name)[k])
      modifies this`path, this`shape, Below(shape, path.at)
      ensures Valid() && fresh(Below(shape, []) - old(Below(shape, [])))
      ensures ok <==> Insert(old(Current(path)), Components(name), ListItem(list)).Some?
      ensures path == SetCurrent(old(path), Assigned(old(Current(path)), Components(name), ListItem(list)))
    {
      hide Tree, TreeBut, Apart, SameBeside, Components, Scopes.Hashable, Clear, Contents, Assigned, Insert, Ensured, Within, Find, Put;
      var vec := ScopedNames.splitScopedNameIntoVector(name);
      var len := |vec|;
      ghost var es, at, names := Current(path), path.at, vec[..len - 1];
      AssignedBy(es, vec, ListItem(list));
      BesideBelow(shape, at);
      InCurrent(shape, at);
      var scopeObj;
      ghost var shape';
      ok, scopeObj, shape' := walk(m_currScope, vec, len - 1, es, at, shape);
      GrownBelow(shape, shape', at);
      if ok {
        BesideApart(shape', at, at + names, at + names);
        BesideDeeperApart(shape', at, names);
        ok := addList(scopeObj, vec[len - 1], list, Contents(es, names), at + names, shape');
        Assign(shape', es, names, scopeObj, if ok then Put(Contents(es, names), vec[len - 1], ListItem(list)) else Contents(es, names));
      } else {
        Update(shape', Ensured(es, names));
      }
    }

    /** The table of the scope at a path, in the tree of all tables. */
    ghost predicate IsAt(scope: Scopes.ConfigScope, at: seq<string>)
      reads this, Below(shape, [])
    {
      InCurrent(shape, at);
      TreeBut(m_rootScope, path.root, [], shape, at, scope) && Tree(scope, Contents(path.root, at), at, shape)
    }

    /** ensureScopeExists: the scopes along the name are there afterwards, as far as no variable is in
        the way, and the last of them is given. */
    method ensureScopeExists(name: string) returns (ok: bool, scope: Scopes.ConfigScope)
      requires Valid() && '\0' !in name && forall k :: 0 <= k < |Components(name)| ==> Scopes.Hashable(Components(name)[k])
      modifies this`path, this`shape, Below(shape, path.at)
      ensures Valid() && fresh(Below(shape, []) - old(Below(shape, [])))
      ensures ok <==> EnsureScope(old(Current(path)), Components(name)).Some?
      ensures path == SetCurrent(old(path), Ensured(old(Current(path)), Components(name)))
      ensures ok ==> IsAt(scope, path.at + Components(name))
    {
      hide Tree, TreeBut, Apart, SameBeside, Components, Scopes.Hashable, Clear, Contents, Ensured, Within, Find, Put, EnsureScope;
      var vec := ScopedNames.splitScopedNameIntoVector(name);
      ghost var es, at := Current(path), path.at;
      BesideBelow(shape, at);
      InCurrent(shape, at);
      assert vec[..|vec|] == vec;
      EnsuredClear(es, vec);
      ghost var shape';
      ok, scope, shape' := walk(m_currScope, vec, |vec|, es, at, shape);
      GrownBelow(shape, shape', at);
      if ok {
        ClosedAll(m_currScope, es, at, shape', vec, scope, Contents(es, vec));
        InBelow(shape', at, vec);
      }
      Update(shape', Ensured(es, vec));
      if ok { Reached(scope, es, vec); }
    }

    lemma Reached(scope: Scopes.ConfigScope, es: Entries, names: seq<string>)
      requires Valid() && Current(path) == Within(es, names, Contents(es, names)) && TreeBut(m_currScope, es, path.at, shape, names, scope)
      requires Tree(scope, Contents(es, names), path.at + names, shape)
      ensures IsAt(scope, path.at + names)
    {
      hide Tree, TreeBut, Apart, Contents, Within;
      assert [] + path.at == path.at;
      ButSet(m_currScope, es, path.at, shape, names, scope, Contents(es, names));
      PathLaws.ContentsWithin(es, names, Contents(es, names));
      Composed(m_rootScope, path.root, [], shape, path.at, m_currScope, names, scope);
    }

    /** setCurrScope */
    method setCurrScope(scope: Scopes.ConfigScope, ghost at: seq<string>)
      requires Valid() && IsAt(scope, at)
      modifies this`m_currScope, this`path
      ensures Valid() && m_currScope == scope && path == Path(old(path.root), at)
    {
      hide Tree, TreeBut;
      InCurrent(shape, at);
      m_currScope := scope;
      path := Path(path.root, at);
    }

    /** The tables are what the printer of scopes takes. */
    lemma Printable()
      requires Valid()
      ensures ScopeDump.Represents(m_rootScope, path.root, Below(shape, []))
    {
      TreeRepresents(m_rootScope, path.root, [], shape, Below(shape, []));
    }
  }

  lemma Tails(names: seq<string>, more: seq<string>)
    requires |names| > 0
    ensures (names + more)[0] == names[0] && (names + more)[1..] == names[1..] + more
  {}

  lemma InBelow(shape: Shape, at: seq<string>, names: seq<string>)
    ensures Beside(shape, at, at + names) <= Below(shape, []) && Below(shape, at + names) <= Below(shape, [])
  {}

  /** A hole within a hole. */
  lemma {:induction false} Composed(scope: Scopes.ConfigScope, es: Entries, at: seq<string>, shape: Shape, names: seq<string>,
                                    mid: Scopes.ConfigScope, more: seq<string>, hole: Scopes.ConfigScope)
    requires TreeBut(scope, es, at, shape, names, mid) && TreeBut(mid, Contents(es, names), at + names, shape, more, hole)
    ensures TreeBut(scope, es, at, shape, names + more, hole) && Contents(es, names + more) == Contents(Contents(es, names), more)
    decreases |names|
  {
    hide Level, Inner;
    if |names| == 0 {
      assert at + names == at && names + more == more;
    } else {
      var sub := NextSub(scope, es, at, shape, names, mid);
      Regrouped(at, names, "");
      Tails(names, more);
      Composed(sub, Inner(es, names[0]), at + [names[0]], shape, names[1..], mid, more, hole);
      ThisLevel(scope, es, at, shape, names + more, hole, sub);
    }
  }

  /** What Assigned is where the walk succeeds, and where it does not. */
  lemma AssignedBy(es: Entries, vec: seq<string>, item: Item)
    requires |vec| > 0
    ensures var names, name := vec[..|vec| - 1], vec[|vec| - 1];
            var contents := Contents(es, names);
            && (Insert(es, vec, item).Some? <==> Clear(es, names) && !IsScope(Find(contents, name)))
            && Assigned(es, vec, item) == if !Clear(es, names) then Ensured(es, names)
                                          else Within(es, names, if IsScope(Find(contents, name)) then contents else Put(contents, name, item))
  {
    hide Clear, Ensured, Within, Contents, Find, Put;
    var names, name := vec[..|vec| - 1], vec[|vec| - 1];
    assert vec == names + [name];
    InsertClear(es, names, name, item);
    EnsuredClear(es, names);
  }

  lemma LeafClosed(curr: Scopes.ConfigScope, es: Entries, at: seq<string>, shape: Shape, shape': Shape, names: seq<string>,
                   scope: Scopes.ConfigScope, contents: Entries) returns (es': Entries)
    requires TreeBut(curr, es, at, shape, names, scope) && shape' == shape[at + names := scope.Repr]
    requires Tree(scope, contents, at + names, shape')
    ensures es' == Within(es, names, contents) && Tree(curr, es', at, shape') && SameBeside(shape, shape', [], at)
  {
    hide Tree, TreeBut, Within;
    TreeButSame(curr, es, at, shape, shape', names, scope);
    ClosedAll(curr, es, at, shape', names, scope, contents);
    es' := Within(es, names, contents);
  }

  lemma InCurrent(shape: Shape, at: seq<string>)
    ensures Beside(shape, [], [] + at) <= Below(shape, []) && Below(shape, at) <= Below(shape, [])
  {}

  lemma BesideBelow(shape: Shape, at: seq<string>)
    requires Apart(shape)
    ensures Beside(shape, [], [] + at) !! Below(shape, at)
  {}

  lemma GrownBelow(shape: Shape, shape': Shape, at: seq<string>)
    ensures forall o :: o in Below(shape', []) ==> o in Below(shape, []) || exists b :: b in shape' && o in shape'[b] - OwnOf(shape, b)
    ensures forall o :: o in Below(shape', at) ==> o in Below(shape, at) || exists b :: b in shape' && o in shape'[b] - OwnOf(shape, b)
  {}
}
