/** What the statements of the configuration language change, and what they leave alone. */
module ConfigLaws {
  import opened Wrappers
  import opened ConfigPaths
  import opened ConfigSyntax
  import opened ConfigPrograms
  import opened SortedEntries
  import opened PathLaws

  // ---------- names ----------

  /** A name stands for what the nearest scope has under it, and for what the fallback configuration has
      only if no scope has anything. */
  lemma NameStandsFor(env: Env, path: Path, name: string)
    requires |name| > 0 && name[0] != '.'
    ensures forall item ::
              Value(env, path, name) == Some(item) <==>
              (exists k :: FoundAt(path.root, path.at, Components(name), k, item))
              || ((forall j :: 0 <= j <= |path.at| ==> LookupHelper(Contents(path.root, path.at[..j]), Components(name)) == None)
                  && env.fallback(name) == Some(item))
  {
    hide Lookup, LookupHelper, Contents, Components, FoundAt;
    NearestFirst(path, name);
  }

  /** What the current scope has under a name comes first. */
  lemma CurrentFirst(path: Path, name: string)
    requires |name| > 0 && name[0] != '.' && LookupHelper(Current(path), Components(name)).Some?
    ensures Lookup(path, name) == LookupHelper(Current(path), Components(name))
  {}

  // ---------- assignment ----------

  /** After an assignment the name stands for the value, unless a variable was visible under it and the
      assignment was conditional: then nothing has changed. In the current scope names apart from the one
      assigned stand for what they did. */
  lemma AssignmentStands(env: Env, path: Path, name: string, always: bool, value: Sum, other: seq<string>)
    requires FormedSum(value) && |name| > 0 && |other| > 0 && Apart(other, Components(name))
    ensures FormedStatement(Assign(name, always, value))
    ensures var after := RunOne(env, path, Assign(name, always, value));
            after.Some? ==>
              && ItemOf(env, path, value).Some? && after.value.at == path.at
              && LookupHelper(Current(after.value), other) == LookupHelper(Current(path), other)
              && if !always && IsVariable(Lookup(path, name)) then after == Some(path)
                 else Lookup(after.value, name) == ItemOf(env, path, value)
  {
    hide FormedSum, ItemOf, Lookup, Components, LookupHelper, Current, SetCurrent, Insert, Apart;
    var item, names := ItemOf(env, path, value), Components(name);
    if item.Some? && !StartsWithDot(name) && Insert(Current(path), names, item.value).Some? {
      var es := Insert(Current(path), names, item.value).value;
      InsertThenLookup(Current(path), names, item.value, other);
      CurrentSet(path, es);
      SameScope(path, es);
      CurrentFirst(SetCurrent(path, es), name);
    }
  }

  lemma SameScope(path: Path, es: Entries)
    ensures SetCurrent(path, es).at == path.at
  {}

  /** No variable and no scope is declared under a name with a dot in front. */
  lemma RootedNamesThrow(env: Env, path: Path, name: string, always: bool, value: Sum, body: seq<Statement>, semicolon: bool)
    requires FormedSum(value) && FormedBody(body) && |name| > 0 && name[0] == '.'
    ensures FormedStatement(Assign(name, always, value)) && RunOne(env, path, Assign(name, always, value)) == None
    ensures FormedStatement(Scope(name, body, semicolon)) && RunOne(env, path, Scope(name, body, semicolon)) == None
  {
    hide FormedSum, FormedBody;
  }

  // ---------- removal ----------

  /** @remove takes one name out of the current scope and nothing else; it takes names without dots
      that are there. */
  lemma RemovalTakesOne(env: Env, path: Path, name: string, other: string)
    requires Sorted(Current(path))
    ensures var after := RunOne(env, path, RemoveEntry(name));
            && (after.Some? <==> '.' !in name && Find(Current(path), name).Some?)
            && (after.Some? ==> after.value.at == path.at
                                && Find(Current(after.value), other) == if other == name then None else Find(Current(path), other))
  {
    hide Find, Without, Current, Sorted;
    FindWithout(Current(path), name, other);
    CurrentSet(path, Without(Current(path), name));
  }

  // ---------- scopes ----------

  lemma {:induction false} EnsuredContents(es: Entries, names: seq<string>)
    requires EnsureScope(es, names).Some?
    ensures Contents(EnsureScope(es, names).value, names) == Contents(es, names)
    decreases |names|
  {
    hide Put, Find, Inner;
    if |names| > 0 {
      EnsuredContents(Inner(es, names[0]), names[1..]);
      InnerPut(es, names[0], EnsureScope(Inner(es, names[0]), names[1..]).value, names[0]);
    }
  }

  lemma {:induction false} ContentsDeeper(es: Entries, at: seq<string>, names: seq<string>)
    ensures Contents(es, at + names) == Contents(Contents(es, at), names)
    decreases |at|
  {
    if |at| == 0 {
      assert at + names == names;
    } else {
      assert (at + names)[1..] == at[1..] + names;
      ContentsDeeper(Inner(es, at[0]), at[1..], names);
    }
  }

  /** The statements of a scope start from what the scope has already, nothing if it is new; variables
      around it stay. */
  lemma ScopeIsEntered(path: Path, name: string, other: seq<string>)
    requires |other| > 0 && Entered(path, name).Some?
    ensures var inner := Entered(path, name).value;
            && inner.at == path.at + Components(name)
            && Current(inner) == Contents(Current(path), Components(name))
            && (IsVariable(LookupHelper(Current(path), other)) ==>
                  LookupHelper(Contents(inner.root, path.at), other) == LookupHelper(Current(path), other))
  {
    hide Components, EnsureScope, LookupHelper, Contents, Within;
    var names := Components(name);
    var es := EnsureScope(Current(path), names).value;
    CurrentSet(path, es);
    ContentsDeeper(SetCurrent(path, es).root, path.at, names);
    EnsuredContents(Current(path), names);
    EnsureKeepsVariables(Current(path), names, other);
  }
}
