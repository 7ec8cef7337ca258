/** What dotted names do to a configuration: what is written under a name is read back under it, and
    nothing else changes. */
module PathLaws {
  import opened Wrappers
  import opened ConfigPaths
  import opened SortedEntries

  // ---------- the current scope ----------

  lemma InnerPut(es: Entries, name: string, inner: Entries, other: string)
    ensures Inner(Put(es, name, ScopeItem(inner)), other) == if other == name then inner else Inner(es, other)
  {
    FindPut(es, name, ScopeItem(inner), other);
    hide Find, Put;
  }

  /** The contents of a scope are those last set. */
  lemma {:induction false} ContentsWithin(es: Entries, names: seq<string>, contents: Entries)
    ensures Contents(Within(es, names, contents), names) == contents
    decreases |names|
  {
    if |names| > 0 {
      hide Put, Inner;
      var inner := Within(Inner(es, names[0]), names[1..], contents);
      ContentsWithin(Inner(es, names[0]), names[1..], contents);
      InnerPut(es, names[0], inner, names[0]);
    }
  }

  /** Setting the contents of a scope, then those of a scope inside it. */
  lemma {:induction false} WithinDeeper(es: Entries, at: seq<string>, x: Entries, names: seq<string>, y: Entries)
    ensures Within(Within(es, at, x), at + names, y) == Within(es, at, Within(x, names, y))
    decreases |at|
  {
    if |at| == 0 {
      assert at + names == names;
    } else {
      hide Put, Inner, Find;
      var a := at[0];
      assert (at + names)[1..] == at[1..] + names && (at + names)[0] == a;
      var sub := Within(Inner(es, a), at[1..], x);
      WithinDeeper(Inner(es, a), at[1..], x, names, y);
      InnerPut(es, a, sub, a);
      PutTwice(es, a, ScopeItem(sub), ScopeItem(Within(sub, at[1..] + names, y)));
    }
  }

  lemma CurrentSet(path: Path, es: Entries)
    ensures Current(SetCurrent(path, es)) == es
  {
    ContentsWithin(path.root, path.at, es);
  }

  lemma SetTwice(path: Path, a: Entries, b: Entries)
    ensures SetCurrent(SetCurrent(path, a), b) == SetCurrent(path, b)
  {
    WithinDeeper(path.root, path.at, a, [], b);
    assert path.at + [] == path.at;
  }

  // ---------- assignment and lookup ----------

  /** Neither list of names begins with the other. */
  predicate Apart(a: seq<string>, b: seq<string>) { !(a <= b) && !(b <= a) }

  lemma ApartTails(a: seq<string>, b: seq<string>)
    requires |a| > 0 && |b| > 0 && a[0] == b[0] && Apart(a, b)
    ensures Apart(a[1..], b[1..]) && |a| > 1 && |b| > 1
  {
    assert a == [a[0]] + a[1..] && b == [b[0]] + b[1..];
  }

  /** What has been assigned to a dotted name is found under it, and what is found under names apart
      from it is as before. */
  lemma {:induction false} InsertThenLookup(es: Entries, names: seq<string>, item: Item, other: seq<string>)
    requires |names| > 0 && |other| > 0 && Insert(es, names, item).Some?
    ensures LookupHelper(Insert(es, names, item).value, names) == Some(item)
    ensures Apart(other, names) ==> LookupHelper(Insert(es, names, item).value, other) == LookupHelper(es, other)
    decreases |names|
  {
    hide Put, Find;
    if |names| == 1 {
      FindPut(es, names[0], item, names[0]);
      FindPut(es, names[0], item, other[0]);
      assert names == [names[0]];
      assert other[0] == names[0] ==> names <= other;
    } else {
      var inner := Insert(Inner(es, names[0]), names[1..], item).value;
      InnerPut(es, names[0], inner, names[0]);
      InnerPut(es, names[0], inner, other[0]);
      FindPut(es, names[0], ScopeItem(inner), names[0]);
      FindPut(es, names[0], ScopeItem(inner), other[0]);
      InsertThenLookup(Inner(es, names[0]), names[1..], item, names[1..]);
      if Apart(other, names) && other[0] == names[0] {
        ApartTails(other, names);
        InsertThenLookup(Inner(es, names[0]), names[1..], item, other[1..]);
        LookupInside(es, other);
      }
    }
  }

  /** Looking up goes on in the scope of the first name; a scope that is not there is as good as an
      empty one. */
  lemma {:induction false} LookupInside(es: Entries, names: seq<string>)
    requires |names| > 1
    ensures LookupHelper(es, names) == LookupHelper(Inner(es, names[0]), names[1..])
    decreases |names|
  {
    if !IsScope(Find(es, names[0])) { NothingInside(names[1..]); }
  }

  lemma NothingInside(names: seq<string>)
    requires |names| > 0
    ensures LookupHelper([], names) == None
  {}

  // ---------- creating scopes ----------

  /** The scopes along the names are there afterwards, variables are found under the same names as
      before, and no others. */
  lemma {:induction false} EnsureKeepsVariables(es: Entries, names: seq<string>, other: seq<string>)
    requires |other| > 0 && EnsureScope(es, names).Some?
    ensures |names| > 0 ==> IsScope(LookupHelper(EnsureScope(es, names).value, names))
    ensures var before, after := LookupHelper(es, other), LookupHelper(EnsureScope(es, names).value, other);
            (IsVariable(before) || IsVariable(after)) ==> before == after
    decreases |names|
  {
    hide Put, Find;
    if |names| > 0 {
      var inner := EnsureScope(Inner(es, names[0]), names[1..]).value;
      var es' := EnsureScope(es, names).value;
      InnerPut(es, names[0], inner, names[0]);
      InnerPut(es, names[0], inner, other[0]);
      FindPut(es, names[0], ScopeItem(inner), names[0]);
      FindPut(es, names[0], ScopeItem(inner), other[0]);
      if |names| > 1 {
        LookupInside(es', names);
        EnsureKeepsVariables(Inner(es, names[0]), names[1..], names[1..]);
      }
      if |other| > 1 {
        LookupInside(es, other);
        LookupInside(es', other);
        if other[0] == names[0] { EnsureKeepsVariables(Inner(es, names[0]), names[1..], other[1..]); }
      }
    }
  }

  // ---------- where a name is found ----------

  /** The scope around the current one, at depth k from the root, has the names, and no scope
      between it and the current one has. */
  ghost predicate FoundAt(root: Entries, at: seq<string>, names: seq<string>, k: nat, item: Item)
    requires |names| > 0
  {
    k <= |at| && LookupHelper(Contents(root, at[..k]), names) == Some(item)
    && forall j :: k < j <= |at| ==> LookupHelper(Contents(root, at[..j]), names) == None
  }

  /** The nearest of the scopes from the current one outwards gives the item. */
  lemma {:induction false} NearestScope(root: Entries, at: seq<string>, names: seq<string>)
    requires |names| > 0
    ensures forall item :: LookupOutwards(root, at, names) == Some(item) <==> exists k :: FoundAt(root, at, names, k, item)
    ensures LookupOutwards(root, at, names) == None <==> forall j :: 0 <= j <= |at| ==> LookupHelper(Contents(root, at[..j]), names) == None
    decreases |at|
  {
    hide LookupHelper, Contents;
    var n, here := |at|, LookupHelper(Contents(root, at), names);
    assert at[..n] == at;
    if here.Some? {
      assert FoundAt(root, at, names, n, here.value);
    } else if n > 0 {
      var out := at[..n - 1];
      NearestScope(root, out, names);
      forall j | 0 <= j < n ensures out[..j] == at[..j] {}
      forall item, k: nat | k < n ensures FoundAt(root, at, names, k, item) <==> FoundAt(root, out, names, k, item) {}
    }
  }

  /** What a name stands for: one with a dot in front is looked up in the root scope, another one in
      the nearest scope around the current one that has it. */
  lemma NearestFirst(path: Path, name: string)
    requires |name| > 0
    ensures name[0] == '.' ==> Lookup(path, name) == LookupHelper(path.root, Components(name[1..]))
    ensures name[0] != '.' ==>
              forall item :: Lookup(path, name) == Some(item) <==> exists k :: FoundAt(path.root, path.at, Components(name), k, item)
    ensures name[0] != '.' ==>
              (Lookup(path, name) == None <==>
               forall j :: 0 <= j <= |path.at| ==> LookupHelper(Contents(path.root, path.at[..j]), Components(name)) == None)
  {
    NearestScope(path.root, path.at, Components(name));
  }
}
