/** The loops over dotted names in util.cpp and ConfigurationImpl.cpp. */
module ScopedNames {
  import opened Wrappers
  import opened ConfigPaths
  import opened StringFunctions

  /** splitScopedNameIntoVector: dots in a copy of the name are overwritten by NULs. */
  method splitScopedNameIntoVector(str: string) returns (vec: seq<string>)
    requires '\0' !in str
    ensures vec == Components(str)
  {
    hide FirstFrom, PiecesFrom;
    var tmpStr := NewBuffer(str);
    vec := [];
    var start := 0;
    var i := 0;
    while i < |str|
      invariant 0 <= start <= i <= |str| && Holds(tmpStr[..], str, start)
      invariant forall k :: start <= k < i ==> str[k] != '.'
      invariant vec + PiecesFrom(str, ".", start) == Components(str)
    {
      if tmpStr[i] == '.' {
        NoneFound(str, '.', start, i);
        NextPiece(str, ".", start, vec);
        var piece := CutPiece(tmpStr, str, start, i);
        vec := vec + [piece];
        start := i + 1;
      }
      i := i + 1;
    }
    NoneFound(str, '.', start, |str|);
    NextPiece(str, ".", start, vec);
    var last := CutPiece(tmpStr, str, start, |str|);
    assert str[start..|str|] == str[start..];
    vec := vec + [last];
  }

  method lookupHelper(scope: Entries, vec: seq<string>) returns (item: Option<Item>)
    requires |vec| > 0
    ensures item == LookupHelper(scope, vec)
  {
    hide Find;
    var current := scope;
    var i := 0;
    assert vec[0..] == vec;
    while i < |vec| - 1
      invariant 0 <= i < |vec| && LookupHelper(scope, vec) == LookupHelper(current, vec[i..])
    {
      assert vec[i..][1..] == vec[i + 1..];
      item := Find(current, vec[i]);
      if !IsScope(item) { return None; }
      current := item.value.entries;
      i := i + 1;
    }
    item := Find(current, vec[i]);
  }

  /** lookup, without the fallback configuration. */
  method lookup(path: Path, name: string) returns (item: Option<Item>)
    requires '\0' !in name
    ensures item == Lookup(path, name)
  {
    hide LookupHelper, Components, Contents;
    if |name| == 0 { return None; }
    if name[0] == '.' {
      var vec := splitScopedNameIntoVector(name[1..]);
      item := lookupHelper(path.root, vec);
      return;
    }
    var vec := splitScopedNameIntoVector(name);
    var at := path.at;
    item := lookupHelper(Contents(path.root, at), vec);
    while item.None? && |at| > 0
      invariant item == LookupHelper(Contents(path.root, at), vec)
      invariant LookupOutwards(path.root, path.at, vec) == LookupOutwards(path.root, at, vec)
      decreases |at|
    {
      at := at[..|at| - 1];
      item := lookupHelper(Contents(path.root, at), vec);
    }
  }

  /** Joining the components with dots gives the name back, and no component has a dot. */
  lemma ComponentsJoin(name: string)
    ensures Joined(Components(name), ".") == name
    ensures forall k :: 0 <= k < |Components(name)| ==> '.' !in Components(name)[k]
  {
    SplitThenJoin(name, ".", ".");
    var names := Components(name);
    forall k, j | 0 <= k < |names| && 0 <= j < |names[k]| ensures names[k][j] != '.' {
      PiecesAreFree(name, ".", 0, k, j);
      assert names[k][j..j + 1] == [names[k][j]];
    }
  }
}
