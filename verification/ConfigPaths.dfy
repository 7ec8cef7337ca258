/** The contents of a configuration: nested scopes, names with dots, and what ConfigurationImpl.cpp
    looks up, inserts and creates under such names. */
module ConfigPaths {
  import opened Wrappers
  import StringFunctions

  datatype Item = StringItem(str: string) | ListItem(list: seq<string>) | ScopeItem(entries: seq<Entry>)

  datatype Entry = Entry(name: string, item: Item)

  /** The contents of a scope: entries in the order of their names, each name once. */
  type Entries = seq<Entry>

  /** A configuration, and the names that lead from its root to the current scope. */
  datatype Path = Path(root: Entries, at: seq<string>)

  // ---------- one scope ----------

  /** strcmp(a, b) < 0 */
  predicate Less(a: string, b: string)
  {
    |b| > 0 && (|a| == 0 || a[0] < b[0] || (a[0] == b[0] && Less(a[1..], b[1..])))
  }

  predicate Sorted(es: Entries) { forall i, j :: 0 <= i < j < |es| ==> Less(es[i].name, es[j].name) }

  function Find(es: Entries, name: string): Option<Item>
  {
    if |es| == 0 then None else if es[0].name == name then Some(es[0].item) else Find(es[1..], name)
  }

  /** Adds the item, or replaces the one of that name. */
  function Put(es: Entries, name: string, item: Item): Entries
  {
    if |es| == 0 || Less(name, es[0].name) then [Entry(name, item)] + es
    else if es[0].name == name then [Entry(name, item)] + es[1..]
    else [es[0]] + Put(es[1..], name, item)
  }

  function Without(es: Entries, name: string): Entries
  {
    if |es| == 0 then [] else if es[0].name == name then es[1..] else [es[0]] + Without(es[1..], name)
  }

  predicate IsScope(item: Option<Item>) { item.Some? && item.value.ScopeItem? }

  predicate IsVariable(item: Option<Item>) { item.Some? && !item.value.ScopeItem? }

  // ---------- nested scopes ----------

  /** The contents of the scope of that name, none if there is no such scope. */
  function Inner(es: Entries, name: string): Entries
  {
    match Find(es, name) case Some(ScopeItem(inner)) => inner case _ => []
  }

  function Contents(es: Entries, names: seq<string>): Entries
    decreases |names|
  {
    if |names| == 0 then es else Contents(Inner(es, names[0]), names[1..])
  }

  /** es with other contents in the scope that names lead to. */
  function Within(es: Entries, names: seq<string>, contents: Entries): Entries
    decreases |names|
  {
    if |names| == 0 then contents else Put(es, names[0], ScopeItem(Within(Inner(es, names[0]), names[1..], contents)))
  }

  function Current(path: Path): Entries { Contents(path.root, path.at) }

  function SetCurrent(path: Path, es: Entries): Path { Path(Within(path.root, path.at, es), path.at) }

  // ---------- names with dots ----------

  /** splitScopedNameIntoVector */
  function Components(name: string): (names: seq<string>)
    ensures |names| > 0
  {
    StringFunctions.Pieces(name, ".")
  }

  /** lookupHelper: from one scope down the names. */
  function LookupHelper(es: Entries, names: seq<string>): Option<Item>
    requires |names| > 0
    decreases |names|
  {
    if |names| == 1 then Find(es, names[0])
    else if IsScope(Find(es, names[0])) then LookupHelper(Inner(es, names[0]), names[1..])
    else None
  }

  /** From the current scope, then from those around it. */
  function LookupOutwards(root: Entries, at: seq<string>, names: seq<string>): Option<Item>
    requires |names| > 0
  {
    var item := LookupHelper(Contents(root, at), names);
    if item.Some? || |at| == 0 then item else LookupOutwards(root, at[..|at| - 1], names)
  }

  /** lookup without the fallback configuration: a name that begins with a dot is looked up in the
      root scope only. */
  function Lookup(path: Path, name: string): Option<Item>
  {
    if |name| == 0 then None
    else if name[0] == '.' then LookupHelper(path.root, Components(name[1..]))
    else LookupOutwards(path.root, path.at, Components(name))
  }

  /** insertString and insertList: the scopes in front of the last name are created, and that name
      is added or replaced; None if a variable is in the way of a scope or the reverse. */
  function Insert(es: Entries, names: seq<string>, item: Item): Option<Entries>
    requires |names| > 0
    decreases |names|
  {
    if |names| == 1 then
      if IsScope(Find(es, names[0])) then None else Some(Put(es, names[0], item))
    else if IsVariable(Find(es, names[0])) then None
    else match Insert(Inner(es, names[0]), names[1..], item)
         case None => None
         case Some(inner) => Some(Put(es, names[0], ScopeItem(inner)))
  }

  /** ensureScopeExists: all scopes along the names are created; None if a variable is in the way. */
  function EnsureScope(es: Entries, names: seq<string>): Option<Entries>
    decreases |names|
  {
    if |names| == 0 then Some(es)
    else if IsVariable(Find(es, names[0])) then None
    else match EnsureScope(Inner(es, names[0]), names[1..])
         case None => None
         case Some(inner) => Some(Put(es, names[0], ScopeItem(inner)))
  }
}
