/** The chained hash table of config4cpp's ConfigScope: linked entries behind an array of header
    entries, growing by relinking. It refines a finite map from names to items. */
module ConfigScopes {

  datatype ConfigItem =
    | NoItem
    | StringItem(str: string)
    | ListItem(list: seq<string>)
    | ScopeItem(scope: ConfigScope)

  class ConfigScopeEntry {
    const m_name: string
    var m_item: ConfigItem
    var m_next: ConfigScopeEntry?
    ghost const header: bool      // an element of a table, not an item's entry

    constructor (name: string, item: ConfigItem, next: ConfigScopeEntry?, ghost isHeader: bool)
      ensures m_name == name && m_item == item && m_next == next && header == isHeader
    {
      m_name, m_item, m_next, header := name, item, next, isHeader;
    }
  }

  // ---------- the hash function ----------

  /** A char of the source is signed. */
  function SignedChar(c: char): int
  {
    var v := c as int % 256;
    if v < 128 then v else v - 256
  }

  function CharSum(name: string): int
  {
    if |name| == 0 then 0 else CharSum(name[..|name| - 1]) + SignedChar(name[|name| - 1])
  }

  /** C++ remainder: it has the sign of the dividend. */
  function TruncatedRem(a: int, b: nat): int
    requires b > 0
  {
    if a >= 0 then a % b else -((-a) % b)
  }

  function HashOf(name: string, size: nat): int
    requires size > 0
  {
    TruncatedRem(CharSum(name), size)
  }

  /** The names that find a place in tables of all sizes. */
  ghost predicate Hashable(name: string) { CharSum(name) >= 0 }

  /** The hash is an index of the table exactly when the character sum is not negative, or is a
      multiple of the table size. */
  lemma HashInRange(name: string, size: nat)
    requires size > 0
    ensures 0 <= HashOf(name, size) < size <==> Hashable(name) || (-CharSum(name)) % size == 0
  {}

  /** A name of one byte above 127 has a negative index. */
  lemma NegativeIndex()
    ensures HashOf([255 as char], 16) == -1
  {
    assert CharSum([255 as char]) == CharSum([]) + SignedChar(255 as char);
  }

  /** Names of ASCII characters are hashable. */
  lemma {:induction false} AsciiHashable(name: string)
    requires forall i :: 0 <= i < |name| ==> name[i] < 128 as char
    ensures Hashable(name)
  {
    if |name| > 0 { AsciiHashable(name[..|name| - 1]); }
  }

  // ---------- chains ----------

  /** The entry at position k of a chain, or the nil pointer behind it. */
  ghost function At(s: seq<ConfigScopeEntry>, k: nat): ConfigScopeEntry?
  {
    if k < |s| then s[k] else null
  }

  /** The pointer first leads through the entries of s, to nil. */
  ghost predicate Chain(first: ConfigScopeEntry?, s: seq<ConfigScopeEntry>)
    reads s`m_next
  {
    first == At(s, 0) && forall k :: 0 <= k < |s| ==> s[k].m_next == At(s, k + 1)
  }

  /** x is the entry of its name, and belongs in bucket i. */
  ghost predicate Sits(x: ConfigScopeEntry, i: nat, size: nat, entries: map<string, ConfigScopeEntry>)
    requires size > 0
  {
    !x.header && x.m_name in entries && entries[x.m_name] == x && Hashable(x.m_name) && HashOf(x.m_name, size) == i
  }

  ghost predicate Members(s: seq<ConfigScopeEntry>, i: nat, size: nat, entries: map<string, ConfigScopeEntry>)
    requires size > 0
  {
    (forall x :: x in s ==> Sits(x, i, size, entries) && x in entries.Values) && (forall k, l :: 0 <= k < l < |s| ==> s[k] != s[l])
  }

  ghost predicate Headers(heads: seq<ConfigScopeEntry>)
  {
    (forall i :: 0 <= i < |heads| ==> heads[i].header) && (forall i, j :: 0 <= i < j < |heads| ==> heads[i] != heads[j])
  }

  /** The buckets hold entries of the map, each in the bucket of its hash, linked in order. */
  ghost predicate Buckets(heads: seq<ConfigScopeEntry>, nodes: seq<seq<ConfigScopeEntry>>, entries: map<string, ConfigScopeEntry>)
    reads heads`m_next, entries.Values`m_next
  {
    |heads| == |nodes| > 0 && Headers(heads)
    && (forall i :: 0 <= i < |nodes| ==> Members(nodes[i], i, |nodes|, entries))
    && (forall i :: 0 <= i < |nodes| ==> Chain(heads[i].m_next, nodes[i]))
  }

  ghost function Total(nodes: seq<seq<ConfigScopeEntry>>): nat
  {
    if |nodes| == 0 then 0 else Total(nodes[..|nodes| - 1]) + |nodes[|nodes| - 1]|
  }

  lemma {:induction false} TotalUpdate(nodes: seq<seq<ConfigScopeEntry>>, i: nat, s: seq<ConfigScopeEntry>)
    requires i < |nodes|
    ensures Total(nodes[i := s]) == Total(nodes) - |nodes[i]| + |s|
  {
    var n := |nodes| - 1;
    if i < n {
      assert nodes[i := s][..n] == nodes[..n][i := s];
      TotalUpdate(nodes[..n], i, s);
    } else {
      assert nodes[i := s][..n] == nodes[..n];
    }
  }

  /** Every entry of the map is in its bucket. */
  ghost predicate AllPlaced(nodes: seq<seq<ConfigScopeEntry>>, entries: map<string, ConfigScopeEntry>)
  {
    |nodes| > 0 && forall n :: n in entries ==> Placed(n, nodes, entries)
  }

  ghost predicate Placed(n: string, nodes: seq<seq<ConfigScopeEntry>>, entries: map<string, ConfigScopeEntry>)
    requires |nodes| > 0 && n in entries
  {
    entries[n].m_name == n && 0 <= HashOf(n, |nodes|) < |nodes| && entries[n] in nodes[HashOf(n, |nodes|)]
  }

  /** repr has all objects of the table t: nothing else is shared between tables. */
  ghost predicate Owns(repr: set<object>, t: object, table: array<ConfigScopeEntry>, heads: seq<ConfigScopeEntry>,
                       entries: map<string, ConfigScopeEntry>)
  {
    t in repr && table in repr && (forall h :: h in heads ==> h in repr) && entries.Values <= repr
  }

  lemma OwnsMore(repr: set<object>, t: object, table: array<ConfigScopeEntry>, heads: seq<ConfigScopeEntry>,
                 entries: map<string, ConfigScopeEntry>, name: string, x: ConfigScopeEntry)
    requires Owns(repr, t, table, heads, entries) && name !in entries
    ensures Owns(repr + {x}, t, table, heads, entries[name := x])
  {
    MoreValues(entries, name, x);
  }

  lemma OwnsTable(repr: set<object>, t: object, table: array<ConfigScopeEntry>, heads: seq<ConfigScopeEntry>,
                  table': array<ConfigScopeEntry>, heads': seq<ConfigScopeEntry>, entries: map<string, ConfigScopeEntry>)
    requires Owns(repr, t, table, heads, entries)
    ensures Owns(repr + {table'} + (set h | h in heads'), t, table', heads', entries)
  {}

  class ConfigScope {
    const m_parentScope: ConfigScope?
    var m_table: array<ConfigScopeEntry>
    var m_tableSize: nat
    var m_numEntries: nat
    ghost var heads: seq<ConfigScopeEntry>
    ghost var nodes: seq<seq<ConfigScopeEntry>>
    ghost var entries: map<string, ConfigScopeEntry>

    ghost var Repr: set<object>

    /** The table without the bound on its load. */
    ghost predicate Structured()
      reads this`Repr, this`m_table, this`m_tableSize, this`heads, this`nodes, this`entries, m_table, heads`m_next, entries.Values`m_next
    {
      16 <= m_tableSize == m_table.Length && m_table[..] == heads
      && Buckets(heads, nodes, entries) && AllPlaced(nodes, entries) && Total(nodes) == |entries|
      && Owns(Repr, this, m_table, heads, entries)
    }

    ghost predicate Valid()
      reads this, m_table, heads, entries.Values
    {
      Structured() && m_numEntries == |entries| && 2 * m_numEntries < m_tableSize
    }

    /** What the table means: the item of every name. */
    ghost function Contents(): map<string, ConfigItem>
      reads this`entries, entries.Values`m_item
    {
      map n | n in entries :: entries[n].m_item
    }

    constructor (parentScope: ConfigScope?)
      ensures Valid() && Contents() == map[] && fresh(Repr) && m_parentScope == parentScope
      ensures fresh(m_table) && entries == map[] && forall i :: 0 <= i < |heads| ==> fresh(heads[i])
    {
      m_parentScope := parentScope;
      m_tableSize := 16;
      m_numEntries := 0;
      entries := map[];
      nodes := seq(16, i => []);
      var table := NewTable(16);
      m_table := table;
      heads := table[..];
      Repr := {this, table} + set h | h in table[..];
      EmptyBuckets(table[..], seq(16, i => []), map[]);
      new;
      NoEntries(Repr, this, m_table, heads, entries);
    }

    /** hash: the sum of the characters, modulo the table size. */
    method hash(name: string) returns (result: int)
      requires m_tableSize > 0
      ensures result == HashOf(name, m_tableSize)
    {
      result := 0;
      var p := 0;
      while p < |name|
        invariant 0 <= p <= |name| && result == CharSum(name[..p])
      {
        assert name[..p + 1][..p] == name[..p];
        result := result + SignedChar(name[p]);
        p := p + 1;
      }
      assert name[..p] == name;
      result := TruncatedRem(result, m_tableSize);
    }

    /** findEntry: the entry of the name, if there is one, and its index in any case. */
    method findEntry(name: string) returns (entry: ConfigScopeEntry?, index: int)
      requires Structured() && Hashable(name)
      ensures 0 <= index == HashOf(name, m_tableSize) < m_tableSize
      ensures entry == if name in entries then entries[name] else null
    {
      hide AllPlaced, Buckets, Total, Owns, Hashable, HashOf;
      BucketCount(heads, nodes, entries);
      index := hash(name);
      HashInRange(name, m_tableSize);
      entry := m_table[index].m_next;
      ghost var k := 0;
      BucketFacts(heads, nodes, entries, index);
      WhereItIs(nodes, entries, name);
      while entry != null
        invariant 0 <= k <= |nodes[index]| && entry == At(nodes[index], k)
        invariant forall l :: 0 <= l < k ==> nodes[index][l].m_name != name
        decreases |nodes[index]| - k
      {
        if name == entry.m_name { return; }
        entry := entry.m_next;
        k := k + 1;
      }
    }

    /** addOrReplaceString: false, and nothing changed, if the name is that of a scope. */
    method addOrReplaceString(name: string, str: string) returns (ok: bool)
      requires Valid() && Hashable(name)
      modifies this, heads`m_next, entries.Values
      ensures Valid() && fresh(Repr - old(Repr))
      ensures ok <==> !(name in old(Contents()) && old(Contents())[name].ScopeItem?)
      ensures Contents() == if ok then old(Contents())[name := StringItem(str)] else old(Contents())
    {
      ok := addOrReplace(name, StringItem(str));
    }

    /** addOrReplaceList, in both its forms. */
    method addOrReplaceList(name: string, list: seq<string>) returns (ok: bool)
      requires Valid() && Hashable(name)
      modifies this, heads`m_next, entries.Values
      ensures Valid() && fresh(Repr - old(Repr))
      ensures ok <==> !(name in old(Contents()) && old(Contents())[name].ScopeItem?)
      ensures Contents() == if ok then old(Contents())[name := ListItem(list)] else old(Contents())
    {
      ok := addOrReplace(name, ListItem(list));
    }

    /** The text that the two operations share. */
    method addOrReplace(name: string, item: ConfigItem) returns (ok: bool)
      requires Valid() && Hashable(name)
      modifies this, heads`m_next, entries.Values
      ensures Valid() && fresh(Repr - old(Repr))
      ensures ok <==> !(name in old(Contents()) && old(Contents())[name].ScopeItem?)
      ensures Contents() == if ok then old(Contents())[name := item] else old(Contents())
    {
      hide Buckets, Owns, Total;
      var entry, index := findEntry(name);
      if entry != null && entry.m_item.ScopeItem? {
        ok := false;
      } else if entry != null {
        InPlace(nodes, entries, name);
        entry.m_item := item;
        ok := true;
      } else {
        addEntry(name, item);
        ok := true;
      }
    }

    /** ensureScopeExists: the scope of that name, made if there is no item of the name, or false. */
    method ensureScopeExists(name: string) returns (ok: bool, scope: ConfigScope?)
      requires Valid() && Hashable(name)
      modifies this, heads`m_next, entries.Values`m_next
      ensures Valid() && fresh(Repr - old(Repr))
      ensures ok <==> !(name in old(Contents()) && !old(Contents())[name].ScopeItem?)
      ensures ok <==> scope != null
      ensures ok && name in old(Contents()) ==> old(Contents())[name] == ScopeItem(scope) && Contents() == old(Contents())
      ensures ok && name !in old(Contents()) ==>
                fresh(scope) && fresh(scope.Repr) && scope.Repr !! Repr && scope.Valid() && scope.Contents() == map[]
                && scope.m_parentScope == this && Contents() == old(Contents())[name := ScopeItem(scope)]
      ensures !ok ==> Contents() == old(Contents())
    {
      hide ConfigScope.Structured;
      var entry, index := findEntry(name);
      if entry != null && !entry.m_item.ScopeItem? {
        ok, scope := false, null;
      } else if entry != null {
        ok, scope := true, entry.m_item.scope;
      } else {
        scope := addScope(name);
        ok := true;
      }
    }

    /** The last branch of ensureScopeExists: a new, empty scope inside this one. */
    method addScope(name: string) returns (scope: ConfigScope)
      requires Valid() && Hashable(name) && name !in entries
      modifies this, heads`m_next, entries.Values`m_next
      ensures Valid() && fresh(Repr - old(Repr)) && Contents() == old(Contents())[name := ScopeItem(scope)]
      ensures fresh(scope) && fresh(scope.Repr) && scope.Repr !! Repr && scope.Valid() && scope.Contents() == map[]
      ensures scope.m_parentScope == this
    {
      hide ConfigScope.Structured, ConfigScope.Contents, Hashable;
      makeRoom();
      scope := new ConfigScope(this);
      insertEntry(name, ScopeItem(scope));
    }

    /** listLocalNames: the names of the items whose type is in the mask, each once. The source
        asserts that wanted and unwanted entries add up to m_numEntries. */
    method listLocalNames(typeMask: nat) returns (vec: seq<string>)
      requires Valid()
      ensures forall n :: n in vec <==> n in Contents() && InMask(Contents()[n], typeMask)
      ensures forall i, j :: 0 <= i < j < |vec| ==> vec[i] != vec[j]
    {
      hide Buckets, AllPlaced, Owns, Total, InMask, Flat;
      BucketCount(heads, nodes, entries);
      vec := [];
      var countWanted, countUnwanted := 0, 0;
      var i := 0;
      NothingListed(nodes);
      while i < m_tableSize
        invariant 0 <= i <= m_tableSize && Listed(vec, Flat(nodes[..i]), entries, typeMask)
        invariant countWanted + countUnwanted == Total(nodes[..i])
      {
        hide Listed;
        FlatNext(nodes, i);
        var wanted, unwanted;
        vec, wanted, unwanted := listBucket(i, typeMask, vec);
        countWanted, countUnwanted := countWanted + wanted, countUnwanted + unwanted;
        i := i + 1;
      }
      assert nodes[..i] == nodes;
      assert countWanted + countUnwanted == m_numEntries;
      AllInFlat(nodes, entries);
    }

    /** The loop over one bucket of listLocalNames. */
    method listBucket(i: nat, typeMask: nat, vec0: seq<string>) returns (vec: seq<string>, countWanted: nat, countUnwanted: nat)
      requires Structured() && i < |nodes| && Listed(vec0, Flat(nodes[..i]), entries, typeMask)
      ensures Listed(vec, Flat(nodes[..i]) + nodes[i], entries, typeMask)
      ensures countWanted + countUnwanted == |nodes[i]|
    {
      hide Buckets, AllPlaced, Owns, Total, InMask, Flat, Listed;
      BucketCount(heads, nodes, entries);
      BucketFacts(heads, nodes, entries, i);
      vec, countWanted, countUnwanted := vec0, 0, 0;
      var entry := m_table[i].m_next;
      ghost var before, k := Flat(nodes[..i]), 0;
      assert before + nodes[i][..0] == before;
      while entry != null
        invariant 0 <= k <= |nodes[i]| && entry == At(nodes[i], k) && countWanted + countUnwanted == k
        invariant Listed(vec, before + nodes[i][..k], entries, typeMask)
        decreases |nodes[i]| - k
      {
        NotYet(heads, nodes, entries, i, k);
        ListedStep(vec, before + nodes[i][..k], entry, entries, typeMask);
        assert before + nodes[i][..k] + [nodes[i][k]] == before + nodes[i][..k + 1];
        if InMask(entry.m_item, typeMask) {
          vec := vec + [entry.m_name];
          countWanted := countWanted + 1;
        } else {
          countUnwanted := countUnwanted + 1;
        }
        entry := entry.m_next;
        k := k + 1;
      }
      assert nodes[i][..k] == nodes[i];
    }

    /** removeItem: false, and nothing changed, if there is no item of the name. */
    method removeItem(name: string) returns (removed: bool)
      requires Valid() && Hashable(name)
      modifies this, heads`m_next, entries.Values`m_next
      ensures Valid() && Repr == old(Repr)
      ensures removed <==> name in old(Contents())
      ensures Contents() == old(Contents()) - {name}
    {
      hide ConfigScope.Valid, ConfigScope.Contents;
      ghost var index, k;
      var entry;
      removed, entry, index, k := findBefore(name);
      if removed { removeNext(name, entry, index, k); }
    }

    method removeNext(name: string, entry: ConfigScopeEntry, ghost index: nat, ghost k: nat)
      requires Valid() && index < |nodes| && k < |nodes[index]| && nodes[index][k].m_name == name
      requires entry == if k == 0 then heads[index] else nodes[index][k - 1]
      modifies this`m_numEntries, this`nodes, this`entries, heads`m_next, entries.Values`m_next
      ensures Valid() && Contents() == old(Contents()) - {name}
    {
      hide ConfigScope.Structured;
      unlinkNext(name, entry, index, k);
      Smaller(old(entries), name);
      m_numEntries := m_numEntries - 1;
    }

    /** The loop of removeItem, which stops at the entry before that of the name: a header, or
        another entry of the bucket. */
    method findBefore(name: string) returns (found: bool, entry: ConfigScopeEntry, ghost index: nat, ghost k: nat)
      requires Valid() && Hashable(name)
      ensures found <==> name in Contents()
      ensures found ==> index < |nodes| && k < |nodes[index]| && nodes[index][k].m_name == name
                        && entry == if k == 0 then heads[index] else nodes[index][k - 1]
    {
      hide AllPlaced, Buckets, Total, Owns, Hashable, HashOf;
      BucketCount(heads, nodes, entries);
      var i := hash(name);
      HashInRange(name, m_tableSize);
      index, k := i, 0;
      entry := m_table[i];
      BucketFacts(heads, nodes, entries, index);
      WhereItIs(nodes, entries, name);
      while entry.m_next != null
        invariant 0 <= k <= |nodes[index]| && entry == (if k == 0 then heads[index] else nodes[index][k - 1])
        invariant entry.m_next == At(nodes[index], k)
        invariant forall l :: 0 <= l < k ==> nodes[index][l].m_name != name
        decreases |nodes[index]| - k
      {
        if name == entry.m_next.m_name { return true, entry, index, k; }
        entry := entry.m_next;
        k := k + 1;
      }
      found := false;
    }

    /** The found entry, the k-th of its bucket, is taken out of its chain. */
    method unlinkNext(name: string, entry: ConfigScopeEntry, ghost index: nat, ghost k: nat)
      requires Structured() && index < |nodes| && k < |nodes[index]| && nodes[index][k].m_name == name
      requires entry == if k == 0 then heads[index] else nodes[index][k - 1]
      modifies this`nodes, this`entries, heads`m_next, entries.Values`m_next
      ensures Structured() && name in old(entries) && entries == old(entries) - {name} && m_tableSize == old(m_tableSize)
    {
      hide AllPlaced, Buckets, Total, Owns, Hashable, HashOf;
      BucketCount(heads, nodes, entries);
      BucketFacts(heads, nodes, entries, index);
      var victim := entry.m_next;
      assert victim == nodes[index][k] && victim in entries.Values;
      assert if k == 0 then entry in heads else entry in entries.Values;
      hide Chain, At, Headers, Members, Sits;
      ghost var s := nodes[index][..k] + nodes[index][k + 1..];
      TotalUpdate(nodes, index, s);
      FewerEntries(heads, nodes, entries, index, k);
      Unlink(heads, nodes, entries, entry, victim, index, k);
      OwnsFewer(Repr, this, m_table, heads, entries, name);
      nodes := nodes[index := s];
      entries := entries - {name};
    }

    method findItem(name: string) returns (result: ConfigItem)
      requires Structured() && Hashable(name)
      ensures result == if name in Contents() then Contents()[name] else NoItem
    {
      hide ConfigScope.Structured;
      result := NoItem;
      var entry, index := findEntry(name);
      if entry != null { result := entry.m_item; }
    }

    method is_in_table(name: string) returns (r: bool)
      requires Structured() && Hashable(name)
      ensures r <==> name in Contents()
    {
      hide ConfigScope.Structured;
      var entry, index := findEntry(name);
      r := entry != null;
    }

    /** The else branches of the add operations: a new entry goes to the head of its bucket. */
    method addEntry(name: string, item: ConfigItem)
      requires Valid() && Hashable(name) && name !in entries
      modifies this, heads`m_next, entries.Values`m_next
      ensures Valid() && Contents() == old(Contents())[name := item]
      ensures fresh(Repr - old(Repr))
    {
      hide ConfigScope.Structured, ConfigScope.Contents, Hashable;
      makeRoom();
      insertEntry(name, item);
    }

    /** The count goes up, and with it the table if need be. */
    method makeRoom()
      requires Valid()
      modifies this, heads`m_next, entries.Values`m_next
      ensures Structured() && m_numEntries == |entries| + 1 && 2 * m_numEntries < m_tableSize
      ensures entries == old(entries) && Contents() == old(Contents())
      ensures fresh(Repr - old(Repr)) && forall i :: 0 <= i < |heads| ==> heads[i] in old(heads) || fresh(heads[i])
    {
      hide ConfigScope.Contents, Buckets, AllPlaced, Total, Owns;
      m_numEntries := m_numEntries + 1;
      growIfTooFull();
    }

    method insertEntry(name: string, item: ConfigItem)
      requires Structured() && Hashable(name) && name !in entries
      modifies this`Repr, this`entries, this`nodes, heads`m_next
      ensures Structured() && fresh(Repr - old(Repr)) && old(Repr) <= Repr && |entries| == old(|entries|) + 1
      ensures Contents() == old(Contents())[name := item]
    {
      hide ConfigScope.Structured;
      var newEntry := linkNew(name, item);
    }

    /** The new entry between its header and the entry that was first. */
    method linkNew(name: string, item: ConfigItem) returns (newEntry: ConfigScopeEntry)
      requires Structured() && Hashable(name) && name !in entries
      modifies this`Repr, this`entries, this`nodes, heads`m_next
      ensures Structured() && fresh(newEntry) && newEntry.m_item == item
      ensures Repr == old(Repr) + {newEntry} && entries == old(entries)[name := newEntry]
    {
      hide Buckets, AllPlaced, Total, Hashable, HashOf, Sits, Owns, Chain, At, Headers, Members;
      BucketCount(heads, nodes, entries);
      var index := hash(name);
      HashInRange(name, m_tableSize);
      var entry := m_table[index];
      newEntry := new ConfigScopeEntry(name, item, entry.m_next, false);
      ghost var s := nodes[index];
      MoreEntries(heads, nodes, entries, name, newEntry, index);
      TotalUpdate(nodes, index, [newEntry] + s);
      OwnsMore(Repr, this, m_table, heads, entries, name, newEntry);
      Repr := Repr + {newEntry};
      entries := entries[name := newEntry];
      Link(heads, nodes, entries, entry, newEntry, index);
      nodes := nodes[index := [newEntry] + s];
    }

    /** growIfTooFull: when the table is half full, its entries move to a table of twice the size. */
    method growIfTooFull()
      requires Structured() && m_numEntries == |entries| + 1 && 2 * |entries| < m_tableSize
      modifies this, heads`m_next, entries.Values`m_next
      ensures Structured() && 2 * m_numEntries < m_tableSize
      ensures m_numEntries == old(m_numEntries) && entries == old(entries)
      ensures fresh(Repr - old(Repr)) && forall i :: 0 <= i < |heads| ==> heads[i] in old(heads) || fresh(heads[i])
    {
      hide Buckets, AllPlaced, Total, Owns;
      if m_numEntries * 2 < m_tableSize { return; }
      Grow();
    }

    method Grow()
      requires Structured()
      modifies this`Repr, this`m_table, this`m_tableSize, this`heads, this`nodes, heads`m_next, entries.Values`m_next
      ensures Structured() && m_tableSize == 2 * old(m_tableSize)
      ensures fresh(Repr - old(Repr)) && forall i :: 0 <= i < |heads| ==> fresh(heads[i])
    {
      hide Owns, Buckets, AllPlaced, Total, Remaining, Placed, Holds, Chain;
      BucketCount(heads, nodes, entries);
      Unstarted(heads, nodes, entries);
      var origTable, origTableSize := m_table, m_tableSize;
      ghost var origNodes, origHeads := nodes, heads;
      StartTable();
      forall j | 0 <= j < |origNodes| ensures Chain(origHeads[j].m_next, origNodes[j]) {
        assert old(Chain(origHeads[j].m_next, origNodes[j]));
      }
      Relink(origTable, origTableSize, origHeads, origNodes);
    }

    /** The new, empty table. */
    method StartTable()
      requires m_tableSize >= 16 && Owns(Repr, this, m_table, heads, entries)
      modifies this`Repr, this`m_table, this`m_tableSize, this`heads, this`nodes
      ensures Owns(Repr, this, m_table, heads, entries) && fresh(Repr - old(Repr))
      ensures m_tableSize == 2 * old(m_tableSize) == m_table.Length && m_table[..] == heads
      ensures fresh(m_table) && forall i :: 0 <= i < |heads| ==> fresh(heads[i])
      ensures Buckets(heads, nodes, entries) && |nodes| == m_tableSize && Total(nodes) == 0
      ensures forall i :: 0 <= i < |nodes| ==> nodes[i] == []
    {
      hide Owns, Buckets, Total, Headers;
      m_tableSize := m_tableSize * 2;
      m_table := NewTable(m_tableSize);
      heads := m_table[..];
      OwnsTable(Repr, this, old(m_table), old(heads), m_table, heads, entries);
      Repr := Repr + {m_table} + set h | h in heads;
      nodes := seq(m_tableSize, i => []);
      EmptyBuckets(heads, nodes, entries);
    }

    /** The outer loop of growIfTooFull. */
    method Relink(origTable: array<ConfigScopeEntry>, origTableSize: nat,
                  ghost origHeads: seq<ConfigScopeEntry>, ghost origNodes: seq<seq<ConfigScopeEntry>>)
      requires m_table != origTable && origTable[..] == origHeads && |origHeads| == origTableSize
      requires 0 < m_tableSize == m_table.Length && m_table[..] == heads && Buckets(heads, nodes, entries)
      requires Remaining(origHeads, origNodes, entries, 0) && Apart(heads, origHeads)
      requires forall j :: 0 <= j < |origNodes| ==> Chain(origHeads[j].m_next, origNodes[j])
      requires forall n :: n in entries ==> Placed(n, origNodes, entries)
      requires forall i :: 0 <= i < |nodes| ==> nodes[i] == []
      requires Owns(Repr, this, m_table, heads, entries)
      requires |nodes| == m_tableSize >= 16 && Total(nodes) == 0 && Total(origNodes) == |entries|
      modifies this`nodes, heads`m_next, origHeads`m_next, entries.Values`m_next
      ensures Structured()
    {
      hide Owns, Buckets, AllPlaced, Total, Apart, Chain, Halves, Remaining, Holds, Placed;
      RemainingCount(origHeads, origNodes, entries, 0);
      ghost var rest := origNodes;
      var i := 0;
      StartHalves(nodes, rest, entries);
      while i < origTableSize
        invariant 0 <= i <= origTableSize && origTable[..] == origHeads && m_table[..] == heads
        invariant Buckets(heads, nodes, entries) && Remaining(origHeads, rest, entries, i)
        invariant |rest| == origTableSize && Halves(nodes, rest, entries)
        invariant forall j :: i <= j < |rest| ==> Chain(origHeads[j].m_next, rest[j])
        invariant Total(nodes) + Total(rest) == |entries|
      {
        MoveAndClear(origTable, origHeads, rest, i);
        RemainingNext(origHeads, rest, entries, i);
        TotalUpdate(rest, i, []);
        rest := rest[i := []];
        i := i + 1;
      }
      Finished(origHeads, rest, nodes, entries);
    }

    /** The body of the outer loop. */
    method MoveAndClear(origTable: array<ConfigScopeEntry>, ghost origHeads: seq<ConfigScopeEntry>,
                        ghost rest: seq<seq<ConfigScopeEntry>>, i: nat)
      requires origTable[..] == origHeads && i < |origHeads| == |rest|
      requires 0 < m_tableSize == m_table.Length && m_table[..] == heads && Buckets(heads, nodes, entries)
      requires Remaining(origHeads, rest, entries, i) && Apart(heads, origHeads) && Halves(nodes, rest, entries)
      requires forall j :: i <= j < |rest| ==> Chain(origHeads[j].m_next, rest[j])
      modifies this`nodes, heads`m_next, origHeads`m_next, entries.Values`m_next
      ensures Buckets(heads, nodes, entries)
      ensures forall j :: i < j < |rest| ==> Chain(origHeads[j].m_next, rest[j])
      ensures Halves(nodes, rest[i := []], entries) && Total(nodes) == old(Total(nodes)) + |rest[i]|
    {
      hide Buckets, Remaining, Total, Halves, Loose, Apart, At;
      BucketMoves(rest, nodes, entries, origHeads, i);
      BucketHeads(heads, nodes, entries);
      Separate(heads, origHeads, rest, entries, i);
      MoveBucket(origTable[i].m_next, rest[i]);
      origTable[i].m_next := null;
      forall j | i < j < |rest| ensures Chain(origHeads[j].m_next, rest[j]) {
        assert old(Chain(origHeads[j].m_next, rest[j]));
        forall k | 0 <= k < |rest[j]| ensures rest[j][k].m_next == At(rest[j], k + 1) {
          var x := rest[j][k];
          assert x in rest[j] && old(x.m_next) == At(rest[j], k + 1);
          assert x !in rest[i] && x !in heads;
          assert x.m_next == old(x.m_next);
        }
      }
      BucketMoved(rest, old(nodes), nodes, entries, i);
    }

    /** The inner loop: every entry of the old chain goes to the head of its new bucket. */
    method MoveBucket(first: ConfigScopeEntry?, ghost chain: seq<ConfigScopeEntry>)
      requires 0 < m_tableSize == m_table.Length && m_table[..] == heads && Buckets(heads, nodes, entries)
      requires Chain(first, chain) && Named(entries) && Loose(chain, nodes, entries)
      modifies this`nodes, heads`m_next, chain`m_next
      ensures Buckets(heads, nodes, entries) && Total(nodes) == old(Total(nodes)) + |chain| && |nodes| == old(|nodes|)
      ensures Grown(nodes, old(nodes), entries, chain)
    {
      hide Buckets, Total, Grown, Loose, Named, Chain;
      var entry := first;
      ghost var k := 0;
      assert chain[0..] == chain && chain[..0] == [];
      AtStart(entry, chain);
      BucketCount(heads, nodes, entries);
      GrownNot(nodes, entries);
      while entry != null
        invariant 0 <= k <= |chain| && (entry == null <==> k == |chain|)
        invariant |nodes| == old(|nodes|) && Buckets(heads, nodes, entries) && Total(nodes) == old(Total(nodes)) + k
        invariant Chain(entry, chain[k..]) && Loose(chain[k..], nodes, entries)
        invariant Grown(nodes, old(nodes), entries, chain[..k])
        decreases |chain| - k
      {
        AtStart(entry, chain[k..]);
        ghost var nodes0, x := nodes, entry;
        entry := MoveEntry(entry, chain[k..]);
        GrownStep(nodes, nodes0, old(nodes), entries, chain[..k], x);
        assert chain[k..][1..] == chain[k + 1..] && chain[..k + 1] == chain[..k] + [chain[k]];
        k := k + 1;
        AtStart(entry, chain[k..]);
      }
      assert chain[..k] == chain;
    }

    /** One turn of the inner loop. */
    method MoveEntry(entry: ConfigScopeEntry, ghost chain: seq<ConfigScopeEntry>) returns (nextEntry: ConfigScopeEntry?)
      requires 0 < m_tableSize == m_table.Length && m_table[..] == heads && Buckets(heads, nodes, entries)
      requires Chain(entry, chain) && Named(entries) && Loose(chain, nodes, entries)
      modifies this`nodes, heads`m_next, entry`m_next
      ensures chain[0] == entry && Chain(nextEntry, chain[1..]) && Loose(chain[1..], nodes, entries)
      ensures Buckets(heads, nodes, entries) && Total(nodes) == old(Total(nodes)) + 1 && |nodes| == old(|nodes|)
      ensures Grown(nodes, old(nodes), entries, [entry])
    {
      hide Buckets, Sits, Total, HashOf, Hashable, Placed, Holds, Loose, Named, Grown;
      BucketCount(heads, nodes, entries);
      BucketHeads(heads, nodes, entries);
      var index := hash(entry.m_name);
      LooseHead(chain, nodes, entries, index);
      nextEntry := entry.m_next;
      Link(heads, nodes, entries, m_table[index], entry, index);
      TotalUpdate(nodes, index, [entry] + nodes[index]);
      nodes := nodes[index := [entry] + nodes[index]];
      forall k | 0 <= k < |chain[1..]| ensures chain[1..][k].m_next == At(chain[1..], k + 1) {
        assert chain[1..][k] == chain[k + 1];
      }
    }
  }

  lemma AtStart(first: ConfigScopeEntry?, s: seq<ConfigScopeEntry>)
    requires Chain(first, s)
    ensures first == null <==> |s| == 0
    ensures first != null ==> first == s[0]
  {}

  /** The new table of growIfTooFull: header entries without chains. */
  method NewTable(size: nat) returns (table: array<ConfigScopeEntry>)
    requires size > 0
    ensures fresh(table) && table.Length == size && Headers(table[..])
    ensures forall i :: 0 <= i < size ==> fresh(table[i]) && table[i].m_next == null
  {
    var h := new ConfigScopeEntry("", NoItem, null, true);
    table := new ConfigScopeEntry[size](_ => h);
    var i := 0;
    while i < size
      invariant 0 <= i <= size && fresh(table)
      invariant forall j :: 0 <= j < size ==> fresh(table[j])
      invariant forall j :: 0 <= j < i ==> table[j].m_next == null && table[j].header
      invariant forall j, k :: 0 <= j < k < i ==> table[j] != table[k]
    {
      h := new ConfigScopeEntry("", NoItem, null, true);
      table[i] := h;
      i := i + 1;
    }
  }

  /** x is in one of the buckets. */
  ghost predicate Holds(nodes: seq<seq<ConfigScopeEntry>>, x: ConfigScopeEntry)
  {
    exists i :: 0 <= i < |nodes| && x in nodes[i]
  }

  /** Entries of the map, each once, that the buckets do not hold. */
  ghost predicate Loose(chain: seq<ConfigScopeEntry>, nodes: seq<seq<ConfigScopeEntry>>, entries: map<string, ConfigScopeEntry>)
  {
    (forall x :: x in chain ==> !x.header && x.m_name in entries && entries[x.m_name] == x && Hashable(x.m_name) && !Holds(nodes, x))
    && forall k, l :: 0 <= k < l < |chain| ==> chain[k] != chain[l]
  }

  /** Every name is mapped to an entry of that name. */
  ghost predicate Named(entries: map<string, ConfigScopeEntry>)
  {
    forall n :: n in entries ==> entries[n].m_name == n && !entries[n].header
  }

  /** The buckets have taken in the entries xs, and no others. */
  ghost predicate Grown(nodes': seq<seq<ConfigScopeEntry>>, nodes: seq<seq<ConfigScopeEntry>>,
                        entries: map<string, ConfigScopeEntry>, xs: seq<ConfigScopeEntry>)
  {
    |nodes'| == |nodes| > 0
    && (forall n :: n in entries && (Placed(n, nodes, entries) || entries[n] in xs) ==> Placed(n, nodes', entries))
    && (forall i, x :: 0 <= i < |nodes'| && x in nodes'[i] ==> Holds(nodes, x) || x in xs)
  }

  lemma GrownNot(nodes: seq<seq<ConfigScopeEntry>>, entries: map<string, ConfigScopeEntry>)
    requires |nodes| > 0
    ensures Grown(nodes, nodes, entries, [])
  {}

  lemma GrownStep(nodes'': seq<seq<ConfigScopeEntry>>, nodes': seq<seq<ConfigScopeEntry>>, nodes: seq<seq<ConfigScopeEntry>>,
                  entries: map<string, ConfigScopeEntry>, xs: seq<ConfigScopeEntry>, x: ConfigScopeEntry)
    requires Grown(nodes', nodes, entries, xs) && Grown(nodes'', nodes', entries, [x])
    ensures Grown(nodes'', nodes, entries, xs + [x])
  {
    hide Placed;
    forall i, y | 0 <= i < |nodes''| && y in nodes''[i] ensures Holds(nodes, y) || y in xs + [x] {
      if y != x {
        assert Holds(nodes', y);
        var j :| 0 <= j < |nodes'| && y in nodes'[j];
      }
    }
  }

  /** Buckets from i on hold what they held, those before are empty. */
  ghost predicate Remaining(heads: seq<ConfigScopeEntry>, rest: seq<seq<ConfigScopeEntry>>, entries: map<string, ConfigScopeEntry>, i: nat)
  {
    |heads| == |rest| > 0 && Headers(heads)
    && Named(entries)
    && (forall j :: 0 <= j < |rest| ==> Members(rest[j], j, |rest|, entries))
    && (forall j :: 0 <= j < i && j < |rest| ==> rest[j] == [])
  }

  ghost predicate Apart(heads: seq<ConfigScopeEntry>, others: seq<ConfigScopeEntry>)
  {
    forall i, j :: 0 <= i < |heads| && 0 <= j < |others| ==> heads[i] != others[j]
  }

  /** Every entry of the map is in its place in one of the two tables, and in no two of them. */
  ghost predicate Halves(nodes: seq<seq<ConfigScopeEntry>>, rest: seq<seq<ConfigScopeEntry>>, entries: map<string, ConfigScopeEntry>)
  {
    |nodes| > 0 && |rest| > 0
    && (forall n :: n in entries ==> Placed(n, nodes, entries) || Placed(n, rest, entries))
    && (forall i, x :: 0 <= i < |nodes| && x in nodes[i] ==> !Holds(rest, x))
  }

  lemma BucketHeads(heads: seq<ConfigScopeEntry>, nodes: seq<seq<ConfigScopeEntry>>, entries: map<string, ConfigScopeEntry>)
    requires Buckets(heads, nodes, entries)
    ensures Headers(heads)
  {}

  lemma BucketCount(heads: seq<ConfigScopeEntry>, nodes: seq<seq<ConfigScopeEntry>>, entries: map<string, ConfigScopeEntry>)
    requires Buckets(heads, nodes, entries)
    ensures |heads| == |nodes| > 0
  {}

  /** Buckets stay as they are when the map gets an entry they do not hold. */
  lemma MoreEntries(heads: seq<ConfigScopeEntry>, nodes: seq<seq<ConfigScopeEntry>>, entries: map<string, ConfigScopeEntry>,
                    name: string, x: ConfigScopeEntry, index: nat)
    requires Buckets(heads, nodes, entries) && AllPlaced(nodes, entries) && name !in entries
    requires x.m_name == name && !x.header && Hashable(name) && HashOf(name, |nodes|) == index < |nodes|
    ensures Buckets(heads, nodes, entries[name := x])
    ensures Sits(x, index, |nodes|, entries[name := x])
    ensures AllPlaced(nodes[index := [x] + nodes[index]], entries[name := x])
    ensures forall i :: 0 <= i < |nodes| ==> x !in nodes[i]
  {
    hide HashOf, Hashable, Chain;
    forall i | 0 <= i < |nodes| ensures Members(nodes[i], i, |nodes|, entries[name := x]) && x !in nodes[i] {
      assert Members(nodes[i], i, |nodes|, entries);
      forall y | y in nodes[i] ensures Sits(y, i, |nodes|, entries[name := x]) && y in entries[name := x].Values && y != x {
        assert Sits(y, i, |nodes|, entries);
      }
    }
    var nodes', entries' := nodes[index := [x] + nodes[index]], entries[name := x];
    forall n | n in entries' ensures Placed(n, nodes', entries') {
      if n != name { assert Placed(n, nodes, entries); }
    }
  }

  /** Both ways in which the source puts an entry behind a header. */
  method Link(ghost heads: seq<ConfigScopeEntry>, ghost nodes: seq<seq<ConfigScopeEntry>>,
              ghost entries: map<string, ConfigScopeEntry>, head: ConfigScopeEntry, x: ConfigScopeEntry, ghost index: nat)
    requires Buckets(heads, nodes, entries) && index < |nodes| && head == heads[index]
    requires Sits(x, index, |nodes|, entries) && x !in nodes[index]
    modifies head`m_next, x`m_next
    ensures Buckets(heads, nodes[index := [x] + nodes[index]], entries)
  {
    hide HashOf, Hashable;
    x.m_next := head.m_next;
    head.m_next := x;
    ghost var nodes' := nodes[index := [x] + nodes[index]];
    assert x == entries[x.m_name];
    forall i | 0 <= i < |nodes| ensures Members(nodes'[i], i, |nodes|, entries) {
      assert Members(nodes[i], i, |nodes|, entries);
    }
    forall i | 0 <= i < |nodes| ensures Chain(heads[i].m_next, nodes'[i]) {
      assert old(Chain(heads[i].m_next, nodes[i]));
      assert Members(nodes[i], i, |nodes|, entries);
      forall y | y in nodes[i] ensures y != x && y != head {
        assert Sits(y, i, |nodes|, entries);
      }
      if i == index {
        var s := nodes[i];
        forall k | 0 <= k < |s| + 1 ensures ([x] + s)[k].m_next == At([x] + s, k + 1) {
          if k > 0 {
            assert ([x] + s)[k] == s[k - 1] && s[k - 1] in s && At([x] + s, k + 1) == At(s, k);
          }
        }
      } else {
        assert heads[i] != head;
        forall k | 0 <= k < |nodes[i]| ensures nodes'[i][k].m_next == At(nodes'[i], k + 1) {
          assert nodes[i][k] in nodes[i];
        }
      }
    }
  }

  /** The values of a map with one more key. */
  lemma MoreValues(entries: map<string, ConfigScopeEntry>, name: string, x: ConfigScopeEntry)
    requires name !in entries
    ensures entries[name := x].Values == entries.Values + {x}
  {
    var more := entries[name := x];
    forall y | y in entries.Values ensures y in more.Values {
      var n :| n in entries && entries[n] == y;
      assert more[n] == y;
    }
    assert more[name] == x;
  }

  // ---------- relinking ----------

  lemma Unstarted(heads: seq<ConfigScopeEntry>, nodes: seq<seq<ConfigScopeEntry>>, entries: map<string, ConfigScopeEntry>)
    requires Buckets(heads, nodes, entries) && AllPlaced(nodes, entries)
    ensures Remaining(heads, nodes, entries, 0)
    ensures forall j :: 0 <= j < |nodes| ==> Chain(heads[j].m_next, nodes[j])
    ensures forall n :: n in entries ==> Placed(n, nodes, entries)
  {
    hide Chain, HashOf, Hashable;
    forall n | n in entries ensures entries[n].m_name == n && !entries[n].header {
      assert Placed(n, nodes, entries);
      var i := HashOf(n, |nodes|);
      assert Members(nodes[i], i, |nodes|, entries);
      assert Sits(entries[n], i, |nodes|, entries);
    }
  }

  lemma EmptyBuckets(heads: seq<ConfigScopeEntry>, nodes: seq<seq<ConfigScopeEntry>>, entries: map<string, ConfigScopeEntry>)
    requires |heads| == |nodes| > 0 && Headers(heads)
    requires forall i :: 0 <= i < |nodes| ==> heads[i].m_next == null && nodes[i] == []
    ensures Buckets(heads, nodes, entries) && Total(nodes) == 0
  {
    TotalEmpty(nodes);
  }

  lemma {:induction false} TotalEmpty(nodes: seq<seq<ConfigScopeEntry>>)
    requires forall i :: 0 <= i < |nodes| ==> nodes[i] == []
    ensures Total(nodes) == 0
  {
    if |nodes| > 0 { TotalEmpty(nodes[..|nodes| - 1]); }
  }

  /** The chain that is moved next. */
  lemma BucketMoves(rest: seq<seq<ConfigScopeEntry>>, nodes: seq<seq<ConfigScopeEntry>>,
                    entries: map<string, ConfigScopeEntry>, heads: seq<ConfigScopeEntry>, i: nat)
    requires Remaining(heads, rest, entries, i) && i < |rest| && Halves(nodes, rest, entries)
    ensures Loose(rest[i], nodes, entries) && Named(entries)
    ensures forall x :: x in rest[i] ==> x in entries.Values
  {
    hide Hashable, HashOf;
    assert Members(rest[i], i, |rest|, entries);
    forall x | x in rest[i] ensures !Holds(nodes, x) {
      assert Holds(rest, x);
    }
  }

  /** What moving bucket i must not touch: the header itself stays out of the new table, and later
      buckets share nothing with it. */
  lemma Separate(heads: seq<ConfigScopeEntry>, origHeads: seq<ConfigScopeEntry>, rest: seq<seq<ConfigScopeEntry>>,
                 entries: map<string, ConfigScopeEntry>, i: nat)
    requires Remaining(origHeads, rest, entries, i) && i < |rest| && Apart(heads, origHeads) && Headers(heads)
    ensures origHeads[i] !in heads && origHeads[i] !in entries.Values
    ensures forall j :: i < j < |rest| ==> origHeads[j] !in heads && origHeads[j] !in rest[i] && origHeads[j] != origHeads[i]
    ensures forall j, x :: 0 <= j < |rest| && j != i && x in rest[j] ==> x !in rest[i] && x !in heads && x != origHeads[i]
  {
    hide Hashable, HashOf;
    assert Members(rest[i], i, |rest|, entries);
    forall x | x in rest[i] ensures !x.header && HashOf(x.m_name, |rest|) == i {
      assert Sits(x, i, |rest|, entries);
    }
    forall j, x | 0 <= j < |rest| && j != i && x in rest[j] ensures x !in rest[i] && !x.header {
      assert Members(rest[j], j, |rest|, entries);
      assert Sits(x, j, |rest|, entries);
    }
  }

  lemma RemainingCount(heads: seq<ConfigScopeEntry>, rest: seq<seq<ConfigScopeEntry>>, entries: map<string, ConfigScopeEntry>, i: nat)
    requires Remaining(heads, rest, entries, i)
    ensures |heads| == |rest| > 0
  {}

  lemma StartHalves(nodes: seq<seq<ConfigScopeEntry>>, rest: seq<seq<ConfigScopeEntry>>, entries: map<string, ConfigScopeEntry>)
    requires |nodes| > 0 && |rest| > 0 && (forall n :: n in entries ==> Placed(n, rest, entries))
    requires forall i :: 0 <= i < |nodes| ==> nodes[i] == []
    ensures Halves(nodes, rest, entries)
  {
    hide Placed;
  }

  lemma RemainingNext(heads: seq<ConfigScopeEntry>, rest: seq<seq<ConfigScopeEntry>>, entries: map<string, ConfigScopeEntry>, i: nat)
    requires Remaining(heads, rest, entries, i) && i < |rest|
    ensures Remaining(heads, rest[i := []], entries, i + 1)
  {
    hide Hashable, HashOf, Sits;
  }

  /** When all buckets have moved, every entry is in the new table. */
  lemma Finished(heads: seq<ConfigScopeEntry>, rest: seq<seq<ConfigScopeEntry>>, nodes: seq<seq<ConfigScopeEntry>>,
                 entries: map<string, ConfigScopeEntry>)
    requires Remaining(heads, rest, entries, |rest|) && Halves(nodes, rest, entries)
    ensures AllPlaced(nodes, entries) && Total(rest) == 0
  {
    TotalEmpty(rest);
  }

  /** The chain has moved from one table to the other. */
  lemma BucketMoved(rest: seq<seq<ConfigScopeEntry>>, nodes: seq<seq<ConfigScopeEntry>>, nodes': seq<seq<ConfigScopeEntry>>,
                    entries: map<string, ConfigScopeEntry>, i: nat)
    requires Halves(nodes, rest, entries) && i < |rest| && |nodes'| == |nodes|
    requires forall j, x :: 0 <= j < |rest| && j != i && x in rest[j] ==> x !in rest[i]
    requires Grown(nodes', nodes, entries, rest[i])
    ensures Halves(nodes', rest[i := []], entries)
  {
    hide HashOf;
    var rest' := rest[i := []];
    forall n | n in entries ensures Placed(n, nodes', entries) || Placed(n, rest', entries) {
      if Placed(n, rest, entries) && HashOf(n, |rest|) != i { assert Placed(n, rest', entries); }
    }
    forall k, x | 0 <= k < |nodes'| && x in nodes'[k] ensures !Holds(rest', x) {
      Cleared(rest, i, x);
      hide Placed;
      if Holds(nodes, x) {
        var j :| 0 <= j < |nodes| && x in nodes[j];
        assert !Holds(rest, x);
      }
    }
  }

  /** What is still held after bucket i was emptied. */
  lemma Cleared(rest: seq<seq<ConfigScopeEntry>>, i: nat, x: ConfigScopeEntry)
    requires i < |rest| && forall j, x :: 0 <= j < |rest| && j != i && x in rest[j] ==> x !in rest[i]
    ensures Holds(rest[i := []], x) ==> Holds(rest, x) && x !in rest[i]
  {
    if Holds(rest[i := []], x) {
      var j :| 0 <= j < |rest| && x in rest[i := []][j];
      assert x in rest[j];
    }
  }

  lemma StillHeld(nodes': seq<seq<ConfigScopeEntry>>, nodes: seq<seq<ConfigScopeEntry>>, x: ConfigScopeEntry, y: ConfigScopeEntry)
    requires forall i, z :: 0 <= i < |nodes'| && z in nodes'[i] ==> Holds(nodes, z) || z == x
    ensures Holds(nodes', y) ==> Holds(nodes, y) || y == x
  {}

  /** What putting the head of a loose chain into its bucket changes. */
  lemma LooseHead(chain: seq<ConfigScopeEntry>, nodes: seq<seq<ConfigScopeEntry>>, entries: map<string, ConfigScopeEntry>, index: int)
    requires |chain| > 0 && |nodes| > 0 && Named(entries) && Loose(chain, nodes, entries) && index == HashOf(chain[0].m_name, |nodes|)
    ensures 0 <= index < |nodes| && Sits(chain[0], index, |nodes|, entries) && chain[0] !in nodes[index]
    ensures forall k :: 0 < k < |chain| ==> chain[k] != chain[0] && !chain[k].header
    ensures var nodes' := nodes[index := [chain[0]] + nodes[index]];
            Loose(chain[1..], nodes', entries) && Grown(nodes', nodes, entries, [chain[0]])
  {
    var x := chain[0];
    assert x in chain;
    HashInRange(x.m_name, |nodes|);
    hide HashOf, Hashable;
    var nodes' := nodes[index := [x] + nodes[index]];
    assert x in nodes[index] ==> Holds(nodes, x);
    forall i, y | 0 <= i < |nodes'| && y in nodes'[i] ensures Holds(nodes, y) || y == x {
      if y != x { assert y in nodes[i]; }
    }
    forall k | 0 <= k < |chain[1..]| ensures chain[1..][k] != x && !Holds(nodes', chain[1..][k]) {
      var y := chain[1..][k];
      assert y == chain[k + 1] && y in chain;
      StillHeld(nodes', nodes, x, y);
    }
  }

  lemma NoEntries(repr: set<object>, t: object, table: array<ConfigScopeEntry>, heads: seq<ConfigScopeEntry>, entries: map<string, ConfigScopeEntry>)
    requires entries == map[] && repr == {t, table} + set h | h in heads
    ensures Owns(repr, t, table, heads, entries)
  {}

  /** Changing the item of an entry changes the contents at its name only. */
  lemma InPlace(nodes: seq<seq<ConfigScopeEntry>>, entries: map<string, ConfigScopeEntry>, name: string)
    requires AllPlaced(nodes, entries) && name in entries
    ensures forall n :: n in entries && n != name ==> entries[n] != entries[name]
  {
    forall n | n in entries ensures entries[n].m_name == n {
      assert Placed(n, nodes, entries);
    }
  }

  // ---------- removal ----------

  lemma BucketFacts(heads: seq<ConfigScopeEntry>, nodes: seq<seq<ConfigScopeEntry>>, entries: map<string, ConfigScopeEntry>, index: nat)
    requires Buckets(heads, nodes, entries) && index < |nodes|
    ensures Chain(heads[index].m_next, nodes[index])
    ensures forall k :: 0 <= k < |nodes[index]| ==>
              nodes[index][k] in entries.Values && !nodes[index][k].header && nodes[index][k].m_name in entries && entries[nodes[index][k].m_name] == nodes[index][k]
  {
    hide Hashable, HashOf;
    assert Members(nodes[index], index, |nodes|, entries);
    forall k | 0 <= k < |nodes[index]| ensures Sits(nodes[index][k], index, |nodes|, entries) {
      assert nodes[index][k] in nodes[index];
    }
  }

  /** An entry is found in the bucket of its hash, and nowhere else. */
  lemma WhereItIs(nodes: seq<seq<ConfigScopeEntry>>, entries: map<string, ConfigScopeEntry>, name: string)
    requires AllPlaced(nodes, entries)
    ensures name in entries ==> 0 <= HashOf(name, |nodes|) < |nodes| && entries[name].m_name == name && entries[name] in nodes[HashOf(name, |nodes|)]
  {
    hide HashOf;
    assert name in entries ==> Placed(name, nodes, entries);
  }

  /** Without the k-th entry of a bucket. */
  lemma FewerEntries(heads: seq<ConfigScopeEntry>, nodes: seq<seq<ConfigScopeEntry>>, entries: map<string, ConfigScopeEntry>,
                     index: nat, k: nat)
    requires Buckets(heads, nodes, entries) && AllPlaced(nodes, entries) && index < |nodes| && k < |nodes[index]|
    ensures var x := nodes[index][k];
            var nodes' := nodes[index := nodes[index][..k] + nodes[index][k + 1..]];
            x.m_name in entries && AllPlaced(nodes', entries - {x.m_name})
            && forall i :: 0 <= i < |nodes| ==> Members(nodes'[i], i, |nodes|, entries - {x.m_name})
  {
    hide Hashable, HashOf, Chain;
    BucketFacts(heads, nodes, entries, index);
    var x, s := nodes[index][k], nodes[index];
    var nodes', entries' := nodes[index := s[..k] + s[k + 1..]], entries - {x.m_name};
    forall i, y | 0 <= i < |nodes| && y in nodes'[i] ensures Sits(y, i, |nodes|, entries') && y in entries'.Values {
      assert Members(nodes[i], i, |nodes|, entries);
      assert y in nodes[i] && Sits(y, i, |nodes|, entries);
      assert y != x by { if i == index { Without(s, k, y); } else { assert x in nodes[index] && Sits(x, index, |nodes|, entries); } }
      assert entries'[y.m_name] == y;
    }
    assert Members(s, index, |nodes|, entries);
    forall n | n in entries' ensures Placed(n, nodes', entries') {
      assert Placed(n, nodes, entries);
      With(s, k, entries[n]);
    }
  }

  /** What is in a sequence without its k-th element. */
  lemma Without(s: seq<ConfigScopeEntry>, k: nat, y: ConfigScopeEntry)
    requires k < |s| && y in s[..k] + s[k + 1..] && forall i, j :: 0 <= i < j < |s| ==> s[i] != s[j]
    ensures y != s[k]
  {}

  lemma With(s: seq<ConfigScopeEntry>, k: nat, y: ConfigScopeEntry)
    requires k < |s|
    ensures y in s && y != s[k] ==> y in s[..k] + s[k + 1..]
  {
    assert s == s[..k] + [s[k]] + s[k + 1..];
  }

  lemma OwnsFewer(repr: set<object>, t: object, table: array<ConfigScopeEntry>, heads: seq<ConfigScopeEntry>,
                  entries: map<string, ConfigScopeEntry>, name: string)
    requires Owns(repr, t, table, heads, entries)
    ensures Owns(repr, t, table, heads, entries - {name})
  {}

  method Unlink(ghost heads: seq<ConfigScopeEntry>, ghost nodes: seq<seq<ConfigScopeEntry>>, ghost entries: map<string, ConfigScopeEntry>,
                entry: ConfigScopeEntry, victim: ConfigScopeEntry, ghost index: nat, ghost k: nat)
    requires Buckets(heads, nodes, entries) && index < |nodes| && k < |nodes[index]| && victim == nodes[index][k]
    requires entry == if k == 0 then heads[index] else nodes[index][k - 1]
    requires var nodes' := nodes[index := nodes[index][..k] + nodes[index][k + 1..]];
             forall i :: 0 <= i < |nodes| ==> Members(nodes'[i], i, |nodes|, entries - {victim.m_name})
    modifies entry`m_next, victim`m_next
    ensures Buckets(heads, nodes[index := nodes[index][..k] + nodes[index][k + 1..]], entries - {victim.m_name})
  {
    hide Hashable, HashOf;
    BucketFacts(heads, nodes, entries, index);
    entry.m_next := victim.m_next;
    victim.m_next := null;
    ghost var s := nodes[index];
    ghost var s' := s[..k] + s[k + 1..];
    forall i | 0 <= i < |nodes| ensures Chain(heads[i].m_next, nodes[index := s'][i]) {
      assert old(Chain(heads[i].m_next, nodes[i]));
      assert Members(nodes[i], i, |nodes|, entries);
      forall y | y in nodes[i] ensures !y.header && (i != index ==> y != victim && y != entry) {
        assert Sits(y, i, |nodes|, entries);
      }
      forall j | 0 <= j < |nodes[i]| ensures nodes[i][j] in nodes[i] && old(nodes[i][j].m_next) == At(nodes[i], j + 1) {}
      if i == index {
        Spliced(heads[i], s, k);
      } else {
        assert heads[i] != entry && heads[i] != victim;
      }
    }
  }

  /** The chain s with its k-th entry bypassed. */
  lemma Spliced(head: ConfigScopeEntry, s: seq<ConfigScopeEntry>, k: nat)
    requires k < |s| && head !in s && forall i, j :: 0 <= i < j < |s| ==> s[i] != s[j]
    requires head.m_next == At(s, if k == 0 then 1 else 0)
    requires forall j :: 0 <= j < |s| && j != k ==> s[j].m_next == At(s, if j + 1 == k then k + 1 else j + 1)
    ensures Chain(head.m_next, s[..k] + s[k + 1..])
  {}

  lemma Smaller(entries: map<string, ConfigScopeEntry>, name: string)
    requires name in entries
    ensures |entries - {name}| == |entries| - 1
  {
    assert (entries - {name}).Keys == entries.Keys - {name};
  }

  // ---------- listing ----------

  /** The bit of an item's type is set in the mask. */
  predicate InMask(item: ConfigItem, mask: nat)
  {
    match item
    case NoItem => false
    case StringItem(_) => mask % 2 == 1
    case ListItem(_) => mask / 2 % 2 == 1
    case ScopeItem(_) => mask / 4 % 2 == 1
  }

  /** The names of the wanted entries among done, each once. */
  ghost predicate Listed(vec: seq<string>, done: seq<ConfigScopeEntry>, entries: map<string, ConfigScopeEntry>, mask: nat)
    reads done`m_item, entries.Values`m_item
  {
    (forall n :: n in vec ==> n in entries && entries[n] in done && InMask(entries[n].m_item, mask))
    && (forall x :: x in done && InMask(x.m_item, mask) ==> x.m_name in vec)
    && (forall i, j :: 0 <= i < j < |vec| ==> vec[i] != vec[j])
  }

  lemma ListedStep(vec: seq<string>, done: seq<ConfigScopeEntry>, x: ConfigScopeEntry, entries: map<string, ConfigScopeEntry>, mask: nat)
    requires Listed(vec, done, entries, mask) && x !in done && x.m_name in entries && entries[x.m_name] == x
    ensures Listed(if InMask(x.m_item, mask) then vec + [x.m_name] else vec, done + [x], entries, mask)
  {
    hide InMask;
  }

  /** All entries, bucket by bucket. */
  ghost function Flat(nodes: seq<seq<ConfigScopeEntry>>): seq<ConfigScopeEntry>
  {
    if |nodes| == 0 then [] else Flat(nodes[..|nodes| - 1]) + nodes[|nodes| - 1]
  }

  lemma NothingListed(nodes: seq<seq<ConfigScopeEntry>>)
    ensures Flat(nodes[..0]) == [] && Total(nodes[..0]) == 0
  {}

  lemma FlatNext(nodes: seq<seq<ConfigScopeEntry>>, i: nat)
    requires i < |nodes|
    ensures Flat(nodes[..i + 1]) == Flat(nodes[..i]) + nodes[i] && Total(nodes[..i + 1]) == Total(nodes[..i]) + |nodes[i]|
  {
    assert nodes[..i + 1][..i] == nodes[..i];
  }

  lemma {:induction false} FlatHolds(nodes: seq<seq<ConfigScopeEntry>>, x: ConfigScopeEntry)
    ensures x in Flat(nodes) <==> exists i :: 0 <= i < |nodes| && x in nodes[i]
  {
    if |nodes| > 0 {
      var n := |nodes| - 1;
      FlatHolds(nodes[..n], x);
      if x in Flat(nodes[..n]) {
        var i :| 0 <= i < n && x in nodes[..n][i];
        assert x in nodes[i];
      }
      if i :| 0 <= i < |nodes| && x in nodes[i] {
        if i < n { assert x in nodes[..n][i]; }
      }
    }
  }

  lemma AllInFlat(nodes: seq<seq<ConfigScopeEntry>>, entries: map<string, ConfigScopeEntry>)
    requires AllPlaced(nodes, entries)
    ensures forall n :: n in entries ==> entries[n] in Flat(nodes) && entries[n].m_name == n
  {
    hide HashOf;
    forall n | n in entries ensures entries[n] in Flat(nodes) && entries[n].m_name == n {
      assert Placed(n, nodes, entries);
      FlatHolds(nodes, entries[n]);
    }
  }

  lemma NotYet(heads: seq<ConfigScopeEntry>, nodes: seq<seq<ConfigScopeEntry>>, entries: map<string, ConfigScopeEntry>, i: nat, k: nat)
    requires Buckets(heads, nodes, entries) && i < |nodes| && k < |nodes[i]|
    ensures nodes[i][k] !in Flat(nodes[..i]) + nodes[i][..k]
  {
    hide Hashable, HashOf, Chain;
    var x := nodes[i][k];
    FlatHolds(nodes[..i], x);
    assert Members(nodes[i], i, |nodes|, entries) && x in nodes[i] && Sits(x, i, |nodes|, entries);
    forall j | 0 <= j < i ensures x !in nodes[j] {
      assert Members(nodes[j], j, |nodes|, entries);
    }
  }
}
