/** Entries sorted by name, as the model keeps a scope's contents, behave as a map. */
module SortedEntries {
  import opened Wrappers
  import opened ConfigPaths

  lemma {:induction false} LessIrreflexive(a: string)
    ensures !Less(a, a)
  {
    if |a| > 0 { LessIrreflexive(a[1..]); }
  }

  lemma {:induction false} LessTransitive(a: string, b: string, c: string)
    requires Less(a, b) && Less(b, c)
    ensures Less(a, c)
  {
    if |a| > 0 && a[0] == b[0] == c[0] { LessTransitive(a[1..], b[1..], c[1..]); }
  }

  lemma {:induction false} LessTotal(a: string, b: string)
    ensures Less(a, b) || Less(b, a) || a == b
  {
    if |a| > 0 && |b| > 0 && a[0] == b[0] {
      LessTotal(a[1..], b[1..]);
      if a[1..] == b[1..] { assert a == [a[0]] + a[1..] && b == [b[0]] + b[1..]; }
    }
  }

  lemma {:induction false} FindPut(es: Entries, name: string, item: Item, m: string)
    ensures Find(Put(es, name, item), m) == if m == name then Some(item) else Find(es, m)
  {
    hide Less;
    var r := Put(es, name, item);
    if |es| == 0 || Less(name, es[0].name) {
      assert r[1..] == es;
    } else if es[0].name == name {
      assert r[1..] == es[1..];
    } else {
      FindPut(es[1..], name, item, m);
      assert r[1..] == Put(es[1..], name, item);
    }
  }

  /** Taking a name out changes what is found at that name only. */
  lemma {:induction false} FindWithout(es: Entries, name: string, m: string)
    requires Sorted(es)
    ensures Sorted(Without(es, name))
    ensures Find(Without(es, name), m) == if m == name then None else Find(es, m)
  {
    hide Less;
    if |es| > 0 {
      SortedTail(es);
      if es[0].name == name {
        if m == name { assert Find(es[1..], m) == None; }
      } else {
        FindWithout(es[1..], name, m);
        WithoutIsPart(es[1..], name);
        var r := Without(es, name);
        assert r[1..] == Without(es[1..], name);
        forall i | 0 < i < |r| ensures Less(r[0].name, r[i].name) {
          assert r[1..][i - 1] in es[1..];
        }
        forall i, j | 0 < i < j < |r| ensures Less(r[i].name, r[j].name) {
          assert r[1..][i - 1] == r[i] && r[1..][j - 1] == r[j];
        }
      }
    }
  }

  lemma {:induction false} WithoutIsPart(es: Entries, name: string)
    ensures forall e :: e in Without(es, name) ==> e in es
  {
    if |es| > 0 { WithoutIsPart(es[1..], name); }
  }

  /** Of two puts at one name the second counts. */
  lemma {:induction false} PutTwice(es: Entries, name: string, a: Item, b: Item)
    ensures Put(Put(es, name, a), name, b) == Put(es, name, b)
  {
    LessIrreflexive(name);
    hide Less;
    var r := Put(es, name, a);
    if |es| == 0 || Less(name, es[0].name) {
      assert r[1..] == es;
    } else if es[0].name == name {
      assert r[1..] == es[1..];
    } else {
      PutTwice(es[1..], name, a, b);
      assert r[1..] == Put(es[1..], name, a);
    }
  }

  /** Only names of the list are found. */
  lemma {:induction false} FindIn(es: Entries, m: string)
    ensures Find(es, m).Some? <==> exists i :: 0 <= i < |es| && es[i].name == m
  {
    if |es| > 0 {
      FindIn(es[1..], m);
      if es[0].name != m && Find(es, m).Some? {
        var i :| 0 <= i < |es[1..]| && es[1..][i].name == m;
        assert es[i + 1].name == m;
      }
      if i :| 0 <= i < |es| && es[i].name == m {
        if i > 0 { assert es[1..][i - 1].name == m; }
      }
    }
  }

  lemma SortedTail(es: Entries)
    requires Sorted(es) && |es| > 0
    ensures Sorted(es[1..]) && Find(es[1..], es[0].name) == None
  {
    LessIrreflexive(es[0].name);
    FindIn(es[1..], es[0].name);
    hide Less;
    forall i | 0 <= i < |es[1..]| ensures es[1..][i].name != es[0].name {
      assert es[1..][i] == es[i + 1];
    }
  }

  lemma Prepended(e: Entry, es: Entries)
    requires Sorted(es) && (|es| > 0 ==> Less(e.name, es[0].name))
    ensures Sorted([e] + es)
  {
    hide Less;
    forall j | 0 <= j < |es| ensures Less(e.name, es[j].name) {
      if j > 0 { LessTransitive(e.name, es[0].name, es[j].name); }
    }
  }

  lemma {:induction false} PutSorted(es: Entries, name: string, item: Item)
    requires Sorted(es)
    ensures Sorted(Put(es, name, item))
    ensures |Put(es, name, item)| > 0
    ensures Put(es, name, item)[0].name == name || (|es| > 0 && Put(es, name, item)[0] == es[0])
  {
    hide Less, Sorted;
    if |es| == 0 || Less(name, es[0].name) {
      Prepended(Entry(name, item), es);
    } else if es[0].name == name {
      SortedTail(es);
      Heads(es);
      Prepended(Entry(name, item), es[1..]);
    } else {
      SortedTail(es);
      Heads(es);
      PutSorted(es[1..], name, item);
      LessTotal(name, es[0].name);
      Prepended(es[0], Put(es[1..], name, item));
    }
  }

  lemma Heads(es: Entries)
    requires Sorted(es)
    ensures |es| > 1 ==> Less(es[0].name, es[1].name)
  {}

  /** Two sorted lists in which the same is found are the same. */
  lemma {:induction false} Canonical(a: Entries, b: Entries)
    requires Sorted(a) && Sorted(b) && forall m :: Find(a, m) == Find(b, m)
    ensures a == b
  {
    hide Less, Sorted;
    assert |a| > 0 ==> Find(a, a[0].name).Some?;
    assert |b| > 0 ==> Find(b, b[0].name).Some?;
    if |a| > 0 && |b| > 0 {
      FirstIsLeast(a, b);
      SortedTail(a);
      SortedTail(b);
      forall m ensures Find(a[1..], m) == Find(b[1..], m) {
        assert Find(a, m) == Find(b, m);
      }
      Canonical(a[1..], b[1..]);
      assert a == [a[0]] + a[1..] && b == [b[0]] + b[1..];
    }
  }

  lemma FirstIsLeast(a: Entries, b: Entries)
    requires |a| > 0 && |b| > 0 && Sorted(a) && Sorted(b) && forall m :: Find(a, m) == Find(b, m)
    ensures a[0] == b[0]
  {
    assert Find(a, a[0].name) == Find(b, a[0].name) && Find(a, b[0].name) == Find(b, b[0].name);
    FindIn(b, a[0].name);
    FindIn(a, b[0].name);
    var i :| 0 <= i < |b| && b[i].name == a[0].name;
    var j :| 0 <= j < |a| && a[j].name == b[0].name;
    if i > 0 && j > 0 { LessTransitive(a[0].name, b[0].name, a[0].name); }
    LessIrreflexive(a[0].name);
    LessIrreflexive(b[0].name);
  }

  // ---------- adding the entries of a list in the order in which they are printed ----------

  /** Puts the entries of es that are scopes, or those that are not. */
  function PutPass(cur: Entries, es: Entries, scopes: bool): Entries
    decreases |es|
  {
    if |es| == 0 then cur
    else PutPass(if es[0].item.ScopeItem? == scopes then Put(cur, es[0].name, es[0].item) else cur, es[1..], scopes)
  }

  lemma {:induction false} FindPutPass(cur: Entries, es: Entries, scopes: bool, m: string)
    requires Sorted(es)
    ensures var f := Find(es, m);
            Find(PutPass(cur, es, scopes), m) == if f.Some? && f.value.ScopeItem? == scopes then f else Find(cur, m)
    decreases |es|
  {
    hide Sorted, Put;
    if |es| > 0 {
      var cur' := if es[0].item.ScopeItem? == scopes then Put(cur, es[0].name, es[0].item) else cur;
      SortedTail(es);
      FindPutPass(cur', es[1..], scopes, m);
      FindPut(cur, es[0].name, es[0].item, m);
    }
  }

  lemma {:induction false} PutPassSorted(cur: Entries, es: Entries, scopes: bool)
    requires Sorted(cur)
    ensures Sorted(PutPass(cur, es, scopes))
    decreases |es|
  {
    hide Sorted;
    if |es| > 0 {
      PutSorted(cur, es[0].name, es[0].item);
      PutPassSorted(if es[0].item.ScopeItem? == scopes then Put(cur, es[0].name, es[0].item) else cur, es[1..], scopes);
    }
  }

  /** Variables first and scopes second, the whole list comes back. */
  lemma BothPasses(es: Entries)
    requires Sorted(es)
    ensures PutPass(PutPass([], es, false), es, true) == es
  {
    var vars := PutPass([], es, false);
    var all := PutPass(vars, es, true);
    PutPassSorted([], es, false);
    PutPassSorted(vars, es, true);
    forall m ensures Find(all, m) == Find(es, m) {
      hide PutPass, Sorted, Find;
      FindPutPass([], es, false, m);
      FindPutPass(vars, es, true, m);
      NothingFound(m);
    }
    Canonical(all, es);
  }

  lemma NothingFound(m: string)
    ensures Find([], m) == None
  {}
}
