/** What the options promise for every entry of a reachable directory, said of names, types and ids
    alone, and that the traversal keeps to it exactly. */
module LfRules {
  import opened Helpers
  import opened LfWorld
  import opened LfTraversal
  import opened LfPaths

  /** `e` is an entry of the directory whose id the task's history ends with. */
  ghost predicate Listed(w: World, t: Task, e: Entry) {
    var id := t.history[|t.history| - 1];
    id in w.fs && w.fs[id].Listing? && e in w.fs[id].entries
  }

  /** A name that begins with a point, and is more than one or two points. */
  ghost predicate Dotted(name: string) {
    |name| > 1 && name[0] == '.' && name != ".."
  }

  /** `st` is the metadata of the file that an entry leads to, which for a link is its target, and
      `typ` what the entry counts as: a link that is not followed counts as a link. */
  ghost predicate Leads(f: Filters, e: Entry, st: Stat, typ: FileType) {
    && e.lstat.Stat? && st.Stat?
    && if e.lstat.typ == Lnk then st == e.target && typ == (if f.followLinks then st.typ else Lnk)
       else st == e.lstat && typ == st.typ
  }

  /** A directory may be entered unless it goes by "." or "..", lies on the path already, or is too deep. */
  ghost predicate Enterable(f: Filters, t: Task, name: string, id: Id) {
    && name != "." && name != ".."
    && (forall i :: 0 <= i < t.depth ==> t.history[i] != id)
    && (f.maxDepth == 0 || t.depth + 1 != f.maxDepth)
  }

  /** An entry is to be scanned, as this type. */
  ghost predicate DueScan(f: Filters, t: Task, e: Entry, typ: FileType) {
    exists st ::
      && Leads(f, e, st, typ)
      && if typ == Dir then Enterable(f, t, e.name, st.id) && (f.hiddenOnly ==> Dotted(e.name))
         else if Dotted(e.name) then f.includeHidden else !f.hiddenOnly
  }

  /** An entry is to be visited, as the directory `id`. */
  ghost predicate DueVisit(f: Filters, t: Task, e: Entry, id: Id) {
    exists st :: Leads(f, e, st, Dir) && st.id == id && Enterable(f, t, e.name, id)
  }

  /** The task for the directory `id` at entry `name`: one deeper, with the id at the end of its history. */
  ghost predicate TaskBelow(t: Task, name: string, id: Id, c: Task) {
    && c.path == t.path + "/" + name && c.depth == t.depth + 1
    && c.history[t.depth] == id && forall i :: 0 <= i < t.depth ==> c.history[i] == t.history[i]
  }

  // ------------------------------------------------------------------ one entry

  lemma PathJoin(dir: string, name: string)
    ensures FullPath(dir, name) == dir + "/" + name
  {
  }

  lemma HiddenIs(name: string)
    ensures IsHidden(name) <==> Dotted(name)
    ensures IsDirSys(name) <==> name == "." || name == ".."
  {
  }

  lemma SeenIs(t: Task, id: Id)
    ensures id in Seen(t) <==> exists i :: 0 <= i < t.depth && t.history[i] == id
  {
    if i :| 0 <= i < t.depth && t.history[i] == id {
      assert Seen(t)[i] == id;
    }
  }

  /** One turn of the loop scans what is due, and nothing else. */
  lemma ExamineScans(w: World, t: Task, e: Entry, h: Happening)
    ensures Examine(w, t, e).scan == Some(h) <==>
            h.Scanned? && h.path == t.path + "/" + e.name && DueScan(w.filters, t, e, h.typ)
  {
    PathJoin(t.path, e.name);
    HiddenIs(e.name);
    hide IsHidden, IsDirSys, Dotted, FullPath;
    if e.lstat.Stat? && Resolved(e).Stat? {
      SeenIs(t, Resolved(e).id);
      hide Seen, Child;
      assert h.Scanned? ==> (Leads(w.filters, e, Resolved(e), h.typ) <==> h.typ == EffectiveType(w.filters, e));
    }
  }

  /** It makes a task for what is due to be visited, and no other. */
  lemma ExamineVisits(w: World, t: Task, e: Entry, c: Task)
    ensures Examine(w, t, e).child == Some(c) <==>
            exists id :: DueVisit(w.filters, t, e, id) && TaskBelow(t, e.name, id, c)
  {
    PathJoin(t.path, e.name);
    HiddenIs(e.name);
    hide IsHidden, IsDirSys, FullPath;
    if e.lstat.Stat? && Resolved(e).Stat? {
      var id := Resolved(e).id;
      SeenIs(t, id);
      ChildIs(t, e, id, c);
      hide Child, Seen, TaskBelow, Report;
      assert Leads(w.filters, e, Resolved(e), Dir) <==> EffectiveType(w.filters, e) == Dir;
      assert DueVisit(w.filters, t, e, id) <==>
             Leads(w.filters, e, Resolved(e), Dir) && Enterable(w.filters, t, e.name, id);
    }
  }

  lemma ChildIs(t: Task, e: Entry, id: Id, c: Task)
    ensures c == Child(t, e, id) <==> TaskBelow(t, e.name, id, c)
  {
    PathJoin(t.path, e.name);
    hide FullPath;
    if TaskBelow(t, e.name, id, c) {
      assert c.history == Seen(t) + [id];
    }
  }

  lemma ListedAt(w: World, t: Task, e: Entry)
    ensures Listed(w, t, e) <==> exists k: nat :: k < |Entries(w, t)| && Entries(w, t)[k] == e
  {
    if Listed(w, t, e) {
      var k: nat :| k < |Entries(w, t)| && Entries(w, t)[k] == e;
    }
  }

  // ------------------------------------------------------------------ the traversal

  /** scan_file gets a path and a type exactly if an entry of a visited directory is due to be scanned so. */
  lemma ScannedExactly(w: World, base: Task, path: string, typ: FileType)
    ensures Scanned(path, typ) in Walk(w, base) <==>
            exists t: Task, e: Entry ::
              && Visited(t) in Walk(w, base) && Listed(w, t, e)
              && path == t.path + "/" + e.name && DueScan(w.filters, t, e, typ)
  {
    var h := Scanned(path, typ);
    hide Walk, Descends, DueScan, Listed, Examine;
    ScannedIffReported(w, base, h);
    if h in Walk(w, base) {
      var t: Task, k: nat :| Descends(w, base, t) && Reports(w, t, k, h);
      var e := Entries(w, t)[k];
      VisitedIffDescends(w, base, t);
      ExamineScans(w, t, e, h);
      ListedAt(w, t, e);
    }
    if t: Task, e: Entry :| Visited(t) in Walk(w, base) && Listed(w, t, e)
                            && path == t.path + "/" + e.name && DueScan(w.filters, t, e, typ) {
      VisitedIffDescends(w, base, t);
      ExamineScans(w, t, e, h);
      ListedAt(w, t, e);
      var k: nat :| k < |Entries(w, t)| && Entries(w, t)[k] == e;
      assert Reports(w, t, k, h);
    }
  }

  /** A task is visited exactly if it is the base, or made from an entry of a visited directory that is due
      to be visited. */
  lemma VisitedExactly(w: World, base: Task, c: Task)
    ensures Visited(c) in Walk(w, base) <==>
            || c == base
            || exists t: Task, e: Entry, id: Id ::
                 && Visited(t) in Walk(w, base) && Listed(w, t, e)
                 && DueVisit(w.filters, t, e, id) && TaskBelow(t, e.name, id, c)
  {
    hide Walk, Descends, DueVisit, Listed, TaskBelow, Examine;
    VisitedIffDescends(w, base, c);
    if c == base {
      BaseDescends(w, base);
    } else if Descends(w, base, c) {
      var t, k := MadeFrom(w, base, c);
      var e := Entries(w, t)[k];
      VisitedIffDescends(w, base, t);
      ExamineVisits(w, t, e, c);
      ListedAt(w, t, e);
    }
    if t: Task, e: Entry, id: Id :| Visited(t) in Walk(w, base) && Listed(w, t, e)
                                    && DueVisit(w.filters, t, e, id) && TaskBelow(t, e.name, id, c) {
      VisitedIffDescends(w, base, t);
      ExamineVisits(w, t, e, c);
      ListedAt(w, t, e);
      var k: nat :| k < |Entries(w, t)| && Entries(w, t)[k] == e;
      assert Begets(w, t, k, c);
      ChildDescends(w, base, t, k, c);
    }
  }

  /** The last link of a chain. */
  lemma MadeFrom(w: World, base: Task, c: Task) returns (t: Task, k: nat)
    requires Descends(w, base, c) && c != base
    ensures Descends(w, base, t) && Begets(w, t, k, c)
  {
    var chain, picks :| Lineage(w, base, chain, picks) && chain[|chain| - 1] == c;
    var n := |picks| - 1;
    t, k := chain[n], picks[n];
    assert Begets(w, t, k, c);
    var front, last := chain[..n + 1], picks[..n];
    forall j | 0 <= j < n ensures Begets(w, front[j], last[j], front[j + 1]) {
      assert Begets(w, chain[j], picks[j], chain[j + 1]);
    }
    assert Lineage(w, base, front, last);
  }

  // ------------------------------------------------------------------ under proper names

  /** One path leads to one entry of one task. */
  lemma OneEntry(w: World, base: Task, t: Task, e: Entry, u: Task, d: Entry)
    requires ProperNames(w) && Visited(t) in Walk(w, base) && Listed(w, t, e)
    requires Visited(u) in Walk(w, base) && Listed(w, u, d) && t.path + "/" + e.name == u.path + "/" + d.name
    ensures t == u && e == d
  {
    hide Walk;
    assert '/' !in e.name && '/' !in d.name;
    SamePath(t.path, e.name, u.path, d.name);
    WalkOnce(w, base);
    assert SameSlot(Visited(t), Visited(u));
  }

  lemma SamePath(a: string, m: string, b: string, n: string)
    requires '/' !in m && '/' !in n && a + "/" + m == b + "/" + n
    ensures a == b && m == n
  {
    NotBefore(a, m, b, n);
    NotBefore(b, n, a, m);
    assert (a + "/" + m)[..|a|] == a && (b + "/" + n)[..|b|] == b;
    assert (a + "/" + m)[|a| + 1..] == m && (b + "/" + n)[|b| + 1..] == n;
  }

  lemma NotBefore(a: string, m: string, b: string, n: string)
    requires '/' !in m && a + "/" + m == b + "/" + n
    ensures |b| <= |a|
  {
    var x := a + "/" + m;
    assert x[|b|] == '/';
    assert forall i :: |a| < i < |x| ==> x[i] == m[i - |a| - 1];
  }

  /** Where names are proper, an entry of a visited directory is scanned exactly if it is due to be, and
      as the type it is due to be scanned as. */
  lemma EntryScannedExactly(w: World, base: Task, t: Task, e: Entry, typ: FileType)
    requires ProperNames(w) && Visited(t) in Walk(w, base) && Listed(w, t, e)
    ensures Scanned(t.path + "/" + e.name, typ) in Walk(w, base) <==> DueScan(w.filters, t, e, typ)
  {
    hide Walk, DueScan, Listed, ProperNames;
    ScannedExactly(w, base, t.path + "/" + e.name, typ);
    if Scanned(t.path + "/" + e.name, typ) in Walk(w, base) {
      var u: Task, d: Entry :|
        && Visited(u) in Walk(w, base) && Listed(w, u, d)
        && t.path + "/" + e.name == u.path + "/" + d.name && DueScan(w.filters, u, d, typ);
      OneEntry(w, base, t, e, u, d);
    }
  }

  /** The same for visits: the task of an entry is visited exactly if it is due to be. */
  lemma EntryVisitedExactly(w: World, base: Task, t: Task, e: Entry, id: Id, c: Task)
    requires ProperNames(w) && base.depth == 0 && Visited(t) in Walk(w, base) && Listed(w, t, e)
    requires TaskBelow(t, e.name, id, c)
    ensures Visited(c) in Walk(w, base) <==> DueVisit(w.filters, t, e, id)
  {
    assert c != base;
    VisitedExactly(w, base, c);
    hide Walk, DueVisit, Listed, ProperNames;
    if Visited(c) in Walk(w, base) {
      var u: Task, d: Entry, id': Id :|
        && Visited(u) in Walk(w, base) && Listed(w, u, d)
        && DueVisit(w.filters, u, d, id') && TaskBelow(u, d.name, id', c);
      OneEntry(w, base, t, e, u, d);
      assert id' == c.history[t.depth] == id;
    }
  }
}
