/** What the filters mean for a whole traversal: what they keep from being scanned, and what they
    have no influence on. */
module LfFilters {
  import opened Helpers
  import opened LfWorld
  import opened LfTraversal

  /** The same graph walked under other rules for hidden names. */
  ghost predicate HiddenApart(w: World, w': World) {
    && w'.fs == w.fs && w'.filters.followLinks == w.filters.followLinks
    && w'.filters.maxDepth == w.filters.maxDepth
  }

  lemma SameChild(w: World, w': World, t: Task, e: Entry)
    requires HiddenApart(w, w')
    ensures Examine(w', t, e).child == Examine(w, t, e).child
  {
  }

  lemma LineageKept(w: World, w': World, base: Task, chain: seq<Task>, picks: seq<nat>)
    requires HiddenApart(w, w') && Lineage(w, base, chain, picks)
    ensures Lineage(w', base, chain, picks)
  {
    forall j | 0 <= j < |picks| ensures Begets(w', chain[j], picks[j], chain[j + 1]) {
      assert Begets(w, chain[j], picks[j], chain[j + 1]);
      SameChild(w, w', chain[j], Entries(w, chain[j])[picks[j]]);
    }
  }

  lemma DescendsKept(w: World, w': World, base: Task, t: Task)
    requires HiddenApart(w, w') && Descends(w, base, t)
    ensures Descends(w', base, t)
  {
    var chain, picks :| Lineage(w, base, chain, picks) && chain[|chain| - 1] == t;
    LineageKept(w, w', base, chain, picks);
  }

  /** The options for hidden names have no influence on which directories are visited: hidden
      directories are walked whatever the options say. */
  lemma HiddenOptionsVisit(w: World, w': World, base: Task, t: Task)
    requires HiddenApart(w, w')
    ensures Visited(t) in Walk(w, base) <==> Visited(t) in Walk(w', base)
  {
    hide Walk, Descends;
    VisitedIffDescends(w, base, t);
    VisitedIffDescends(w', base, t);
    if Descends(w, base, t) {
      DescendsKept(w, w', base, t);
    }
    if Descends(w', base, t) {
      DescendsKept(w', w, base, t);
    }
  }

  /** A directory with nothing but a hidden directory in it, walked with the default options. */
  const HIDDEN := World(map[Id(0, 1) := Listing([Entry(".git", Stat(Dir, Id(0, 2)), StatFailed)]),
                            Id(0, 2) := Listing([])],
                        Filters(false, false, false, 0))

  /** The hidden directory is visited. */
  lemma HiddenDirectoryVisited()
    ensures var base, hidden := RawTask(".", 0, [Id(0, 1)]), RawTask("./.git", 1, [Id(0, 2)]);
            IsHidden(".git") && Visited(hidden) in Walk(HIDDEN, base)
  {
    var base: Task, hidden: Task := RawTask(".", 0, [Id(0, 1)]), RawTask("./.git", 1, [Id(0, 2)]);
    assert Child(base, Entries(HIDDEN, base)[0], Id(0, 2)) == hidden;
    assert Begets(HIDDEN, base, 0, hidden);
    hide Walk;
    BaseDescends(HIDDEN, base);
    ChildDescends(HIDDEN, base, base, 0, hidden);
    VisitedIffDescends(HIDDEN, base, hidden);
  }

  /** Whatever is scanned is an entry of a reachable directory with readable metadata, and is let
      through: a hidden name only if it is a directory or hidden names are wanted, any other name
      only if hidden names are not all that is wanted. A link that is not followed is reported as a
      link. */
  lemma ScansFiltered(w: World, base: Task, h: Happening) returns (t: Task, e: Entry)
    requires h.Scanned? && h in Walk(w, base)
    ensures Descends(w, base, t) && e in Entries(w, t) && e.lstat.Stat? && h.path == FullPath(t.path, e.name)
    ensures IsHidden(e.name) ==> w.filters.includeHidden || h.typ.Dir?
    ensures w.filters.hiddenOnly ==> IsHidden(e.name)
    ensures !w.filters.followLinks ==> h.typ == e.lstat.typ
    ensures h.typ.Dir? ==> !IsDirSys(e.name)
  {
    var k: nat;
    hide Walk, Descends;
    t, k := ReportOf(w, base, h);
    e := Entries(w, t)[k];
    assert Examine(w, t, e).scan == Some(h);
  }

  lemma ReportOf(w: World, base: Task, h: Happening) returns (t: Task, k: nat)
    requires h.Scanned? && h in Walk(w, base)
    ensures Descends(w, base, t) && Reports(w, t, k, h)
  {
    ScannedIffReported(w, base, h);
    t, k :| Descends(w, base, t) && Reports(w, t, k, h);
  }

  /** The same graph walked without and with a limit on the depth. */
  ghost predicate Limits(w: World, w': World) {
    && w'.fs == w.fs && w'.filters.followLinks == w.filters.followLinks
    && w.filters.maxDepth == 0 && w'.filters.maxDepth > 0
  }

  lemma {:induction false} LimitCuts(w: World, w': World, base: Task, chain: seq<Task>, picks: seq<nat>)
    requires Limits(w, w') && base.depth == 0 && Lineage(w, base, chain, picks)
    ensures Lineage(w', base, chain, picks) <==> |picks| < w'.filters.maxDepth
    decreases |picks|
  {
    if |picks| > 0 {
      var n := |picks| - 1;
      var front, last := chain[..n + 1], picks[..n];
      LineageSnoc(w, base, chain, picks);
      LineageSnoc(w', base, chain, picks);
      LimitCuts(w, w', base, front, last);
      HistoryIsPath(w, base, front, last);
      LimitStep(w, w', chain[n], Entries(w, chain[n])[picks[n]]);
    }
  }

  lemma {:induction false} LimitAdds(w: World, w': World, base: Task, chain: seq<Task>, picks: seq<nat>)
    requires Limits(w, w') && Lineage(w', base, chain, picks)
    ensures Lineage(w, base, chain, picks)
  {
    forall j | 0 <= j < |picks| ensures Begets(w, chain[j], picks[j], chain[j + 1]) {
      assert Begets(w', chain[j], picks[j], chain[j + 1]);
      LimitStep(w, w', chain[j], Entries(w, chain[j])[picks[j]]);
    }
  }

  /** A limit on the depth leaves out exactly the directories at that depth and below. */
  lemma DepthLimit(w: World, w': World, base: Task, t: Task)
    requires Limits(w, w') && base.depth == 0
    ensures Visited(t) in Walk(w', base) <==> Visited(t) in Walk(w, base) && t.depth < w'.filters.maxDepth
  {
    hide Walk;
    VisitedIffDescends(w, base, t);
    VisitedIffDescends(w', base, t);
    if Descends(w, base, t) && t.depth < w'.filters.maxDepth {
      var chain, picks :| Lineage(w, base, chain, picks) && chain[|chain| - 1] == t;
      HistoryIsPath(w, base, chain, picks);
      LimitCuts(w, w', base, chain, picks);
    }
    if Descends(w', base, t) {
      var chain, picks :| Lineage(w', base, chain, picks) && chain[|chain| - 1] == t;
      LimitAdds(w, w', base, chain, picks);
      HistoryIsPath(w, base, chain, picks);
      LimitCuts(w, w', base, chain, picks);
    }
  }

  lemma LimitStep(w: World, w': World, t: Task, e: Entry)
    requires w'.fs == w.fs && w'.filters.followLinks == w.filters.followLinks
    requires w.filters.maxDepth == 0 && w'.filters.maxDepth > 0
    ensures Examine(w', t, e).child == if t.depth + 1 == w'.filters.maxDepth then None else Examine(w, t, e).child
  {
  }

  lemma LineageSnoc(w: World, base: Task, chain: seq<Task>, picks: seq<nat>)
    requires |chain| == |picks| + 1 && |picks| > 0
    ensures var n := |picks| - 1;
            Lineage(w, base, chain, picks) <==>
              Lineage(w, base, chain[..n + 1], picks[..n]) && Begets(w, chain[n], picks[n], chain[n + 1])
  {
    var n := |picks| - 1;
    var front, last := chain[..n + 1], picks[..n];
    if Lineage(w, base, front, last) && Begets(w, chain[n], picks[n], chain[n + 1]) {
      forall j | 0 <= j < |picks| ensures Begets(w, chain[j], picks[j], chain[j + 1]) {
        if j < n {
          assert Begets(w, front[j], last[j], front[j + 1]);
        }
      }
    }
    if Lineage(w, base, chain, picks) {
      forall j | 0 <= j < n ensures Begets(w, front[j], last[j], front[j + 1]) {
        assert Begets(w, chain[j], picks[j], chain[j + 1]);
      }
    }
  }
}
