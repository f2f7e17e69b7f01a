/** The sequential recursive traversal that the concurrent walker is compared with, and what
    holds of every task it meets: bounded depth, an exact history, unique paths. */
module LfTraversal {
  import opened Helpers
  import opened LfWorld

  ghost function SeenSet(t: Task): set<Id> {
    set id | id in Seen(t)
  }

  /** Strictly smaller for every child: a child's own id is new on its path. */
  ghost function Rank(w: World, t: Task): nat {
    2 * |w.fs.Keys - SeenSet(t)| + (if CanOpen(w, t) then 1 else 0)
  }

  lemma ChildRank(w: World, t: Task, e: Entry)
    requires CanOpen(w, t)
    requires Examine(w, t, e).child.Some?
    ensures Rank(w, Examine(w, t, e).child.value) < Rank(w, t)
  {
    var c := Examine(w, t, e).child.value;
    var id := Resolved(e).id;
    assert Seen(c) == Seen(t) + [id];
    assert SeenSet(c) == SeenSet(t) + {id};
    if id in w.fs {
      assert w.fs.Keys - SeenSet(t) == (w.fs.Keys - SeenSet(c)) + {id};
    } else {
      assert w.fs.Keys - SeenSet(t) == w.fs.Keys - SeenSet(c);
    }
  }

  ghost function ScanBag(o: Outcome): multiset<Happening> {
    if o.scan.Some? then multiset{o.scan.value} else multiset{}
  }

  /** Everything that happens below task `t` from its entry `k` on, in one recursive traversal. */
  ghost function WalkFrom(w: World, t: Task, k: nat): multiset<Happening>
    requires k <= |Entries(w, t)|
    decreases Rank(w, t), |Entries(w, t)| - k, 0
  {
    if k == |Entries(w, t)| then
      multiset{}
    else
      var o := Examine(w, t, Entries(w, t)[k]);
      BelowChild(w, t, k) + ScanBag(o) + WalkFrom(w, t, k + 1)
  }

  /** The traversal of the child made for entry `k`, if there is one. */
  ghost function BelowChild(w: World, t: Task, k: nat): multiset<Happening>
    requires k < |Entries(w, t)|
    decreases Rank(w, t), |Entries(w, t)| - k - 1, 1
  {
    var o := Examine(w, t, Entries(w, t)[k]);
    if o.child.None? then
      multiset{}
    else
      ChildRank(w, t, Entries(w, t)[k]);
      Walk(w, o.child.value)
  }

  /** The traversal of a whole task. */
  ghost function Walk(w: World, t: Task): multiset<Happening>
    decreases Rank(w, t), |Entries(w, t)| + 1, 0
  {
    multiset{Visited(t)} + WalkFrom(w, t, 0)
  }

  // ------------------------------------------------------------------ history and depth

  ghost predicate Distinct(s: seq<Id>) {
    forall i, j :: 0 <= i < j < |s| ==> s[i] != s[j]
  }

  /** What cycle and depth checks keep of every task: distinct ids, all but possibly the last of
      them openable directories, and a depth under the limit. */
  ghost predicate Tidy(w: World, t: Task) {
    && Distinct(Seen(t))
    && (forall i :: 0 <= i < t.depth - 1 ==> t.history[i] in w.fs)
    && (w.filters.maxDepth > 0 ==> t.depth < w.filters.maxDepth)
  }

  lemma ChildTidy(w: World, t: Task, e: Entry)
    requires Tidy(w, t) && CanOpen(w, t) && Examine(w, t, e).child.Some?
    ensures Tidy(w, Examine(w, t, e).child.value)
  {
  }

  lemma DistinctSize(s: seq<Id>)
    requires Distinct(s)
    ensures |set id | id in s| == |s|
  {
    if s == [] {
    } else {
      var rest := s[..|s| - 1];
      DistinctSize(rest);
      assert (set id | id in s) == (set id | id in rest) + {s[|s| - 1]};
      assert s[|s| - 1] !in rest;
    }
  }

  /** The depth of a tidy task never exceeds the number of directories in the graph, whatever
      cycles the links form; a task beyond that cannot even be opened. */
  lemma DepthBound(w: World, t: Task)
    requires Tidy(w, t)
    ensures t.depth <= |w.fs| + 1
    ensures CanOpen(w, t) ==> t.depth <= |w.fs|
    ensures w.filters.maxDepth > 0 ==> t.depth < w.filters.maxDepth
  {
    var s := Seen(t);
    DistinctSize(s);
    var ids := set id | id in s;
    if t.depth > 0 {
      SubsetSize(ids, w.fs.Keys + {OwnId(t)});
      if CanOpen(w, t) {
        SubsetSize(ids, w.fs.Keys);
      }
    }
  }

  /** `b` is the task made for entry `k` of the directory of `a`. */
  ghost predicate Begets(w: World, a: Task, k: nat, b: Task) {
    k < |Entries(w, a)| && Examine(w, a, Entries(w, a)[k]).child == Some(b)
  }

  /** A chain of tasks from the base, each made for the given entry of the one before. */
  ghost predicate Lineage(w: World, base: Task, chain: seq<Task>, picks: seq<nat>) {
    && |chain| == |picks| + 1
    && chain[0] == base
    && forall j :: 0 <= j < |picks| ==> Begets(w, chain[j], picks[j], chain[j + 1])
  }

  /** The id that the directory entry taken at step `j` of a chain resolves to. */
  ghost function PickedId(w: World, chain: seq<Task>, picks: seq<nat>, j: nat): Id
    requires j < |picks| < |chain| && Begets(w, chain[j], picks[j], chain[j + 1])
  {
    Resolved(Entries(w, chain[j])[picks[j]]).id
  }

  /** The history of a task lists exactly the ids met on its path below the base. */
  lemma {:induction false} HistoryIsPath(w: World, base: Task, chain: seq<Task>, picks: seq<nat>)
    requires base.depth == 0 && Lineage(w, base, chain, picks)
    ensures var t := chain[|chain| - 1];
            t.depth == |picks| && forall j :: 0 <= j < |picks| ==> Seen(t)[j] == PickedId(w, chain, picks, j)
    decreases |picks|
  {
    if |picks| > 0 {
      var n := |picks| - 1;
      HistoryIsPath(w, base, chain[..n + 1], picks[..n]);
      var a, b := chain[n], chain[n + 1];
      assert Begets(w, a, picks[n], b);
      assert Seen(b) == Seen(a) + [PickedId(w, chain, picks, n)];
      forall j | 0 <= j < |picks| ensures Seen(b)[j] == PickedId(w, chain, picks, j) {
        if j < n {
          assert Seen(chain[..n + 1][n])[j] == PickedId(w, chain[..n + 1], picks[..n], j);
        }
      }
    }
  }

  ghost predicate Descends(w: World, base: Task, t: Task) {
    exists chain, picks :: Lineage(w, base, chain, picks) && chain[|chain| - 1] == t
  }

  lemma BaseDescends(w: World, base: Task)
    ensures Descends(w, base, base)
  {
    assert Lineage(w, base, [base], []);
  }

  lemma ChildDescends(w: World, base: Task, t: Task, k: nat, c: Task)
    requires Descends(w, base, t) && Begets(w, t, k, c)
    ensures Descends(w, base, c)
  {
    var chain, picks :| Lineage(w, base, chain, picks) && chain[|chain| - 1] == t;
    assert Lineage(w, base, chain + [c], picks + [k]);
  }

  /** Every task the traversal visits descends from the task it starts at. */
  lemma {:induction false} WalkDescends(w: World, base: Task, t: Task, u: Task)
    requires Descends(w, base, t) && Visited(u) in Walk(w, t)
    ensures Descends(w, base, u)
    decreases Rank(w, t), |Entries(w, t)| + 1
  {
    if u != t {
      WalkFromDescends(w, base, t, 0, u);
    }
  }

  lemma {:induction false} WalkFromDescends(w: World, base: Task, t: Task, k: nat, u: Task)
    requires k <= |Entries(w, t)|
    requires Descends(w, base, t) && Visited(u) in WalkFrom(w, t, k)
    ensures Descends(w, base, u)
    decreases Rank(w, t), |Entries(w, t)| - k
  {
    var e := Entries(w, t)[k];
    WalkFromAt(w, t, k, Visited(u));
    assert ScanBag(Examine(w, t, e))[Visited(u)] == 0;
    hide WalkFrom, Examine, Descends;
    if Visited(u) in WalkFrom(w, t, k + 1) {
      WalkFromDescends(w, base, t, k + 1, u);
    } else {
      var c := Examine(w, t, e).child.value;
      ChildRank(w, t, e);
      ChildDescends(w, base, t, k, c);
      WalkDescends(w, base, c, u);
    }
  }

  // ------------------------------------------------------------------ the traversal, non-recursively

  lemma WalkFromAt(w: World, t: Task, k: nat, h: Happening)
    requires k < |Entries(w, t)|
    ensures WalkFrom(w, t, k)[h]
         == BelowChild(w, t, k)[h] + ScanBag(Examine(w, t, Entries(w, t)[k]))[h] + WalkFrom(w, t, k + 1)[h]
  {
  }

  /** The part of a directory's traversal that belongs to entry `k`. */
  lemma {:induction false} EntryWithin(w: World, t: Task, j: nat, k: nat, h: Happening)
    requires j <= k < |Entries(w, t)|
    ensures BelowChild(w, t, k)[h] + ScanBag(Examine(w, t, Entries(w, t)[k]))[h] <= WalkFrom(w, t, j)[h]
    decreases k - j
  {
    hide BelowChild, WalkFrom, Examine;
    WalkFromAt(w, t, j, h);
    if j < k {
      EntryWithin(w, t, j + 1, k, h);
    }
  }

  lemma ChildWithin(w: World, t: Task, k: nat, c: Task)
    requires Begets(w, t, k, c)
    ensures Walk(w, c) <= Walk(w, t)
  {
    assert BelowChild(w, t, k) == Walk(w, c);
    forall h ensures Walk(w, c)[h] <= Walk(w, t)[h] {
      assert Walk(w, t)[h] == multiset{Visited(t)}[h] + WalkFrom(w, t, 0)[h];
      EntryWithin(w, t, 0, k, h);
    }
  }

  lemma {:induction false} LineageWithin(w: World, base: Task, chain: seq<Task>, picks: seq<nat>)
    requires Lineage(w, base, chain, picks)
    ensures Walk(w, chain[|chain| - 1]) <= Walk(w, base)
    decreases |picks|
  {
    hide Walk;
    if |picks| > 0 {
      var n := |picks| - 1;
      LineageWithin(w, base, chain[..n + 1], picks[..n]);
      assert Begets(w, chain[n], picks[n], chain[n + 1]);
      ChildWithin(w, chain[n], picks[n], chain[n + 1]);
    }
  }

  lemma DescendantWithin(w: World, base: Task, t: Task)
    requires Descends(w, base, t)
    ensures Walk(w, t) <= Walk(w, base)
  {
    hide Walk;
    var chain, picks :| Lineage(w, base, chain, picks) && chain[|chain| - 1] == t;
    LineageWithin(w, base, chain, picks);
  }

  /** The traversal visits exactly the tasks that a chain of entries leads to from its base. */
  lemma VisitedIffDescends(w: World, base: Task, t: Task)
    ensures Visited(t) in Walk(w, base) <==> Descends(w, base, t)
  {
    if Visited(t) in Walk(w, base) {
      BaseDescends(w, base);
      WalkDescends(w, base, base, t);
    }
    if Descends(w, base, t) {
      DescendantWithin(w, base, t);
      assert Visited(t) in Walk(w, t);
    }
  }

  ghost predicate Reports(w: World, t: Task, k: nat, h: Happening) {
    k < |Entries(w, t)| && Examine(w, t, Entries(w, t)[k]).scan == Some(h)
  }

  /** Every scan of a traversal is the report of one entry of one visited directory. */
  lemma {:induction false} ScanSource(w: World, base: Task, t: Task, k: nat, h: Happening) returns (u: Task, i: nat)
    requires k <= |Entries(w, t)| && Descends(w, base, t) && h.Scanned? && h in WalkFrom(w, t, k)
    ensures Descends(w, base, u) && Reports(w, u, i, h)
    decreases Rank(w, t), |Entries(w, t)| - k
  {
    var e := Entries(w, t)[k];
    WalkFromAt(w, t, k, h);
    if h in WalkFrom(w, t, k + 1) {
      u, i := ScanSource(w, base, t, k + 1, h);
    } else if h in BelowChild(w, t, k) {
      var c := Examine(w, t, e).child.value;
      ChildRank(w, t, e);
      ChildDescends(w, base, t, k, c);
      assert h in Walk(w, c);
      u, i := ScanSource(w, base, c, 0, h);
    } else {
      assert h in ScanBag(Examine(w, t, e));
      u, i := t, k;
    }
  }

  /** scan_file is called exactly for the reports of entries of reachable directories. */
  lemma ScannedIffReported(w: World, base: Task, h: Happening)
    requires h.Scanned?
    ensures h in Walk(w, base) <==> exists t, k :: Descends(w, base, t) && Reports(w, t, k, h)
  {
    if h in Walk(w, base) {
      BaseDescends(w, base);
      var t, k := ScanSource(w, base, base, 0, h);
    }
    if t, k :| Descends(w, base, t) && Reports(w, t, k, h) {
      DescendantWithin(w, base, t);
      EntryWithin(w, t, 0, k, h);
      assert Walk(w, t)[h] > 0;
    }
  }
}
