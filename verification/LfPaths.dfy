/** Every path is visited at most once and scanned at most once by the traversal. */
module LfPaths {
  import opened LfWorld
  import opened LfTraversal

  /** What the file system promises of the names readdir returns: no slash, no repetition. */
  ghost predicate ProperNames(w: World) {
    forall id :: id in w.fs && w.fs[id].Listing? ==> ProperEntries(w.fs[id].entries)
  }

  ghost predicate ProperEntries(es: seq<Entry>) {
    && (forall i :: 0 <= i < |es| ==> '/' !in es[i].name)
    && (forall i, j :: 0 <= i < j < |es| ==> es[i].name != es[j].name)
  }

  function PathOf(h: Happening): string {
    match h
    case Visited(t) => t.path
    case Scanned(p, _) => p
  }

  ghost predicate SameSlot(g: Happening, h: Happening) {
    g.Visited? == h.Visited? && PathOf(g) == PathOf(h)
  }

  /** Per kind, each path occurs at most once. */
  ghost predicate Once(m: multiset<Happening>) {
    forall g, h :: g in m && h in m && SameSlot(g, h) ==> g == h && m[g] == 1
  }

  lemma OnceUnion(a: multiset<Happening>, b: multiset<Happening>)
    requires Once(a) && Once(b)
    requires forall g, h :: g in a && h in b ==> !SameSlot(g, h)
    ensures Once(a + b)
  {
    forall g, h | g in a + b && h in a + b && SameSlot(g, h) ensures g == h && (a + b)[g] == 1 {
      assert SameSlot(h, g) && SameSlot(g, g);
      if g in a {
        assert h in a;
      } else {
        assert h in b;
      }
    }
  }

  /** `x` is the path of entry `name` in directory `dir`, or lies below it. */
  ghost predicate Under(dir: string, name: string, x: string) {
    x == FullPath(dir, name) || FullPath(dir, name) + "/" <= x
  }

  /** Where `name` stands in `x`: right after the directory, ended by a slash or by the end. */
  lemma UnderAt(dir: string, name: string, x: string)
    requires Under(dir, name, x)
    ensures var d := |dir| + 1;
            && d + |name| <= |x| && x[d..d + |name|] == name
            && (d + |name| < |x| ==> x[d + |name|] == '/')
  {
    var f := FullPath(dir, name);
    assert x[..|f|] == f;
    assert f[|dir| + 1..] == name;
    if x != f {
      assert x[..|f| + 1] == f + "/";
      assert x[|f|] == x[..|f| + 1][|f|];
    }
  }

  lemma NotLonger(d: nat, m: string, n: string, x: string)
    requires d + |m| <= |x| && d + |n| <= |x| && x[d..d + |n|] == n
    requires '/' !in n && (d + |m| < |x| ==> x[d + |m|] == '/')
    ensures |n| <= |m|
  {
    assert forall j :: d <= j < d + |n| ==> x[j] == n[j - d] && x[j] in n;
  }

  lemma UnderOne(dir: string, m: string, n: string, x: string)
    requires '/' !in m && '/' !in n
    requires Under(dir, m, x) && Under(dir, n, x)
    ensures m == n
  {
    UnderAt(dir, m, x);
    UnderAt(dir, n, x);
    NotLonger(|dir| + 1, m, n, x);
    NotLonger(|dir| + 1, n, m, x);
  }

  lemma UnderDeeper(dir: string, name: string, more: string, x: string)
    requires Under(FullPath(dir, name), more, x)
    ensures FullPath(dir, name) + "/" <= x && Under(dir, name, x)
  {
    var f := FullPath(dir, name);
    assert f + "/" <= f + "/" + more;
    if x != FullPath(f, more) {
      assert f + "/" + more <= f + "/" + more + "/";
    }
  }

  /** A traversal stays at its own path or strictly below it, under the entries it still has. */
  lemma {:induction false} WalkFromBelow(w: World, t: Task, k: nat, h: Happening) returns (j: nat)
    requires k <= |Entries(w, t)| && h in WalkFrom(w, t, k)
    ensures k <= j < |Entries(w, t)| && Under(t.path, Entries(w, t)[j].name, PathOf(h))
    decreases Rank(w, t), |Entries(w, t)| - k
  {
    var e := Entries(w, t)[k];
    if h in WalkFrom(w, t, k + 1) {
      j := WalkFromBelow(w, t, k + 1, h);
    } else {
      j := k;
      if h in BelowChild(w, t, k) {
        BelowChildPaths(w, t, k, h);
      }
    }
  }

  lemma {:induction false} BelowChildPaths(w: World, t: Task, k: nat, h: Happening)
    requires k < |Entries(w, t)| && h in BelowChild(w, t, k)
    ensures Under(t.path, Entries(w, t)[k].name, PathOf(h))
    ensures h.Scanned? ==> PathOf(h) != FullPath(t.path, Entries(w, t)[k].name)
    decreases Rank(w, t), |Entries(w, t)| - k, 0
  {
    var e := Entries(w, t)[k];
    var c := Examine(w, t, e).child.value;
    ChildRank(w, t, e);
    if h != Visited(c) {
      var j := WalkFromBelow(w, c, 0, h);
      UnderDeeper(t.path, e.name, Entries(w, c)[j].name, PathOf(h));
    }
  }

  lemma {:induction false} WalkOnce(w: World, t: Task)
    requires ProperNames(w)
    ensures Once(Walk(w, t))
    decreases Rank(w, t), |Entries(w, t)| + 1
  {
    WalkFromOnce(w, t, 0);
    var head := multiset{Visited(t)};
    forall g, h | g in head && h in WalkFrom(w, t, 0) ensures !SameSlot(g, h) {
      var j := WalkFromBelow(w, t, 0, h);
      assert |t.path| < |FullPath(t.path, Entries(w, t)[j].name)| <= |PathOf(h)|;
    }
    OnceUnion(head, WalkFrom(w, t, 0));
  }

  lemma EntryApart(w: World, t: Task, k: nat, g: Happening, h: Happening)
    requires ProperNames(w) && k < |Entries(w, t)|
    requires Under(t.path, Entries(w, t)[k].name, PathOf(g)) && h in WalkFrom(w, t, k + 1)
    ensures !SameSlot(g, h)
  {
    var j := WalkFromBelow(w, t, k + 1, h);
    assert ProperEntries(Entries(w, t));
    if PathOf(g) == PathOf(h) {
      UnderOne(t.path, Entries(w, t)[k].name, Entries(w, t)[j].name, PathOf(g));
    }
  }

  lemma {:induction false} WalkFromOnce(w: World, t: Task, k: nat)
    requires ProperNames(w) && k <= |Entries(w, t)|
    ensures Once(WalkFrom(w, t, k))
    decreases Rank(w, t), |Entries(w, t)| - k
  {
    if k < |Entries(w, t)| {
      WalkFromOnce(w, t, k + 1);
      EntryOnce(w, t, k);
      var o := Examine(w, t, Entries(w, t)[k]);
      var here, rest := BelowChild(w, t, k) + ScanBag(o), WalkFrom(w, t, k + 1);
      forall g, h | g in here && h in rest ensures !SameSlot(g, h) {
        EntryApart(w, t, k, g, h);
      }
      OnceUnion(here, rest);
    }
  }

  /** The scan of an entry: its own path, at most once. */
  lemma EntryScan(w: World, t: Task, k: nat)
    requires k < |Entries(w, t)|
    ensures var scan, f := ScanBag(Examine(w, t, Entries(w, t)[k])), FullPath(t.path, Entries(w, t)[k].name);
            Once(scan) && forall g :: g in scan ==> g.Scanned? && PathOf(g) == f
    ensures Under(t.path, Entries(w, t)[k].name, FullPath(t.path, Entries(w, t)[k].name))
  {
  }

  lemma {:induction false} EntryOnce(w: World, t: Task, k: nat)
    requires ProperNames(w) && k < |Entries(w, t)|
    ensures var here := BelowChild(w, t, k) + ScanBag(Examine(w, t, Entries(w, t)[k]));
            Once(here) && forall g :: g in here ==> Under(t.path, Entries(w, t)[k].name, PathOf(g))
    decreases Rank(w, t), |Entries(w, t)| - k, 0
  {
    var e := Entries(w, t)[k];
    var o := Examine(w, t, e);
    if o.child.Some? {
      ChildRank(w, t, e);
      WalkOnce(w, o.child.value);
      assert BelowChild(w, t, k) == Walk(w, o.child.value);
    } else {
      assert BelowChild(w, t, k) == multiset{};
    }
    assert Once(BelowChild(w, t, k));
    hide BelowChild, Examine, Once, Under, FullPath, ScanBag;
    EntryScan(w, t, k);
    forall g | g in BelowChild(w, t, k)
      ensures Under(t.path, e.name, PathOf(g))
      ensures g.Scanned? ==> PathOf(g) != FullPath(t.path, e.name)
    {
      BelowChildPaths(w, t, k, g);
    }
    OnceUnion(BelowChild(w, t, k), ScanBag(o));
  }
}
