/** The linked work queue of `lf`, and one finder working through it on its own. */
module LfQueue {
  import opened Helpers
  import opened LfWorld
  import opened LfTraversal
  import opened LfRules
  import opened LfMachine
  import opened LfProgress

  class TaskNode {
    const history: array<Id>
    const depth: nat
    const dirPath: string
    var next: TaskNode?

    constructor (history: array<Id>, depth: nat, dirPath: string)
      ensures this.history == history && this.depth == depth && this.dirPath == dirPath && next == null
    {
      this.history, this.depth, this.dirPath, this.next := history, depth, dirPath, null;
    }

    /** The task this node stands for. */
    ghost predicate Holds(t: Task)
      reads history
    {
      t == RawTask(dirPath, depth, history[..])
    }
  }

  class WorkQueue {
    var qhead: TaskNode?
    var qtail: TaskNode?
    ghost var nodes: seq<TaskNode>

    /** The nodes are distinct, linked in order from qhead, and qtail is the last of them; both
        pointers are null together. */
    ghost predicate Valid()
      reads this, nodes
    {
      && (qhead == null <==> nodes == []) && (qtail == null <==> nodes == [])
      && (nodes != [] ==> qhead == nodes[0] && qtail == nodes[|nodes| - 1])
      && (forall i, j :: 0 <= i && j == i + 1 < |nodes| ==> nodes[i].next == nodes[j])
      && (nodes != [] ==> nodes[|nodes| - 1].next == null)
      && (forall i, j :: 0 <= i < j < |nodes| ==> nodes[i] != nodes[j])
    }

    constructor ()
      ensures Valid() && nodes == []
    {
      qhead, qtail, nodes := null, null, [];
    }

    /** The queue part of enqueue_dir. */
    method Enqueue(node: TaskNode)
      requires Valid() && node.next == null && node !in nodes
      modifies this, qtail
      ensures Valid() && nodes == old(nodes) + [node]
    {
      if qtail != null {
        qtail.next := node;
      } else {
        qhead := node;
      }
      qtail := node;
      nodes := nodes + [node];
    }

    /** The queue part of dequeue_dir, once its waiting loop has found a head. */
    method Dequeue() returns (node: TaskNode)
      requires Valid() && nodes != []
      modifies this
      ensures Valid() && [node] + nodes == old(nodes)
    {
      node := qhead;
      assert |nodes| > 1 ==> nodes[0].next == nodes[1];
      qhead := qhead.next;
      if qhead == null {
        qtail := null;
      }
      nodes := nodes[1..];
      assert forall i :: 0 <= i < |nodes| ==> nodes[i] == old(nodes)[i + 1];
    }
  }

  /** The finder's cycle check: a scan of history[0..depth) that stops at the first match. */
  method CycleFound(node: TaskNode, id: Id) returns (found: bool)
    requires node.depth <= node.history.Length
    ensures found <==> id in node.history[..node.depth]
  {
    found := false;
    var i := 0;
    while i < node.depth
      invariant 0 <= i <= node.depth
      invariant !found && id !in node.history[..i]
    {
      if node.history[i].dev == id.dev && node.history[i].ino == id.ino {
        return true;
      }
      i := i + 1;
    }
  }

  /** A child with a history of its own: the parent's, copied, and the child's id. */
  method MakeChild(node: TaskNode, ghost t: Task, e: Entry, id: Id) returns (child: TaskNode)
    requires node.Holds(t)
    ensures fresh(child) && child.next == null && child.Holds(Child(t, e, id))
  {
    var history := new Id[node.depth + 1](_ => id);
    var i := 0;
    while i < node.depth
      invariant 0 <= i <= node.depth
      invariant forall j :: 0 <= j < i ==> history[j] == node.history[j]
      invariant history[node.depth] == id
    {
      history[i] := node.history[i];
      i := i + 1;
    }
    assert history[..] == Seen(t) + [id];
    child := new TaskNode(history, node.depth + 1, FullPath(node.dirPath, e.name));
  }

  // ------------------------------------------------------------------ one directory

  function Maybe<T>(o: Option<T>): seq<T> {
    if o.Some? then [o.value] else []
  }

  ghost function ChildrenFrom(w: World, t: Task, k: nat): seq<Task>
    requires k <= |Entries(w, t)|
    decreases |Entries(w, t)| - k
  {
    if k == |Entries(w, t)| then []
    else
      Maybe(OutcomeAt(w, t, k).child) + ChildrenFrom(w, t, k + 1)
  }

  ghost function ScansFrom(w: World, t: Task, k: nat): seq<Happening>
    requires k <= |Entries(w, t)|
    decreases |Entries(w, t)| - k
  {
    if k == |Entries(w, t)| then []
    else
      Maybe(OutcomeAt(w, t, k).scan) + ScansFrom(w, t, k + 1)
  }

  /** The nodes of a queue stand for these tasks, in this order. */
  ghost predicate Stand(nodes: seq<TaskNode>, tasks: seq<Task>)
    reads set n | n in nodes :: n.history
  {
    |nodes| == |tasks| && forall i :: 0 <= i < |nodes| ==> nodes[i].Holds(tasks[i])
  }

  /** The child task of an entry is made and goes to the end of the queue. */
  method SubmitChild(q: WorkQueue, node: TaskNode, ghost t: Task, e: Entry, id: Id, ghost tasks: seq<Task>)
    requires q.Valid() && Stand(q.nodes, tasks) && node.Holds(t)
    modifies q, q.qtail
    ensures q.Valid() && Stand(q.nodes, tasks + [Child(t, e, id)])
    ensures q.qtail == null || q.qtail == old(q.qtail) || fresh(q.qtail)
  {
    hide Child;
    var child := MakeChild(node, t, e, id);
    q.Enqueue(child);
  }

  /** What an entry leads to is what the options say: it is scanned if and as it is due to be, and a task
      is made for it if it is due to be visited. */
  ghost predicate AsDue(w: World, t: Task, e: Entry, scan: Option<Happening>, made: seq<Task>) {
    && (forall h :: scan == Some(h) <==>
          h.Scanned? && h.path == t.path + "/" + e.name && DueScan(w.filters, t, e, h.typ))
    && |made| <= 1
    && (forall c: Task :: made == [c] <==>
          exists id :: DueVisit(w.filters, t, e, id) && TaskBelow(t, e.name, id, c))
  }

  lemma ExaminedAsDue(w: World, t: Task, e: Entry)
    ensures var o := Examine(w, t, e); AsDue(w, t, e, o.scan, Maybe(o.child))
  {
    hide Examine, DueScan, DueVisit, TaskBelow;
    forall h {
      ExamineScans(w, t, e, h);
    }
    forall c: Task {
      ExamineVisits(w, t, e, c);
    }
  }

  /** One entry of the finder's readdir loop: returns what it passes to scan_file, if anything. */
  method ProcessEntry(w: World, q: WorkQueue, node: TaskNode, ghost t: Task, e: Entry, ghost tasks: seq<Task>)
    returns (scan: Option<Happening>, ghost tasks': seq<Task>)
    requires q.Valid() && Stand(q.nodes, tasks) && node.Holds(t)
    modifies q, q.qtail
    ensures q.Valid() && Stand(q.nodes, tasks') && (q.qtail == null || q.qtail == old(q.qtail) || fresh(q.qtail))
    ensures var o := Examine(w, t, e);
            scan == o.scan && tasks' == tasks + Maybe(o.child) && AsDue(w, t, e, scan, Maybe(o.child))
  {
    ExaminedAsDue(w, t, e);
    hide AsDue;
    hide WorkQueue.Valid, Stand, Child, IsHidden, IsDirSys, FullPath;
    assert tasks + [] == tasks;
    scan, tasks' := None, tasks;
    if e.lstat.StatFailed? {
      return;
    }
    var typ, st := e.lstat.typ, e.lstat;
    if e.lstat.typ.Lnk? {
      st := e.target;
      if st.StatFailed? {
        return;
      }
      if w.filters.followLinks {
        typ := st.typ;
      }
    }
    if !typ.Dir? {
      if IsHidden(e.name) {
        if !w.filters.includeHidden {
          return;
        }
      } else if w.filters.hiddenOnly {
        return;
      }
    } else {
      if IsDirSys(e.name) {
        return;
      }
      var cycle := CycleFound(node, st.id);
      if cycle {
        return;
      }
      if w.filters.maxDepth != 0 && node.depth + 1 == w.filters.maxDepth {
        return;
      }
      SubmitChild(q, node, t, e, st.id, tasks);
      tasks' := tasks + [Child(t, e, st.id)];
    }
    if w.filters.hiddenOnly && !IsHidden(e.name) {
      return;
    }
    scan := Some(Scanned(FullPath(node.dirPath, e.name), typ));
  }

  /** After `k` entries: the tasks queued and the happenings logged, those of the rest of the directory
      still to be added. */
  ghost predicate Processed(w: World, t: Task, k: nat, tasks: seq<Task>, tasks': seq<Task>, log: seq<Happening>) {
    && k <= |Entries(w, t)|
    && tasks' + ChildrenFrom(w, t, k) == tasks + ChildrenFrom(w, t, 0)
    && log + ScansFrom(w, t, k) == [Visited(t)] + ScansFrom(w, t, 0)
  }

  lemma ProcessedStart(w: World, t: Task, tasks: seq<Task>)
    ensures Processed(w, t, 0, tasks, tasks, [Visited(t)])
  {
  }

  lemma ProcessedStep(w: World, t: Task, k: nat, tasks: seq<Task>, tasks': seq<Task>, log: seq<Happening>)
    requires Processed(w, t, k, tasks, tasks', log) && k < |Entries(w, t)|
    ensures var o := OutcomeAt(w, t, k);
            Processed(w, t, k + 1, tasks, tasks' + Maybe(o.child), log + Maybe(o.scan))
  {
    ScansChildrenStep(w, t, k);
    var o := OutcomeAt(w, t, k);
    Assoc(tasks', Maybe(o.child), ChildrenFrom(w, t, k + 1));
    Assoc(log, Maybe(o.scan), ScansFrom(w, t, k + 1));
    hide Entries, OutcomeAt, ChildrenFrom, ScansFrom, Maybe;
  }

  lemma ProcessedEnd(w: World, t: Task, tasks: seq<Task>, tasks': seq<Task>, log: seq<Happening>)
    requires Processed(w, t, |Entries(w, t)|, tasks, tasks', log)
    ensures tasks' == tasks + ChildrenFrom(w, t, 0) && log == [Visited(t)] + ScansFrom(w, t, 0)
  {
    var n := |Entries(w, t)|;
    assert ChildrenFrom(w, t, n) == [] && ScansFrom(w, t, n) == [];
    hide ChildrenFrom, ScansFrom, Entries;
    assert tasks' + [] == tasks' && log + [] == log;
  }

  /** A directory that cannot be opened has no entries. */
  lemma NothingToRead(w: World, t: Task)
    requires !CanOpen(w, t)
    ensures Entries(w, t) == []
  {
  }

  /** The body of the finder loop for one dequeued task: what it logs is the visit followed by the
      scans of the directory, and it appends the children of the directory to the queue. */
  method ProcessTask(w: World, q: WorkQueue, node: TaskNode, ghost t: Task, ghost tasks: seq<Task>)
    returns (log: seq<Happening>, ghost tasks': seq<Task>)
    requires q.Valid() && Stand(q.nodes, tasks) && node.Holds(t)
    modifies q, q.qtail
    ensures q.Valid() && Stand(q.nodes, tasks') && (q.qtail == null || q.qtail == old(q.qtail) || fresh(q.qtail))
    ensures tasks' == tasks + ChildrenFrom(w, t, 0)
    ensures log == [Visited(t)] + ScansFrom(w, t, 0)
  {
    var self := node.history[if node.depth == 0 then 0 else node.depth - 1];
    assert self == OwnId(t);
    log := [Visited(RawTask(node.dirPath, node.depth, node.history[..]))];
    tasks' := tasks;
    ProcessedStart(w, t, tasks);
    if self !in w.fs || w.fs[self].Unreadable? {
      NothingToRead(w, t);
      ProcessedEnd(w, t, tasks, tasks', log);
      return;
    }
    var entries := w.fs[self].entries;
    assert entries == Entries(w, t);
    hide Examine, AsDue, WorkQueue.Valid, Stand, Processed, Entries, ChildrenFrom, ScansFrom, TaskNode.Holds;
    var k := 0;
    while k < |entries|
      invariant 0 <= k <= |entries| && node.Holds(t)
      invariant q.Valid() && Stand(q.nodes, tasks') && (q.qtail == null || q.qtail == old(q.qtail) || fresh(q.qtail))
      invariant Processed(w, t, k, tasks, tasks', log)
    {
      ProcessedStep(w, t, k, tasks, tasks', log);
      var scan;
      scan, tasks' := ProcessEntry(w, q, node, t, entries[k], tasks');
      if scan.Some? {
        log := log + [scan.value];
      } else {
        assert log + [] == log;
      }
      k := k + 1;
    }
    ProcessedEnd(w, t, tasks, tasks', log);
  }

  // ------------------------------------------------------------------ one finder alone

  method TakeTask(q: WorkQueue, ghost tasks: seq<Task>) returns (node: TaskNode)
    requires q.Valid() && Stand(q.nodes, tasks) && q.nodes != []
    modifies q
    ensures q.Valid() && [node] + q.nodes == old(q.nodes)
    ensures tasks != [] && node.Holds(tasks[0]) && Stand(q.nodes, tasks[1..])
  {
    node := q.Dequeue();
  }

  /** How often `h` occurs below the tasks of a list. */
  ghost function Below(w: World, tasks: seq<Task>, h: Happening): int {
    if tasks == [] then 0 else Walk(w, tasks[0])[h] + Below(w, tasks[1..], h)
  }

  lemma BelowNothing(w: World, h: Happening)
    ensures Below(w, [], h) == 0
  {
  }

  lemma {:induction false} BelowAppend(w: World, a: seq<Task>, b: seq<Task>, h: Happening)
    ensures Below(w, a + b, h) == Below(w, a, h) + Below(w, b, h)
  {
    hide Walk;
    if a == [] {
      assert a + b == b;
    } else {
      BelowAppend(w, a[1..], b, h);
      assert (a + b)[1..] == a[1..] + b;
    }
  }

  lemma EntrySplits(w: World, t: Task, k: nat, h: Happening)
    requires k < |Entries(w, t)|
    ensures var o := OutcomeAt(w, t, k);
            WalkFrom(w, t, k)[h] == Below(w, Maybe(o.child), h) + multiset(Maybe(o.scan))[h] + WalkFrom(w, t, k + 1)[h]
  {
    var o := OutcomeAt(w, t, k);
    assert WalkFrom(w, t, k) == BelowChild(w, t, k) + ScanBag(o) + WalkFrom(w, t, k + 1);
    hide WalkFrom, Walk, Examine;
    if o.child.Some? {
      assert Below(w, [o.child.value], h) == Walk(w, o.child.value)[h] + Below(w, [], h);
    }
  }

  lemma SplitsNothing(w: World, t: Task, h: Happening)
    ensures var n := |Entries(w, t)|;
            WalkFrom(w, t, n)[h] == multiset(ScansFrom(w, t, n))[h] + Below(w, ChildrenFrom(w, t, n), h)
  {
    hide Examine, Walk, OutcomeAt;
    assert ScansFrom(w, t, |Entries(w, t)|) == [];
    assert ChildrenFrom(w, t, |Entries(w, t)|) == [];
  }

  lemma CountJoin(a: seq<Happening>, b: seq<Happening>, h: Happening)
    ensures multiset(a + b)[h] == multiset(a)[h] + multiset(b)[h]
  {
    assert multiset(a + b) == multiset(a) + multiset(b);
  }

  lemma ScansChildrenStep(w: World, t: Task, k: nat)
    requires k < |Entries(w, t)|
    ensures ScansFrom(w, t, k) == Maybe(OutcomeAt(w, t, k).scan) + ScansFrom(w, t, k + 1)
    ensures ChildrenFrom(w, t, k) == Maybe(OutcomeAt(w, t, k).child) + ChildrenFrom(w, t, k + 1)
  {
    hide OutcomeAt, Maybe, Entries;
  }

  /** A directory's traversal is its scans and the traversals of its children. */
  lemma {:induction false} WalkSplits(w: World, t: Task, k: nat, h: Happening)
    requires k <= |Entries(w, t)|
    ensures WalkFrom(w, t, k)[h] == multiset(ScansFrom(w, t, k))[h] + Below(w, ChildrenFrom(w, t, k), h)
    decreases |Entries(w, t)| - k
  {
    hide *;
    if k == |Entries(w, t)| {
      SplitsNothing(w, t, h);
    } else {
      WalkSplits(w, t, k + 1, h);
      EntrySplits(w, t, k, h);
      ScansChildrenStep(w, t, k);
      var o := OutcomeAt(w, t, k);
      CountJoin(Maybe(o.scan), ScansFrom(w, t, k + 1), h);
      BelowAppend(w, Maybe(o.child), ChildrenFrom(w, t, k + 1), h);
    }
  }

  /** A measure of the work left in a list of tasks. */
  ghost function Work(w: World, tasks: seq<Task>): nat {
    if tasks == [] then 0 else CostTask(w, 0, tasks[0]) + Work(w, tasks[1..])
  }

  lemma {:induction false} WorkAppend(w: World, a: seq<Task>, b: seq<Task>)
    ensures Work(w, a + b) == Work(w, a) + Work(w, b)
  {
    hide CostTask;
    if a == [] {
      assert a + b == b;
    } else {
      WorkAppend(w, a[1..], b);
      assert (a + b)[1..] == a[1..] + b;
    }
  }

  lemma {:induction false} ChildrenWork(w: World, t: Task, k: nat)
    requires k <= |Entries(w, t)|
    ensures Work(w, ChildrenFrom(w, t, k)) < Tail(w, 0, t, k)
    decreases |Entries(w, t)| - k
  {
    if k < |Entries(w, t)| {
      ChildrenWork(w, t, k + 1);
      TailUnfold(w, 0, t, k);
      var o := OutcomeAt(w, t, k);
      var first := Maybe(o.child);
      WorkAppend(w, first, ChildrenFrom(w, t, k + 1));
      if o.child.Some? {
        assert Work(w, first) == CostTask(w, 0, o.child.value) + Work(w, []);
      }
    }
  }

  /** One finder with no others: it empties the queue, and its log is the sequential traversal. */
  method FinderAlone(w: World, q: WorkQueue, ghost tasks: seq<Task>) returns (log: seq<Happening>)
    requires q.Valid() && Stand(q.nodes, tasks)
    modifies q, q.qtail
    ensures q.Valid() && q.nodes == []
    ensures forall h :: multiset(log)[h] == Below(w, tasks, h)
  {
    hide Walk, WalkFrom, Below, Work, Examine, ScansFrom, ChildrenFrom, TaskNode.Holds, Maybe;
    log := [];
    ghost var left := tasks;
    while q.qhead != null
      invariant q.Valid() && Stand(q.nodes, left) && (q.qtail == null || q.qtail == old(q.qtail) || fresh(q.qtail))
      invariant forall h :: multiset(log)[h] + Below(w, left, h) == Below(w, tasks, h)
      decreases Work(w, left)
    {
      ghost var t, rest := left[0], left[1..];
      ghost var before := log;
      assert left == [t] + rest;
      var node := TakeTask(q, left);
      var more;
      ghost var next;
      more, next := ProcessTask(w, q, node, t, rest);
      log := log + more;
      forall h ensures multiset(log)[h] + Below(w, next, h) == Below(w, tasks, h) {
        TaskDone(w, t, rest, before, h);
      }
      TaskShrinks(w, t, rest);
      left := next;
    }
    forall h ensures multiset(log)[h] == Below(w, tasks, h) {
      BelowNothing(w, h);
    }
  }

  /** Replacing a task by its visit, its scans and its children keeps every count. */
  lemma TaskDone(w: World, t: Task, rest: seq<Task>, before: seq<Happening>, h: Happening)
    ensures multiset(before + ([Visited(t)] + ScansFrom(w, t, 0)))[h] + Below(w, rest + ChildrenFrom(w, t, 0), h)
         == multiset(before)[h] + Below(w, [t] + rest, h)
  {
    WalkSplits(w, t, 0, h);
    assert Walk(w, t) == multiset{Visited(t)} + WalkFrom(w, t, 0);
    assert ([t] + rest)[1..] == rest;
    assert Below(w, [t] + rest, h) == Walk(w, t)[h] + Below(w, rest, h);
    hide Walk, WalkFrom, Below, Examine, ScansFrom, ChildrenFrom;
    BelowAppend(w, rest, ChildrenFrom(w, t, 0), h);
    assert multiset(before + ([Visited(t)] + ScansFrom(w, t, 0)))
        == multiset(before) + (multiset{Visited(t)} + multiset(ScansFrom(w, t, 0)));
  }

  lemma TaskShrinks(w: World, t: Task, rest: seq<Task>)
    ensures Work(w, rest + ChildrenFrom(w, t, 0)) < Work(w, [t] + rest)
  {
    assert ([t] + rest)[1..] == rest;
    assert Work(w, [t] + rest) == CostTask(w, 0, t) + Work(w, rest);
    hide Examine, Work, ChildrenFrom;
    WorkAppend(w, rest, ChildrenFrom(w, t, 0));
    ChildrenWork(w, t, 0);
    CostTaskUnfold(w, 0, t);
  }
}
