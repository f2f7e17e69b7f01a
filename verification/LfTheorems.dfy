/** What holds of every run of `lf`, whatever the graph, the number of threads and the schedule. */
module LfTheorems {
  import opened Helpers
  import opened LfWorld
  import opened Sums
  import opened LfTraversal
  import opened LfPaths
  import opened LfRules
  import opened LfMachine
  import opened LfSafety
  import opened LfProgress

  lemma {:induction false} RunInv(w: World, base: Task, n: nat, states: seq<State>, steps: seq<Step>, j: nat)
    requires Run(w, base, n, states, steps) && j < |states|
    ensures Inv(w, base, states[j]) && |states[j].pcs| == n
  {
    hide Inv, FinderAct, MainStep;
    if j == 0 {
      StartInv(w, base, n);
    } else {
      RunInv(w, base, n, states, steps, j - 1);
      StepInv(w, base, states[j - 1], steps[j - 1]);
      StepSize(w, states[j - 1], steps[j - 1]);
    }
  }

  lemma StepSize(w: World, s: State, step: Step)
    requires Enabled(s, step)
    ensures |Apply(w, s, step).pcs| == |s.pcs|
  {
    hide Examine;
    if step.Act? {
      ActMoves(w, s, step.i);
    }
  }

  // ------------------------------------------------------------------ safety

  /** active_tasks is exactly the number of finders holding a task. */
  lemma ActiveTasksExact(w: World, base: Task, n: nat, states: seq<State>, steps: seq<Step>, j: nat)
    requires Run(w, base, n, states, steps) && j < |states|
    ensures states[j].active == Holders(states[j].pcs) >= 0
  {
    RunInv(w, base, n, states, steps, j);
    HoldersZero(states[j].pcs);
  }

  /** While the walk is on some finder is awake and will not fall asleep on what it has read; once
      it is over, nobody sleeps except before the broadcast that is about to happen. */
  lemma NoLostWakeup(w: World, base: Task, n: nat, states: seq<State>, steps: seq<Step>, j: nat)
    requires Run(w, base, n, states, steps) && j < |states| && n > 0
    ensures var s := states[j];
            if s.shutDown then AnySleeper(s) ==> exists i :: 0 <= i < |s.pcs| && s.pcs[i].Announcing?
            else exists i :: 0 <= i < |s.pcs| && !Parked(s.pcs[i])
  {
    RunInv(w, base, n, states, steps, j);
  }

  lemma StepAfterShut(w: World, base: Task, s: State, step: Step)
    requires Inv(w, base, s) && s.shutDown && Enabled(s, step)
    ensures var s' := Apply(w, s, step); s'.shutDown && s'.queue == s.queue && s'.log == s.log
  {
    hide Conserved, Examine;
    if step.Act? {
      assert !HoldsTask(s.pcs[step.i]) && !s.pcs[step.i].Unlinked?;
      assert PcSound(w, s, s.pcs[step.i]);
    }
  }

  lemma ShutIdle(w: World, base: Task, s: State)
    requires Inv(w, base, s) && s.shutDown
    ensures s.queue == [] && s.active == 0 && forall i :: 0 <= i < |s.pcs| ==> !HoldsTask(s.pcs[i])
  {
    hide Conserved, PcSound;
    HoldersZero(s.pcs);
  }

  /** Termination detection is sound: from the moment shut_down is set the queue is and stays empty,
      no finder holds a task, and nothing more is visited or scanned. */
  lemma {:induction false} ShutdownIsFinal(
    w: World, base: Task, n: nat, states: seq<State>, steps: seq<Step>, j: nat, k: nat)
    requires Run(w, base, n, states, steps) && j <= k < |states| && states[j].shutDown
    ensures var s := states[k];
            s.shutDown && s.queue == [] && s.active == 0 && s.log == states[j].log
            && forall i :: 0 <= i < |s.pcs| ==> !HoldsTask(s.pcs[i])
    decreases k
  {
    hide Inv, FinderAct, MainStep;
    if j < k {
      ShutdownIsFinal(w, base, n, states, steps, j, k - 1);
      RunInv(w, base, n, states, steps, k - 1);
      StepAfterShut(w, base, states[k - 1], steps[k - 1]);
    }
    RunInv(w, base, n, states, steps, k);
    ShutIdle(w, base, states[k]);
  }

  /** Main has seen shut_down and leaves its waiting loop. */
  predicate Released(s: State) {
    s.main.MUnlocking? || s.main.MJoining? || s.main.MDone?
  }

  lemma ShutMeansComplete(w: World, base: Task, s: State)
    requires Inv(w, base, s) && s.shutDown
    ensures multiset(s.log) == Walk(w, base)
  {
    hide Walk, WalkFrom, TailFrom, ScanBag;
    assert s.queue == [];
    forall i | 0 <= i < |s.pcs| ensures Owed(w, s.pcs[i]) == multiset{} {
      assert !HoldsTask(s.pcs[i]) && !s.pcs[i].Unlinked?;
    }
    hide Owed;
    forall h ensures multiset(s.log)[h] == Walk(w, base)[h] {
      OwedNothing(w, s.pcs, h);
      assert Queued(w, [], h) == 0;
    }
  }

  /** Confluence: when main is released, the tasks visited and the scan_file calls made are those of
      the sequential traversal, each as often, in whatever order the threads ran. */
  lemma ReleasedIsComplete(w: World, base: Task, n: nat, states: seq<State>, steps: seq<Step>, j: nat)
    requires Run(w, base, n, states, steps) && j < |states| && Released(states[j])
    ensures multiset(states[j].log) == Walk(w, base)
  {
    RunInv(w, base, n, states, steps, j);
    ShutMeansComplete(w, base, states[j]);
  }

  /** What a finished walk has done, in terms of the options: scan_file was called for the entries of
      visited directories that are due to be scanned, with the types they are due as, and the tasks
      visited are the base and those due below visited ones. */
  lemma ReleasedExactly(w: World, base: Task, n: nat, states: seq<State>, steps: seq<Step>, j: nat)
    requires Run(w, base, n, states, steps) && j < |states| && Released(states[j])
    ensures var log := states[j].log;
            forall path, typ :: Scanned(path, typ) in log <==>
              exists t: Task, e: Entry ::
                && Visited(t) in log && Listed(w, t, e)
                && path == t.path + "/" + e.name && DueScan(w.filters, t, e, typ)
    ensures var log := states[j].log;
            forall c: Task :: Visited(c) in log <==>
              || c == base
              || exists t: Task, e: Entry, id: Id ::
                   && Visited(t) in log && Listed(w, t, e)
                   && DueVisit(w.filters, t, e, id) && TaskBelow(t, e.name, id, c)
  {
    ReleasedIsComplete(w, base, n, states, steps, j);
    hide *;
    var log := states[j].log;
    assert forall h :: h in log <==> h in Walk(w, base) by {
      assert forall h :: h in log <==> h in multiset(log);
    }
    forall path, typ ensures Scanned(path, typ) in log <==>
      exists t: Task, e: Entry ::
        && Visited(t) in log && Listed(w, t, e)
        && path == t.path + "/" + e.name && DueScan(w.filters, t, e, typ)
    {
      ScannedExactly(w, base, path, typ);
    }
    forall c: Task ensures Visited(c) in log <==>
      || c == base
      || exists t: Task, e: Entry, id: Id ::
           && Visited(t) in log && Listed(w, t, e)
           && DueVisit(w.filters, t, e, id) && TaskBelow(t, e.name, id, c)
    {
      VisitedExactly(w, base, c);
    }
  }

  lemma LogWithinWalk(w: World, base: Task, s: State)
    requires Inv(w, base, s)
    ensures multiset(s.log) <= Walk(w, base)
  {
    hide Walk, Owed;
    forall h ensures multiset(s.log)[h] <= Walk(w, base)[h] {
      SumsNonNegative(w, s, h);
    }
  }

  /** At any moment of any run, no path has been visited twice or scanned twice. */
  lemma NothingTwice(w: World, base: Task, n: nat, states: seq<State>, steps: seq<Step>, j: nat)
    requires Run(w, base, n, states, steps) && j < |states| && ProperNames(w)
    ensures Once(multiset(states[j].log))
  {
    RunInv(w, base, n, states, steps, j);
    var log := multiset(states[j].log);
    LogWithinWalk(w, base, states[j]);
    WalkOnce(w, base);
    hide Inv;
    forall g, h | g in log && h in log && SameSlot(g, h) ensures g == h && log[g] == 1 {
      assert g in Walk(w, base) && h in Walk(w, base);
    }
  }

  lemma {:induction false} LineageTidy(w: World, base: Task, chain: seq<Task>, picks: seq<nat>)
    requires Tidy(w, base) && Lineage(w, base, chain, picks)
    ensures Tidy(w, chain[|chain| - 1])
    decreases |picks|
  {
    if |picks| > 0 {
      var n := |picks| - 1;
      LineageTidy(w, base, chain[..n + 1], picks[..n]);
      assert Begets(w, chain[n], picks[n], chain[n + 1]);
      ChildTidy(w, chain[n], Entries(w, chain[n])[picks[n]]);
    }
  }

  /** Every directory a finder takes up lies on a chain of entries from the base; its history lists
      exactly the ids on that chain, all different; and its depth is bounded even when links form
      cycles and no limit is set. */
  lemma VisitedTasks(w: World, base: Task, n: nat, states: seq<State>, steps: seq<Step>, j: nat, t: Task)
    returns (chain: seq<Task>, picks: seq<nat>)
    requires Run(w, base, n, states, steps) && j < |states| && Visited(t) in states[j].log
    requires base.depth == 0
    ensures Lineage(w, base, chain, picks) && chain[|chain| - 1] == t && t.depth == |picks|
    ensures forall i :: 0 <= i < t.depth ==> Seen(t)[i] == PickedId(w, chain, picks, i)
    ensures Distinct(Seen(t)) && t.depth <= |w.fs| + 1
    ensures w.filters.maxDepth > 0 ==> t.depth < w.filters.maxDepth
  {
    RunInv(w, base, n, states, steps, j);
    LogWithinWalk(w, base, states[j]);
    hide Inv;
    assert multiset(states[j].log)[Visited(t)] > 0;
    BaseDescends(w, base);
    WalkDescends(w, base, base, t);
    chain, picks :| Lineage(w, base, chain, picks) && chain[|chain| - 1] == t;
    HistoryIsPath(w, base, chain, picks);
    assert Tidy(w, base);
    LineageTidy(w, base, chain, picks);
    DepthBound(w, t);
  }

  // ------------------------------------------------------------------ termination

  function SpuriousCount(steps: seq<Step>): nat {
    if steps == [] then 0
    else SpuriousCount(steps[..|steps| - 1]) + (if IsSpurious(steps[|steps| - 1]) then 1 else 0)
  }

  lemma PotentialNonNegative(w: World, base: Task, s: State)
    requires Inv(w, base, s)
    ensures Potential(w, s) >= 0
  {
    hide Cost, CostTask, Conserved, CountExact;
    var n := |s.pcs|;
    SumNonNegative(PcTerms(w, n, s.pcs));
    SumNonNegative(QueueTerms(w, n, s.queue));
  }

  lemma {:induction false} RunDrops(w: World, base: Task, n: nat, states: seq<State>, steps: seq<Step>)
    requires Run(w, base, n, states, steps)
    ensures Potential(w, states[|steps|]) + |steps| <= Potential(w, Start(base, n)) + WAKE * SpuriousCount(steps)
    decreases |steps|
  {
    if |steps| > 0 {
      var m := |steps| - 1;
      RunDrops(w, base, n, states[..m + 1], steps[..m]);
      RunInv(w, base, n, states, steps, m);
      hide Inv, Potential;
      StepDrops(w, base, states[m], steps[m]);
    }
  }

  /** A bound computed before the run: all the steps of the walk itself, for `n` threads. */
  ghost function StepBound(w: World, base: Task, n: nat): nat {
    CostTask(w, n, base) + 14 * n + 21
  }

  /** Termination: apart from spurious wake-ups (and what each of them costs), a run has at most
      StepBound steps, on any graph, cyclic or not, with or without a depth limit. */
  lemma RunsAreFinite(w: World, base: Task, n: nat, states: seq<State>, steps: seq<Step>)
    requires Run(w, base, n, states, steps)
    ensures |steps| <= StepBound(w, base, n) + WAKE * SpuriousCount(steps)
  {
    RunDrops(w, base, n, states, steps);
    RunInv(w, base, n, states, steps, |steps|);
    PotentialNonNegative(w, base, states[|steps|]);
    hide Inv, CostTask;
    QueueCostPop(w, n, [base]);
    var zeros := seq(n, i => 0);
    SumNothing(zeros);
    SumRaise(zeros, PcTerms(w, n, Start(base, n).pcs), WAKE);
  }

  /** Every run that cannot go on has finished, with the complete result. */
  ghost predicate Completes(w: World, base: Task, n: nat) {
    forall states: seq<State>, steps: seq<Step> ::
      Run(w, base, n, states, steps) && !CanProgress(states[|steps|])
      ==> Final(states[|steps|]) && multiset(states[|steps|].log) == Walk(w, base)
  }

  /** With no finder thread main goes to sleep on a condition nobody will ever signal. */
  lemma NoThreadsHang(w: World, base: Task) returns (states: seq<State>, steps: seq<Step>)
    ensures Run(w, base, 0, states, steps) && !CanProgress(states[|steps|])
    ensures states[|steps|].main.MWaiting? && states[|steps|].log == [] && Visited(base) in Walk(w, base)
  {
    var s0 := Start(base, 0);
    var s1 := MainStep(s0);
    var s2 := MainStep(s1);
    var s3 := MainStep(s2);
    states, steps := [s0, s1, s2, s3], [MainAct, MainAct, MainAct];
  }

  /** The walk always completes if and only if there is at least one finder thread. */
  lemma CompletesIffThreads(w: World, base: Task, n: nat)
    ensures Completes(w, base, n) <==> n > 0
  {
    if n == 0 {
      var states, steps := NoThreadsHang(w, base);
      assert !Final(states[|steps|]);
    } else {
      forall states: seq<State>, steps: seq<Step> | Run(w, base, n, states, steps) && !CanProgress(states[|steps|])
        ensures Final(states[|steps|]) && multiset(states[|steps|].log) == Walk(w, base)
      {
        RunInv(w, base, n, states, steps, |steps|);
        NoDeadlock(w, base, states[|steps|]);
        ReleasedIsComplete(w, base, n, states, steps, |steps|);
      }
    }
  }

  // ------------------------------------------------------------------ how many threads there are

  const U32 := 0x1_0000_0000

  /** The thread count after init_find has adjusted the requested one, in unsigned arithmetic. */
  function ThreadCount(requested: nat, nprocs: nat): nat
    requires requested < U32 && 0 < nprocs < U32 / 2
  {
    var n := if requested > 1 && requested < nprocs then (requested + nprocs) % U32
             else if requested == 0 then (nprocs * 40) % U32 / 99 + 1
             else requested;
    if n > nprocs then nprocs - 1 else n
  }

  /** Without a request the count is 40 parts in 99 of the processors, rounded down, and one more. A
      request is met exactly if it is for one thread, for as many as there are processors, or for one
      less; any other is answered with one less than there are processors. */
  lemma ThreadsChosen(requested: nat, nprocs: nat)
    requires requested < U32 && 0 < nprocs < U32 / 2
    ensures var n := ThreadCount(requested, nprocs);
            && (requested == 0 && nprocs * 40 < U32 ==> 0 < n <= nprocs && 99 * (n - 1) <= 40 * nprocs < 99 * n)
            && (requested > 0 ==>
                  (n == requested <==> requested == 1 || requested == nprocs || requested == nprocs - 1))
            && (requested > 0 && n != requested ==> n == nprocs - 1)
  {
  }

  /** The clamp leaves no thread exactly when more than one is asked for on a single processor;
      in that case, and in no other, `lf` hangs without having visited anything. */
  lemma ClampHangs(w: World, base: Task, requested: nat, nprocs: nat)
    requires requested < U32 && 0 < nprocs < U32 / 2
    ensures !Completes(w, base, ThreadCount(requested, nprocs)) <==> nprocs == 1 && requested > 1
  {
    CompletesIffThreads(w, base, ThreadCount(requested, nprocs));
    hide Completes;
  }
}
