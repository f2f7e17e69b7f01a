/** The walker never gets stuck, and its runs are finite: every step but a spurious wake-up uses up
    a potential that is computed from the graph beforehand. */
module LfProgress {
  import opened Helpers
  import opened LfWorld
  import opened Sums
  import opened LfTraversal
  import opened LfMachine
  import opened LfSafety

  predicate IsSpurious(step: Step) {
    step.Spurious? || step.SpuriousMain?
  }

  /** Some thread can take a step of its own. */
  ghost predicate CanProgress(s: State) {
    exists step :: Enabled(s, step) && !IsSpurious(step)
  }

  // ------------------------------------------------------------------ no deadlock

  lemma SignalEnabled(s: State, i: nat)
    requires i < |s.pcs| && s.pcs[i].Signalling?
    ensures CanProgress(s)
  {
    if s.main.MWaiting? {
      assert Enabled(s, Signal(i, TheMain));
    } else if j :| 0 <= j < |s.pcs| && s.pcs[j].Waiting? {
      assert Enabled(s, Signal(i, Thread(j)));
    } else {
      assert Enabled(s, Signal(i, Nobody));
    }
  }

  lemma FinderProgress(s: State, i: nat)
    requires i < |s.pcs| && !s.pcs[i].Unborn? && !s.pcs[i].Waiting? && !s.pcs[i].Exited?
    requires HasMutex(s.pcs[i]) || s.owner.Free?
    ensures CanProgress(s)
  {
    if s.pcs[i].Signalling? {
      SignalEnabled(s, i);
    } else {
      assert Enabled(s, Act(i));
    }
  }

  /** In every state that keeps the invariant, with at least one finder thread, either all is over
      or some thread can move without any spurious wake-up. */
  lemma NoDeadlock(w: World, base: Task, s: State)
    requires Inv(w, base, s) && |s.pcs| > 0
    ensures Final(s) || CanProgress(s)
  {
    hide Conserved, CountExact, ShutSound;
    if s.main.MSpawning? {
      assert Enabled(s, MainAct);
    } else if s.owner.Finder? {
      FinderProgress(s, s.owner.id);
    } else if s.owner.Main? {
      assert Enabled(s, MainAct);
    } else if !s.shutDown {
      var i :| 0 <= i < |s.pcs| && !Parked(s.pcs[i]);
      assert PcSound(w, s, s.pcs[i]);
      FinderProgress(s, i);
    } else if i :| 0 <= i < |s.pcs| && !s.pcs[i].Exited? {
      assert !AnySleeper(s);
      FinderProgress(s, i);
    } else {
      assert !AnySleeper(s);
      assert s.main.MDone? || Enabled(s, MainAct);
    }
  }

  // ------------------------------------------------------------------ potential

  /** What being woken can cost: lock, test, load, compare. */
  const WAKE := 6

  /** Steps, with the wake-ups they cause, still needed for entry `k` and later of a task. */
  ghost function CostFrom(w: World, n: nat, t: Task, k: nat): nat
    requires k <= |Entries(w, t)|
    decreases Rank(w, t), |Entries(w, t)| - k, 0
  {
    if k == |Entries(w, t)| then WAKE
    else CostEntry(w, n, t, k) + CostFrom(w, n, t, k + 1)
  }

  ghost function CostEntry(w: World, n: nat, t: Task, k: nat): nat
    requires k < |Entries(w, t)|
    decreases Rank(w, t), |Entries(w, t)| - k - 1, 1
  {
    var o := OutcomeAt(w, t, k);
    if o.child.None? then 2
    else
      ChildRank(w, t, Entries(w, t)[k]);
      6 + WAKE + CostTask(w, n, o.child.value)
  }

  /** The same for a task that is still to be opened. */
  ghost function CostTask(w: World, n: nat, t: Task): nat
    decreases Rank(w, t), |Entries(w, t)| + 1, 0
  {
    1 + CostBroadcast(n) + CostFrom(w, n, t, 0)
  }

  ghost function CostBroadcast(n: nat): nat {
    2 + WAKE * (n + 1)
  }

  ghost function Tail(w: World, n: nat, t: Task, k: nat): nat {
    if k <= |Entries(w, t)| then CostFrom(w, n, t, k) else 0
  }

  ghost function Cost(w: World, n: nat, pc: Pc): nat {
    match pc
    case Unborn => WAKE
    case AtLock => WAKE - 1
    case Woken => WAKE - 1
    case Testing => WAKE - 2
    case Loaded(_) => WAKE - 3
    case Waiting => 0
    case Announcing => WAKE + CostBroadcast(n)
    case Leaving => 1
    case Exited => 0
    case Unlinked(t) => 2 + CostTask(w, n, t)
    case Counted(t) => 1 + CostTask(w, n, t)
    case Opening(t) => CostTask(w, n, t)
    case Failing(_) => CostBroadcast(n) + WAKE
    case Rousing => WAKE * (n + 1) + WAKE
    case Scanning(t, k) => Tail(w, n, t, k)
    case Submitting(t, k, c) => 5 + WAKE + CostTask(w, n, c) + Tail(w, n, t, k + 1)
    case Linking(t, k, c) => 4 + WAKE + CostTask(w, n, c) + Tail(w, n, t, k + 1)
    case Signalling(t, k) => 3 + WAKE + Tail(w, n, t, k + 1)
    case Releasing(t, k) => 2 + Tail(w, n, t, k + 1)
    case Reporting(t, k) => 1 + Tail(w, n, t, k + 1)
  }

  ghost function MainCost(n: nat, m: MainPc): int {
    match m
    case MSpawning(k) => 2 * n - k + WAKE + 1
    case MAtLock => n + WAKE
    case MWoken => n + WAKE
    case MTesting => n + WAKE - 1
    case MWaiting => n + WAKE - 2
    case MUnlocking => n + 2
    case MJoining(k) => n + 1 - k
    case MDone => 0
  }

  ghost function PcTerms(w: World, n: nat, pcs: seq<Pc>): seq<int> {
    seq(|pcs|, i requires 0 <= i < |pcs| => Cost(w, n, pcs[i]) as int)
  }

  ghost function PcsCost(w: World, n: nat, pcs: seq<Pc>): int {
    Sum(PcTerms(w, n, pcs))
  }

  ghost function QueueTerms(w: World, n: nat, q: seq<Task>): seq<int> {
    seq(|q|, i requires 0 <= i < |q| => CostTask(w, n, q[i]) as int)
  }

  ghost function QueueCost(w: World, n: nat, q: seq<Task>): int {
    Sum(QueueTerms(w, n, q))
  }

  ghost function ShutCost(n: nat, shut: bool): int {
    if shut then 0 else WAKE + CostBroadcast(n)
  }

  ghost function Potential(w: World, s: State): int {
    var n := |s.pcs|;
    QueueCost(w, n, s.queue) + PcsCost(w, n, s.pcs) + MainCost(n, s.main) + ShutCost(n, s.shutDown)
  }

  // ------------------------------------------------------------------ each step uses some up

  lemma PcsCostChange(w: World, n: nat, pcs: seq<Pc>, qcs: seq<Pc>, i: nat)
    requires i < |pcs| == |qcs| && forall j :: 0 <= j < |pcs| && j != i ==> qcs[j] == pcs[j]
    ensures PcsCost(w, n, qcs) == PcsCost(w, n, pcs) - Cost(w, n, pcs[i]) + Cost(w, n, qcs[i])
  {
    hide Cost;
    SumChange(PcTerms(w, n, pcs), PcTerms(w, n, qcs), i);
  }

  lemma PcsCostWakened(w: World, n: nat, pcs: seq<Pc>, qcs: seq<Pc>)
    requires |pcs| == |qcs| && forall j :: 0 <= j < |pcs| ==> qcs[j] == Wakened(pcs[j])
    ensures PcsCost(w, n, qcs) <= PcsCost(w, n, pcs) + |pcs| * (WAKE - 1)
  {
    assert forall j :: 0 <= j < |pcs| ==> Cost(w, n, qcs[j]) <= Cost(w, n, pcs[j]) + WAKE - 1;
    hide Cost;
    SumRaise(PcTerms(w, n, pcs), PcTerms(w, n, qcs), WAKE - 1);
  }

  lemma QueueCostPop(w: World, n: nat, q: seq<Task>)
    requires q != []
    ensures QueueCost(w, n, q) == CostTask(w, n, q[0]) + QueueCost(w, n, q[1..])
  {
    hide CostTask;
    assert QueueTerms(w, n, q[1..]) == QueueTerms(w, n, q)[1..];
  }

  lemma QueueCostAppend(w: World, n: nat, q: seq<Task>, t: Task)
    ensures QueueCost(w, n, q + [t]) == QueueCost(w, n, q) + CostTask(w, n, t)
  {
    hide CostTask;
    SumAppend(QueueTerms(w, n, q), CostTask(w, n, t));
    assert QueueTerms(w, n, q + [t]) == QueueTerms(w, n, q) + [CostTask(w, n, t) as int];
  }

  lemma CostTaskUnfold(w: World, n: nat, t: Task)
    ensures CostTask(w, n, t) == 1 + CostBroadcast(n) + Tail(w, n, t, 0)
    ensures Tail(w, n, t, |Entries(w, t)|) == WAKE
  {
  }

  lemma TailUnfold(w: World, n: nat, t: Task, k: nat)
    requires k < |Entries(w, t)|
    ensures var o := OutcomeAt(w, t, k);
            Tail(w, n, t, k) == Tail(w, n, t, k + 1)
              + (if o.child.None? then 2 else 6 + WAKE + CostTask(w, n, o.child.value))
  {
    assert CostFrom(w, n, t, k) == CostEntry(w, n, t, k) + CostFrom(w, n, t, k + 1);
  }

  predicate Broadcasts(pc: Pc) {
    pc.Announcing? || pc.Rousing?
  }

  /** What one finder's step can change of the potential, when it is not a broadcast. */
  ghost function Share(w: World, s: State, pc: Pc): int {
    QueueCost(w, |s.pcs|, s.queue) + Cost(w, |s.pcs|, pc) + ShutCost(|s.pcs|, s.shutDown)
  }

  lemma ShareDequeue(w: World, s: State, i: nat)
    requires FinderCanAct(s, i) && s.pcs[i].Testing?
    ensures Share(w, FinderAct(w, s, i), FinderAct(w, s, i).pcs[i]) < Share(w, s, s.pcs[i])
  {
    hide CostTask, Tail, QueueCost;
    if s.queue != [] {
      QueueCostPop(w, |s.pcs|, s.queue);
    }
  }

  lemma ShareEnqueue(w: World, s: State, i: nat)
    requires FinderCanAct(s, i) && s.pcs[i].Linking?
    ensures Share(w, FinderAct(w, s, i), FinderAct(w, s, i).pcs[i]) < Share(w, s, s.pcs[i])
  {
    hide CostTask, Tail, QueueCost;
    QueueCostAppend(w, |s.pcs|, s.queue, s.pcs[i].child);
  }

  /** Steps that leave the queue and shut_down alone. */
  predicate Private(pc: Pc) {
    !Broadcasts(pc) && !pc.Testing? && !pc.Linking? && !pc.Loaded?
  }

  lemma PrivateKeeps(w: World, s: State, i: nat)
    requires FinderCanAct(s, i) && Private(s.pcs[i])
    ensures var s' := FinderAct(w, s, i);
            |s'.pcs| == |s.pcs| && s'.queue == s.queue && s'.shutDown == s.shutDown
  {
    hide OutcomeAt, CanOpen, Entries, AfterExamine, Broadcast;
  }

  lemma CostFalls(w: World, s: State, pc: Pc, pc': Pc)
    requires Private(pc) && GoesTo(w, pc, pc') && PcSound(w, s, pc)
    ensures Cost(w, |s.pcs|, pc') < Cost(w, |s.pcs|, pc)
  {
    hide CostTask, Tail, CostFrom, Examine, OutcomeAt;
    match pc
    case Opening(t) =>
      CostTaskUnfold(w, |s.pcs|, t);
    case Scanning(t, k) =>
      CostTaskUnfold(w, |s.pcs|, t);
      if k < |Entries(w, t)| {
        TailUnfold(w, |s.pcs|, t, k);
      }
    case _ =>
  }

  lemma CostDrops(w: World, s: State, i: nat)
    requires FinderCanAct(s, i) && Private(s.pcs[i]) && PcSound(w, s, s.pcs[i])
    ensures var s' := FinderAct(w, s, i);
            |s'.pcs| == |s.pcs| && s'.queue == s.queue && s'.shutDown == s.shutDown
            && Cost(w, |s.pcs|, s'.pcs[i]) < Cost(w, |s.pcs|, s.pcs[i])
  {
    PrivateKeeps(w, s, i);
    ActGoes(w, s, i);
    hide *;
    CostFalls(w, s, s.pcs[i], FinderAct(w, s, i).pcs[i]);
  }

  lemma ShareDrops(w: World, s: State, i: nat)
    requires FinderCanAct(s, i) && !Broadcasts(s.pcs[i]) && PcSound(w, s, s.pcs[i])
    ensures |FinderAct(w, s, i).pcs| == |s.pcs|
    ensures Share(w, FinderAct(w, s, i), FinderAct(w, s, i).pcs[i]) < Share(w, s, s.pcs[i])
  {
    hide CostTask, Tail, QueueCost, Examine;
    if s.pcs[i].Testing? {
      ShareDequeue(w, s, i);
    } else if s.pcs[i].Linking? {
      ShareEnqueue(w, s, i);
    } else if !s.pcs[i].Loaded? {
      hide FinderAct, Cost;
      CostDrops(w, s, i);
    }
  }

  lemma ActFrame(w: World, s: State, i: nat)
    requires FinderCanAct(s, i) && !Broadcasts(s.pcs[i])
    ensures var s' := FinderAct(w, s, i);
            |s'.pcs| == |s.pcs| && s'.main == s.main && forall j :: 0 <= j < |s.pcs| && j != i ==> s'.pcs[j] == s.pcs[j]
  {
    hide Examine, OutcomeAt, CanOpen, Broadcast;
  }

  lemma BroadcastDrops(w: World, s: State, i: nat)
    requires FinderCanAct(s, i) && Broadcasts(s.pcs[i])
    ensures Potential(w, FinderAct(w, s, i)) < Potential(w, s)
  {
    hide CostTask, Tail, QueueCost, PcsCost;
    var n := |s.pcs|;
    var mid := s.pcs[i := if s.pcs[i].Announcing? then Testing else AtLock];
    PcsCostChange(w, n, s.pcs, mid, i);
    PcsCostWakened(w, n, mid, FinderAct(w, s, i).pcs);
  }

  lemma ActDrops(w: World, s: State, i: nat)
    requires FinderCanAct(s, i) && PcSound(w, s, s.pcs[i])
    ensures Potential(w, FinderAct(w, s, i)) < Potential(w, s)
  {
    if Broadcasts(s.pcs[i]) {
      BroadcastDrops(w, s, i);
    } else {
      hide FinderAct, Cost, QueueCost, PcsCost;
      ActFrame(w, s, i);
      ShareDrops(w, s, i);
      PcsCostChange(w, |s.pcs|, s.pcs, FinderAct(w, s, i).pcs, i);
    }
  }

  lemma MainDrops(w: World, s: State)
    requires MainSound(s) && MainCanAct(s)
    ensures Potential(w, MainStep(s)) < Potential(w, s)
  {
    hide CostTask, Tail, QueueCost, PcsCost;
    if s.main.MSpawning? && s.main.next < |s.pcs| {
      PcsCostChange(w, |s.pcs|, s.pcs, MainStep(s).pcs, s.main.next);
    }
  }

  lemma WakeRaises(w: World, s: State, who: Wakee)
    requires CanWake(s, who)
    ensures Potential(w, Wake(s, who)) <= Potential(w, s) + WAKE - 1
  {
    hide CostTask, Tail, QueueCost, PcsCost;
    if who.Thread? {
      PcsCostChange(w, |s.pcs|, s.pcs, Wake(s, who).pcs, who.id);
    }
  }

  lemma SignalDrops(w: World, s: State, i: nat, who: Wakee)
    requires Enabled(s, Signal(i, who))
    ensures Potential(w, Apply(w, s, Signal(i, who))) < Potential(w, s)
  {
    hide CostTask, Tail, QueueCost, PcsCost;
    WakeRaises(w, s, who);
    var mid := Wake(s, who);
    assert mid.pcs[i] == s.pcs[i];
    PcsCostChange(w, |s.pcs|, mid.pcs, Apply(w, s, Signal(i, who)).pcs, i);
  }

  /** Every step of a thread lowers the potential; a spurious wake-up raises it by less than WAKE. */
  lemma StepDrops(w: World, base: Task, s: State, step: Step)
    requires Inv(w, base, s) && Enabled(s, step)
    ensures Potential(w, Apply(w, s, step)) <= Potential(w, s) + (if IsSpurious(step) then WAKE - 1 else -1)
  {
    match step
    case Act(i) =>
      assert PcSound(w, s, s.pcs[i]);
      ActDrops(w, s, i);
    case Signal(i, who) => SignalDrops(w, s, i, who);
    case MainAct => MainDrops(w, s);
    case Spurious(i) =>
      hide Potential;
      assert Apply(w, s, step) == Wake(s, Thread(i));
      WakeRaises(w, s, Thread(i));
    case SpuriousMain =>
      hide Potential;
      assert Apply(w, s, step) == Wake(s, TheMain);
      WakeRaises(w, s, TheMain);
  }
}
