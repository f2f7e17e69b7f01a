/** What every step of the walker keeps: mutual exclusion, an exact count of active tasks, sound
    termination detection, no lost wake-up, and conservation of the work still to be done. */
module LfSafety {
  import opened Helpers
  import opened LfWorld
  import opened Sums
  import opened LfTraversal
  import opened LfMachine

  // ------------------------------------------------------------------ classes of thread states

  predicate HasMutex(pc: Pc) {
    pc.Testing? || pc.Loaded? || pc.Announcing? || pc.Leaving? || pc.Unlinked? || pc.Counted?
    || pc.Linking? || pc.Signalling? || pc.Releasing?
  }

  predicate MainHasMutex(m: MainPc) {
    m.MTesting? || m.MUnlocking?
  }

  /** Between raising active_tasks for a task and lowering it again. */
  predicate HoldsTask(pc: Pc) {
    pc.Counted? || pc.Opening? || pc.Failing? || pc.Scanning? || pc.Submitting? || pc.Linking?
    || pc.Signalling? || pc.Releasing? || pc.Reporting?
  }

  /** Asleep, or bound to fall asleep on the count it has already read. */
  predicate Parked(pc: Pc) {
    pc.Waiting? || (pc.Loaded? && pc.count != 0)
  }

  ghost function Held(pc: Pc): int {
    if HoldsTask(pc) then 1 else 0
  }

  ghost function HeldTerms(pcs: seq<Pc>): seq<int> {
    seq(|pcs|, i requires 0 <= i < |pcs| => Held(pcs[i]))
  }

  ghost function Holders(pcs: seq<Pc>): int {
    Sum(HeldTerms(pcs))
  }

  ghost function TailFrom(w: World, t: Task, k: nat): multiset<Happening> {
    if k <= |Entries(w, t)| then WalkFrom(w, t, k) else multiset{}
  }

  /** What a thread still owes to the log, its queued children not included. */
  ghost function Owed(w: World, pc: Pc): multiset<Happening> {
    match pc
    case Unlinked(t) => Walk(w, t)
    case Counted(t) => Walk(w, t)
    case Opening(t) => Walk(w, t)
    case Scanning(t, k) => TailFrom(w, t, k)
    case Submitting(t, k, c) => Walk(w, c) + ScanBag(OutcomeAt(w, t, k)) + TailFrom(w, t, k + 1)
    case Linking(t, k, c) => Walk(w, c) + ScanBag(OutcomeAt(w, t, k)) + TailFrom(w, t, k + 1)
    case Signalling(t, k) => ScanBag(OutcomeAt(w, t, k)) + TailFrom(w, t, k + 1)
    case Releasing(t, k) => ScanBag(OutcomeAt(w, t, k)) + TailFrom(w, t, k + 1)
    case Reporting(t, k) => ScanBag(OutcomeAt(w, t, k)) + TailFrom(w, t, k + 1)
    case _ => multiset{}
  }

  ghost function OwedTerms(w: World, pcs: seq<Pc>, h: Happening): seq<int> {
    seq(|pcs|, i requires 0 <= i < |pcs| => Owed(w, pcs[i])[h])
  }

  /** How often `h` is still owed by all threads together. */
  ghost function OwedAll(w: World, pcs: seq<Pc>, h: Happening): int {
    Sum(OwedTerms(w, pcs, h))
  }

  ghost function QueuedTerms(w: World, q: seq<Task>, h: Happening): seq<int> {
    seq(|q|, i requires 0 <= i < |q| => Walk(w, q[i])[h])
  }

  /** How often `h` occurs in the traversals of the queued tasks. */
  ghost function Queued(w: World, q: seq<Task>, h: Happening): int {
    Sum(QueuedTerms(w, q, h))
  }

  // ------------------------------------------------------------------ the invariant

  ghost predicate Exclusive(s: State) {
    && (forall i :: 0 <= i < |s.pcs| ==> (HasMutex(s.pcs[i]) <==> s.owner == Finder(i)))
    && (MainHasMutex(s.main) <==> s.owner == Main)
    && (s.owner.Finder? ==> s.owner.id < |s.pcs|)
  }

  ghost predicate CountExact(s: State) {
    s.active == Holders(s.pcs)
  }

  /** Once shut_down is set there is no task left, in the queue or in a thread. */
  ghost predicate ShutSound(s: State) {
    s.shutDown ==> s.queue == [] && forall i :: 0 <= i < |s.pcs| ==> !HoldsTask(s.pcs[i]) && !s.pcs[i].Unlinked?
  }

  ghost predicate PcSound(w: World, s: State, pc: Pc) {
    match pc
    case Loaded(c) => s.queue == [] && !s.shutDown && (c == 0 ==> s.active == 0)
    case Announcing => s.shutDown
    case Leaving => s.shutDown
    case Exited => s.shutDown
    case Failing(t) => !CanOpen(w, t)
    case Scanning(t, k) => k <= |Entries(w, t)|
    case Submitting(t, k, c) => Begets(w, t, k, c)
    case Linking(t, k, c) => Begets(w, t, k, c)
    case Signalling(t, k) => k < |Entries(w, t)|
    case Releasing(t, k) => k < |Entries(w, t)|
    case Reporting(t, k) => k < |Entries(w, t)|
    case _ => true
  }

  ghost predicate PcsSound(w: World, s: State) {
    forall i :: 0 <= i < |s.pcs| ==> PcSound(w, s, s.pcs[i])
  }

  ghost predicate MainSound(s: State) {
    match s.main
    case MSpawning(k) => k <= |s.pcs| && forall i :: 0 <= i < |s.pcs| ==> (s.pcs[i].Unborn? <==> i >= k)
    case MUnlocking => s.shutDown && AllBorn(s)
    case MJoining(k) => s.shutDown && AllBorn(s) && k <= |s.pcs| && forall i :: 0 <= i < k ==> s.pcs[i].Exited?
    case MDone => Final(s) && s.shutDown
    case _ => AllBorn(s)
  }

  ghost predicate AllBorn(s: State) {
    forall i :: 0 <= i < |s.pcs| ==> !s.pcs[i].Unborn?
  }

  /** No lost wake-up: while the walk is on, some finder is neither asleep nor bound to be. */
  ghost predicate SomeoneUp(s: State) {
    !s.shutDown ==> exists i :: 0 <= i < |s.pcs| && !Parked(s.pcs[i])
  }

  ghost predicate AnySleeper(s: State) {
    s.main.MWaiting? || exists i :: 0 <= i < |s.pcs| && s.pcs[i].Waiting?
  }

  /** After shutdown a thread can be asleep only until the pending broadcast. */
  ghost predicate ShutRouses(s: State) {
    s.shutDown && AnySleeper(s) ==> exists i :: 0 <= i < |s.pcs| && s.pcs[i].Announcing?
  }

  /** Nothing of the sequential traversal is lost or done twice. */
  ghost predicate Conserved(w: World, base: Task, s: State) {
    forall h :: multiset(s.log)[h] + Queued(w, s.queue, h) + OwedAll(w, s.pcs, h) == Walk(w, base)[h]
  }

  ghost predicate Inv(w: World, base: Task, s: State) {
    && Exclusive(s) && CountExact(s) && ShutSound(s) && PcsSound(w, s) && MainSound(s)
    && (|s.pcs| > 0 ==> SomeoneUp(s)) && ShutRouses(s) && Conserved(w, base, s)
  }

  // ------------------------------------------------------------------ sums over threads

  lemma HoldersChange(pcs: seq<Pc>, qcs: seq<Pc>, i: nat)
    requires i < |pcs| == |qcs| && forall j :: 0 <= j < |pcs| && j != i ==> Held(qcs[j]) == Held(pcs[j])
    ensures Holders(qcs) == Holders(pcs) - Held(pcs[i]) + Held(qcs[i])
  {
    SumChange(HeldTerms(pcs), HeldTerms(qcs), i);
  }

  lemma HoldersZero(pcs: seq<Pc>)
    ensures Holders(pcs) >= 0
    ensures Holders(pcs) == 0 <==> forall i :: 0 <= i < |pcs| ==> !HoldsTask(pcs[i])
  {
    if i :| 0 <= i < |pcs| && HoldsTask(pcs[i]) {
      SumAtLeast(HeldTerms(pcs), i);
    } else {
      SumNothing(HeldTerms(pcs));
    }
  }

  lemma OwedChange(w: World, pcs: seq<Pc>, qcs: seq<Pc>, i: nat, h: Happening)
    requires i < |pcs| == |qcs| && forall j :: 0 <= j < |pcs| && j != i ==> Owed(w, qcs[j]) == Owed(w, pcs[j])
    ensures OwedAll(w, qcs, h) == OwedAll(w, pcs, h) - Owed(w, pcs[i])[h] + Owed(w, qcs[i])[h]
  {
    hide Owed;
    SumChange(OwedTerms(w, pcs, h), OwedTerms(w, qcs, h), i);
  }

  lemma SumsNonNegative(w: World, s: State, h: Happening)
    ensures Queued(w, s.queue, h) >= 0 && OwedAll(w, s.pcs, h) >= 0
  {
    hide Walk, Owed;
    SumNonNegative(QueuedTerms(w, s.queue, h));
    SumNonNegative(OwedTerms(w, s.pcs, h));
  }

  lemma OwedNothing(w: World, pcs: seq<Pc>, h: Happening)
    requires forall i :: 0 <= i < |pcs| ==> Owed(w, pcs[i]) == multiset{}
    ensures OwedAll(w, pcs, h) == 0
  {
    hide Walk, Owed;
    SumNothing(OwedTerms(w, pcs, h));
  }

  lemma QueuedAppend(w: World, q: seq<Task>, t: Task, h: Happening)
    ensures Queued(w, q + [t], h) == Queued(w, q, h) + Walk(w, t)[h]
  {
    hide Walk;
    SumAppend(QueuedTerms(w, q, h), Walk(w, t)[h]);
    assert QueuedTerms(w, q + [t], h) == QueuedTerms(w, q, h) + [Walk(w, t)[h]];
  }

  lemma QueuedPop(w: World, q: seq<Task>, h: Happening)
    requires q != []
    ensures Queued(w, q, h) == Walk(w, q[0])[h] + Queued(w, q[1..], h)
  {
    hide Walk;
    assert QueuedTerms(w, q[1..], h) == QueuedTerms(w, q, h)[1..];
  }

  // ------------------------------------------------------------------ unfolding the traversal

  lemma WalkHead(w: World, t: Task)
    ensures Walk(w, t) == multiset{Visited(t)} + TailFrom(w, t, 0)
  {
  }

  lemma TailStep(w: World, t: Task, k: nat)
    requires k <= |Entries(w, t)|
    ensures var o := OutcomeAt(w, t, k);
            TailFrom(w, t, k) == if k == |Entries(w, t)| then multiset{} else
              (if o.child.Some? then Walk(w, o.child.value) else multiset{}) + ScanBag(o) + TailFrom(w, t, k + 1)
  {
    if k < |Entries(w, t)| {
      assert WalkFrom(w, t, k) == BelowChild(w, t, k) + ScanBag(OutcomeAt(w, t, k)) + WalkFrom(w, t, k + 1);
    }
  }

  // ------------------------------------------------------------------ one step

  /** How a finder's step changes the program counters: its own moves on, and a broadcast may
      wake the others. */
  ghost predicate Moves(s: State, s': State, i: nat) {
    && i < |s.pcs| == |s'.pcs|
    && (forall j :: 0 <= j < |s.pcs| && j != i ==> s'.pcs[j] == s.pcs[j] || s'.pcs[j] == Wakened(s.pcs[j]))
    && (s'.main == s.main || (s.main.MWaiting? && s'.main == MWoken))
    && !s.pcs[i].Unborn? && !s.pcs[i].Exited? && !s'.pcs[i].Unborn?
    && (s.shutDown ==> s'.shutDown)
  }

  lemma ActMoves(w: World, s: State, i: nat)
    requires FinderCanAct(s, i)
    ensures Moves(s, FinderAct(w, s, i), i)
  {
  }

  lemma StartInv(w: World, base: Task, n: nat)
    ensures Inv(w, base, Start(base, n))
  {
    hide Walk;
    var s := Start(base, n);
    HoldersZero(s.pcs);
    forall h ensures multiset(s.log)[h] + Queued(w, s.queue, h) + OwedAll(w, s.pcs, h) == Walk(w, base)[h] {
      OwedNothing(w, s.pcs, h);
      QueuedPop(w, [base], h);
    }
    if n > 0 {
      assert !Parked(s.pcs[0]);
    }
  }

  lemma MovesMain(s: State, s': State, i: nat)
    requires MainSound(s) && Moves(s, s', i)
    ensures MainSound(s')
  {
    if s.main.MSpawning? {
      assert forall j :: 0 <= j < |s.pcs| ==> (s'.pcs[j].Unborn? <==> s.pcs[j].Unborn?);
    }
  }

  lemma MovesCount(s: State, s': State, i: nat)
    requires CountExact(s) && Moves(s, s', i)
    requires s'.active == s.active - Held(s.pcs[i]) + Held(s'.pcs[i])
    ensures CountExact(s')
  {
    HoldersChange(s.pcs, s'.pcs, i);
  }

  lemma BroadcastKeeps(s: State)
    ensures var s' := Broadcast(s);
            && s'.queue == s.queue && s'.active == s.active && s'.shutDown == s.shutDown
            && s'.owner == s.owner && s'.log == s.log && |s'.pcs| == |s.pcs|
            && forall j :: 0 <= j < |s.pcs| ==> s'.pcs[j] == Wakened(s.pcs[j])
  {
  }

  /** A finder takes the mutex only when it is free, and gives back only its own. */
  lemma ActOwner(w: World, s: State, i: nat)
    requires FinderCanAct(s, i) && (HasMutex(s.pcs[i]) <==> s.owner == Finder(i))
    ensures var s' := FinderAct(w, s, i);
            && |s'.pcs| == |s.pcs|
            && s'.owner == (if HasMutex(s'.pcs[i]) then Finder(i) else if HasMutex(s.pcs[i]) then Free else s.owner)
            && (HasMutex(s'.pcs[i]) && !HasMutex(s.pcs[i]) ==> s.owner.Free?)
  {
    hide OutcomeAt, CanOpen, Entries, Broadcast;
    BroadcastKeeps(Goto(s, i, Testing));
    BroadcastKeeps(Goto(s, i, AtLock));
  }

  lemma MovesExclusive(s: State, s': State, i: nat)
    requires Exclusive(s) && Moves(s, s', i)
    requires s'.owner == if HasMutex(s'.pcs[i]) then Finder(i) else if HasMutex(s.pcs[i]) then Free else s.owner
    requires HasMutex(s'.pcs[i]) && !HasMutex(s.pcs[i]) ==> s.owner.Free?
    ensures Exclusive(s')
  {
    forall j | 0 <= j < |s.pcs| ensures HasMutex(s'.pcs[j]) <==> s'.owner == Finder(j) {
      assert HasMutex(s.pcs[j]) <==> s.owner == Finder(j);
      assert j != i ==> HasMutex(s'.pcs[j]) == HasMutex(s.pcs[j]);
    }
  }

  lemma ActExclusive(w: World, s: State, i: nat)
    requires Exclusive(s) && FinderCanAct(s, i)
    ensures Exclusive(FinderAct(w, s, i))
  {
    hide FinderAct;
    ActMoves(w, s, i);
    ActOwner(w, s, i);
    MovesExclusive(s, FinderAct(w, s, i), i);
  }

  lemma ActOwnPc(w: World, s: State, i: nat)
    requires Exclusive(s) && CountExact(s) && ShutSound(s) && PcsSound(w, s) && FinderCanAct(s, i)
    ensures var s' := FinderAct(w, s, i); PcSound(w, s', s'.pcs[i])
  {
    assert PcSound(w, s, s.pcs[i]);
  }

  /** Without the mutex, the queue and the flag are left alone. */
  lemma ActTouches(w: World, s: State, i: nat)
    requires FinderCanAct(s, i) && !HasMutex(s.pcs[i])
    ensures FinderAct(w, s, i).queue == s.queue && FinderAct(w, s, i).shutDown == s.shutDown
  {
    hide OutcomeAt, CanOpen, Entries;
  }

  /** Leaving shut_down, the queue and a zero count alone, a step leaves the other threads sound. */
  lemma StaysSound(w: World, s: State, s': State, pc: Pc)
    requires PcSound(w, s, pc) && (s.shutDown ==> s'.shutDown)
    requires pc.Loaded? ==> s'.queue == s.queue && s'.shutDown == s.shutDown && (s.active == 0 ==> s'.active == 0)
    ensures PcSound(w, s', pc) && PcSound(w, s', Wakened(pc))
  {
    hide Entries, Begets, CanOpen;
  }

  lemma ActOtherPcs(w: World, s: State, i: nat, j: nat)
    requires Exclusive(s) && CountExact(s) && PcsSound(w, s) && FinderCanAct(s, i)
    requires j < |s.pcs| && j != i
    ensures var s' := FinderAct(w, s, i); j < |s'.pcs| && PcSound(w, s', s'.pcs[j])
  {
    assert PcSound(w, s, s.pcs[j]) && PcSound(w, s, s.pcs[i]);
    HoldersZero(s.pcs);
    ActMoves(w, s, i);
    ActActive(w, s, i);
    if s.pcs[j].Loaded? {
      assert HasMutex(s.pcs[j]);
      ActTouches(w, s, i);
    }
    hide FinderAct, PcSound, Holders;
    StaysSound(w, s, FinderAct(w, s, i), s.pcs[j]);
  }

  lemma ActShut(w: World, s: State, i: nat)
    requires Exclusive(s) && CountExact(s) && ShutSound(s) && PcsSound(w, s) && FinderCanAct(s, i)
    ensures ShutSound(FinderAct(w, s, i))
  {
    HoldersZero(s.pcs);
    assert PcSound(w, s, s.pcs[i]);
  }

  lemma ActLive(w: World, s: State, i: nat)
    requires Exclusive(s) && CountExact(s) && PcsSound(w, s) && SomeoneUp(s) && ShutRouses(s) && FinderCanAct(s, i)
    ensures SomeoneUp(FinderAct(w, s, i))
  {
    var s' := FinderAct(w, s, i);
    if !s'.shutDown {
      if s.pcs[i].Testing? && s'.pcs[i].Loaded? {
        HoldersZero(s.pcs);
        if s.active == 0 {
          assert !Parked(s'.pcs[i]);
        } else {
          var j :| 0 <= j < |s.pcs| && HoldsTask(s.pcs[j]);
          assert !Parked(s'.pcs[j]);
        }
      } else if !Parked(s'.pcs[i]) {
      } else {
        var j :| 0 <= j < |s.pcs| && !Parked(s.pcs[j]);
        assert !Parked(s'.pcs[j]);
      }
    }
  }

  /** How often `h` is in the log, below the queue, or owed by one thread. */
  ghost function Ledger(w: World, s: State, pc: Pc, h: Happening): int {
    multiset(s.log)[h] + Queued(w, s.queue, h) + Owed(w, pc)[h]
  }

  /** The effect of a finder's step on the queue, the log and its own program counter. */
  ghost predicate Did(s': State, i: nat, queue: seq<Task>, pc: Pc, log: seq<Happening>) {
    i < |s'.pcs| && s'.pcs[i] == pc && s'.queue == queue && s'.log == log
  }

  lemma DequeueDid(w: World, s: State, i: nat)
    requires FinderCanAct(s, i) && s.pcs[i].Testing?
    ensures Did(FinderAct(w, s, i), i, if s.queue == [] then [] else s.queue[1..],
                if s.queue != [] then Unlinked(s.queue[0]) else if s.shutDown then Leaving else Loaded(s.active), s.log)
  {
  }

  lemma BalanceDequeue(w: World, s: State, i: nat, h: Happening)
    requires FinderCanAct(s, i) && s.pcs[i].Testing?
    ensures Ledger(w, FinderAct(w, s, i), FinderAct(w, s, i).pcs[i], h) == Ledger(w, s, s.pcs[i], h)
  {
    hide Walk, WalkFrom, Examine, Queued, FinderAct;
    DequeueDid(w, s, i);
    if s.queue != [] {
      QueuedPop(w, s.queue, h);
    }
  }

  lemma OpenDid(w: World, s: State, i: nat)
    requires FinderCanAct(s, i) && s.pcs[i].Opening?
    ensures var t := s.pcs[i].task;
            var pc := if CanOpen(w, t) then Scanning(t, 0) else Failing(t);
            Did(FinderAct(w, s, i), i, s.queue, pc, s.log + [Visited(t)])
  {
  }

  lemma WalkHeadAt(w: World, t: Task, h: Happening)
    ensures Walk(w, t)[h] == multiset{Visited(t)}[h] + TailFrom(w, t, 0)[h]
  {
    WalkHead(w, t);
    hide *;
  }

  lemma TailStepAt(w: World, t: Task, k: nat, h: Happening)
    requires k < |Entries(w, t)|
    ensures var o := OutcomeAt(w, t, k);
            TailFrom(w, t, k)[h] ==
            (if o.child.Some? then Walk(w, o.child.value)[h] else 0) + ScanBag(o)[h] + TailFrom(w, t, k + 1)[h]
  {
    TailStep(w, t, k);
    hide *;
  }

  lemma TailClosed(w: World, t: Task)
    requires !CanOpen(w, t)
    ensures TailFrom(w, t, 0) == multiset{}
  {
  }

  /** What opening a directory leaves owed. */
  lemma OwedOpening(w: World, t: Task, h: Happening)
    ensures Owed(w, Opening(t))[h] == multiset{Visited(t)}[h] + TailFrom(w, t, 0)[h]
    ensures Owed(w, if CanOpen(w, t) then Scanning(t, 0) else Failing(t))[h] == TailFrom(w, t, 0)[h]
  {
    hide Walk, WalkFrom, Examine, CanOpen, TailFrom;
    WalkHeadAt(w, t, h);
    if !CanOpen(w, t) {
      TailClosed(w, t);
    }
  }

  lemma LogAppend(log: seq<Happening>, x: Happening, h: Happening)
    ensures multiset(log + [x])[h] == multiset(log)[h] + multiset{x}[h]
  {
    assert multiset(log + [x]) == multiset(log) + multiset{x};
  }

  lemma BalanceOpen(w: World, s: State, i: nat, h: Happening)
    requires FinderCanAct(s, i) && s.pcs[i].Opening?
    ensures Ledger(w, FinderAct(w, s, i), FinderAct(w, s, i).pcs[i], h) == Ledger(w, s, s.pcs[i], h)
  {
    hide Walk, WalkFrom, Examine, Queued, FinderAct, Owed, TailFrom, CanOpen;
    OpenDid(w, s, i);
    var t := s.pcs[i].task;
    OwedOpening(w, t, h);
    LogAppend(s.log, Visited(t), h);
  }

  lemma EntryDid(w: World, s: State, i: nat)
    requires FinderCanAct(s, i) && s.pcs[i].Scanning? && s.pcs[i].k <= |Entries(w, s.pcs[i].task)|
    ensures var t, k := s.pcs[i].task, s.pcs[i].k;
            var o := OutcomeAt(w, t, k);
            Did(FinderAct(w, s, i), i, s.queue,
                if k == |Entries(w, t)| then AtLock else AfterExamine(t, k, o), s.log)
  {
  }

  lemma OwedSubmitting(w: World, t: Task, k: nat, c: Task, h: Happening)
    ensures Owed(w, Submitting(t, k, c))[h] ==
            Walk(w, c)[h] + ScanBag(OutcomeAt(w, t, k))[h] + TailFrom(w, t, k + 1)[h]
  {
    hide Walk, WalkFrom, Examine, OutcomeAt, TailFrom, ScanBag;
  }

  lemma OwedReporting(w: World, t: Task, k: nat, h: Happening)
    ensures Owed(w, Reporting(t, k))[h] == ScanBag(OutcomeAt(w, t, k))[h] + TailFrom(w, t, k + 1)[h]
  {
    hide Walk, WalkFrom, Examine, OutcomeAt, TailFrom, ScanBag;
  }

  lemma EntryOwes(w: World, t: Task, k: nat, h: Happening)
    requires k < |Entries(w, t)|
    ensures Owed(w, AfterExamine(t, k, OutcomeAt(w, t, k)))[h] == TailFrom(w, t, k)[h]
  {
    var o := OutcomeAt(w, t, k);
    assert o.scan.None? ==> ScanBag(o) == multiset{};
    assert Owed(w, Scanning(t, k + 1)) == TailFrom(w, t, k + 1);
    hide Walk, WalkFrom, Examine, OutcomeAt, TailFrom, Owed, ScanBag;
    TailStepAt(w, t, k, h);
    if o.child.Some? {
      OwedSubmitting(w, t, k, o.child.value, h);
    } else if o.scan.Some? {
      OwedReporting(w, t, k, h);
    }
  }

  lemma BalanceEntry(w: World, s: State, i: nat, h: Happening)
    requires FinderCanAct(s, i) && s.pcs[i].Scanning? && s.pcs[i].k <= |Entries(w, s.pcs[i].task)|
    ensures Ledger(w, FinderAct(w, s, i), FinderAct(w, s, i).pcs[i], h) == Ledger(w, s, s.pcs[i], h)
  {
    hide Walk, WalkFrom, Examine, Queued, FinderAct, AfterExamine, OutcomeAt;
    EntryDid(w, s, i);
    var t, k := s.pcs[i].task, s.pcs[i].k;
    if k == |Entries(w, t)| {
      TailStep(w, t, k);
    } else {
      EntryOwes(w, t, k, h);
    }
  }

  lemma EnqueueDid(w: World, s: State, i: nat)
    requires FinderCanAct(s, i) && s.pcs[i].Linking?
    ensures var pc := s.pcs[i];
            Did(FinderAct(w, s, i), i, s.queue + [pc.child], Signalling(pc.task, pc.k), s.log)
  {
  }

  lemma OwedLinking(w: World, t: Task, k: nat, c: Task, h: Happening)
    ensures Owed(w, Linking(t, k, c))[h] == Walk(w, c)[h] + Owed(w, Signalling(t, k))[h]
  {
    hide Walk, WalkFrom, Examine, OutcomeAt, TailFrom, ScanBag;
  }

  lemma BalanceEnqueue(w: World, s: State, i: nat, h: Happening)
    requires FinderCanAct(s, i) && s.pcs[i].Linking?
    ensures Ledger(w, FinderAct(w, s, i), FinderAct(w, s, i).pcs[i], h) == Ledger(w, s, s.pcs[i], h)
  {
    hide Walk, WalkFrom, Examine, Queued, FinderAct, Owed;
    EnqueueDid(w, s, i);
    var pc := s.pcs[i];
    OwedLinking(w, pc.task, pc.k, pc.child, h);
    QueuedAppend(w, s.queue, pc.child, h);
  }

  lemma ReportDid(w: World, s: State, i: nat)
    requires FinderCanAct(s, i) && s.pcs[i].Reporting?
    ensures var pc := s.pcs[i];
            var o := OutcomeAt(w, pc.task, pc.k);
            var log := if o.scan.Some? then s.log + [o.scan.value] else s.log;
            Did(FinderAct(w, s, i), i, s.queue, Scanning(pc.task, pc.k + 1), log)
  {
  }

  lemma BalanceReport(w: World, s: State, i: nat, h: Happening)
    requires FinderCanAct(s, i) && s.pcs[i].Reporting?
    ensures Ledger(w, FinderAct(w, s, i), FinderAct(w, s, i).pcs[i], h) == Ledger(w, s, s.pcs[i], h)
  {
    hide Walk, WalkFrom, Examine, Queued, FinderAct;
    ReportDid(w, s, i);
  }

  ghost predicate Quiet(pc: Pc) {
    !pc.Testing? && !pc.Opening? && !pc.Scanning? && !pc.Linking? && !pc.Reporting?
  }

  /** The control flow of a finder, without what it does to the shared state. */
  ghost predicate GoesTo(w: World, pc: Pc, pc': Pc) {
    match pc
    case AtLock => pc' == Testing
    case Woken => pc' == Testing
    case Testing => pc'.Leaving? || pc'.Loaded? || pc'.Unlinked?
    case Loaded(_) => pc' == Announcing || pc' == Waiting
    case Announcing => pc' == Testing
    case Leaving => pc' == Exited
    case Unlinked(t) => pc' == Counted(t)
    case Counted(t) => pc' == Opening(t)
    case Opening(t) => pc' == if CanOpen(w, t) then Scanning(t, 0) else Failing(t)
    case Failing(_) => pc' == Rousing
    case Rousing => pc' == AtLock
    case Scanning(t, k) => pc' == if k >= |Entries(w, t)| then AtLock else AfterExamine(t, k, OutcomeAt(w, t, k))
    case Submitting(t, k, c) => pc' == Linking(t, k, c)
    case Linking(t, k, _) => pc' == Signalling(t, k)
    case Releasing(t, k) => pc' == Reporting(t, k)
    case Reporting(t, k) => pc' == Scanning(t, k + 1)
    case _ => false
  }

  lemma ActGoes(w: World, s: State, i: nat)
    requires FinderCanAct(s, i)
    ensures i < |FinderAct(w, s, i).pcs| && GoesTo(w, s.pcs[i], FinderAct(w, s, i).pcs[i])
  {
    hide OutcomeAt, CanOpen, Entries, Broadcast, AfterExamine;
    BroadcastKeeps(Goto(s, i, Testing));
    BroadcastKeeps(Goto(s, i, AtLock));
  }

  lemma QuietKeeps(w: World, s: State, i: nat)
    requires FinderCanAct(s, i) && Quiet(s.pcs[i])
    ensures FinderAct(w, s, i).queue == s.queue && FinderAct(w, s, i).log == s.log
  {
  }

  lemma QuietOwes(w: World, pc: Pc, pc': Pc)
    requires Quiet(pc) && GoesTo(w, pc, pc')
    ensures Owed(w, pc') == Owed(w, pc)
  {
    hide Walk, WalkFrom, TailFrom, ScanBag, OutcomeAt, CanOpen, Entries, AfterExamine;
    match pc
    case Submitting(t, k, c) =>
      assert pc' == Linking(t, k, c);
    case Releasing(t, k) =>
      assert pc' == Reporting(t, k);
    case _ =>
  }

  lemma QuietDid(w: World, s: State, i: nat)
    requires FinderCanAct(s, i) && Quiet(s.pcs[i])
    ensures var s' := FinderAct(w, s, i);
            s'.queue == s.queue && s'.log == s.log && i < |s'.pcs| && Owed(w, s'.pcs[i]) == Owed(w, s.pcs[i])
  {
    QuietKeeps(w, s, i);
    ActGoes(w, s, i);
    hide *;
    QuietOwes(w, s.pcs[i], FinderAct(w, s, i).pcs[i]);
  }

  /** No single step changes what is logged, queued and owed together. */
  lemma ActBalance(w: World, s: State, i: nat, h: Happening)
    requires FinderCanAct(s, i) && PcSound(w, s, s.pcs[i])
    ensures |FinderAct(w, s, i).pcs| == |s.pcs|
    ensures Ledger(w, FinderAct(w, s, i), FinderAct(w, s, i).pcs[i], h) == Ledger(w, s, s.pcs[i], h)
  {
    ActMoves(w, s, i);
    hide Walk, WalkFrom, Queued, Owed, FinderAct;
    match s.pcs[i]
    case Testing => BalanceDequeue(w, s, i, h);
    case Opening(_) => BalanceOpen(w, s, i, h);
    case Scanning(_, _) => BalanceEntry(w, s, i, h);
    case Linking(_, _, _) => BalanceEnqueue(w, s, i, h);
    case Reporting(_, _) => BalanceReport(w, s, i, h);
    case _ => QuietDid(w, s, i);
  }

  lemma ActConserved(w: World, base: Task, s: State, i: nat)
    requires PcsSound(w, s) && Conserved(w, base, s) && FinderCanAct(s, i)
    ensures Conserved(w, base, FinderAct(w, s, i))
  {
    var s' := FinderAct(w, s, i);
    ActMoves(w, s, i);
    assert PcSound(w, s, s.pcs[i]);
    hide Walk, WalkFrom, Examine, Queued, OwedAll, FinderAct;
    forall h ensures multiset(s'.log)[h] + Queued(w, s'.queue, h) + OwedAll(w, s'.pcs, h) == Walk(w, base)[h] {
      ActBalance(w, s, i, h);
      OwedChange(w, s.pcs, s'.pcs, i, h);
    }
  }

  lemma ActRouses(w: World, s: State, i: nat)
    requires Exclusive(s) && PcsSound(w, s) && ShutRouses(s) && FinderCanAct(s, i)
    ensures ShutRouses(FinderAct(w, s, i))
  {
    assert PcSound(w, s, s.pcs[i]);
    var s' := FinderAct(w, s, i);
    if s.pcs[i].Loaded? && s.pcs[i].count == 0 {
      assert s'.pcs[i].Announcing?;
    } else if s'.shutDown && AnySleeper(s') {
      assert AnySleeper(s);
      var j :| 0 <= j < |s.pcs| && s.pcs[j].Announcing?;
      assert s'.pcs[j].Announcing?;
    }
  }

  lemma ActActive(w: World, s: State, i: nat)
    requires FinderCanAct(s, i) && PcSound(w, s, s.pcs[i])
    ensures var s' := FinderAct(w, s, i);
            |s'.pcs| == |s.pcs| && s'.active == s.active - Held(s.pcs[i]) + Held(s'.pcs[i])
  {
    hide OutcomeAt, CanOpen, Entries, Begets, Broadcast;
    BroadcastKeeps(Goto(s, i, Testing));
    BroadcastKeeps(Goto(s, i, AtLock));
  }

  lemma ActInv(w: World, base: Task, s: State, i: nat)
    requires Inv(w, base, s) && FinderCanAct(s, i)
    ensures Inv(w, base, FinderAct(w, s, i))
  {
    var s' := FinderAct(w, s, i);
    hide FinderAct, Exclusive, CountExact, ShutSound, PcSound, MainSound, SomeoneUp, ShutRouses, Conserved;
    assert PcSound(w, s, s.pcs[i]);
    ActMoves(w, s, i);
    ActExclusive(w, s, i);
    ActActive(w, s, i);
    MovesCount(s, s', i);
    ActShut(w, s, i);
    forall j | 0 <= j < |s'.pcs| ensures PcSound(w, s', s'.pcs[j]) {
      if j == i {
        ActOwnPc(w, s, i);
      } else {
        ActOtherPcs(w, s, i, j);
      }
    }
    MovesMain(s, s', i);
    ActLive(w, s, i);
    ActRouses(w, s, i);
    ActConserved(w, base, s, i);
  }

  // ------------------------------------------------------------------ waking up, and main's steps

  /** A step that only wakes a sleeper, or moves a finder past its signal. */
  ghost predicate Stirs(s: State, s': State) {
    && s' == s.(pcs := s'.pcs, main := s'.main)
    && |s'.pcs| == |s.pcs|
    && (s'.main == s.main || (s.main.MWaiting? && s'.main == MWoken))
    && forall j :: 0 <= j < |s.pcs| ==>
         || s'.pcs[j] == s.pcs[j]
         || s'.pcs[j] == Wakened(s.pcs[j])
         || (s.pcs[j].Signalling? && s'.pcs[j] == Releasing(s.pcs[j].task, s.pcs[j].k))
  }

  lemma KeepsSums(w: World, base: Task, s: State, s': State)
    requires CountExact(s) && Conserved(w, base, s)
    requires |s'.pcs| == |s.pcs| && s'.queue == s.queue && s'.log == s.log && s'.active == s.active
    requires forall j :: 0 <= j < |s.pcs| ==>
               Held(s'.pcs[j]) == Held(s.pcs[j]) && Owed(w, s'.pcs[j]) == Owed(w, s.pcs[j])
    ensures CountExact(s') && Conserved(w, base, s')
  {
    hide Walk, Owed, Queued;
    if s.pcs != [] {
      HoldersChange(s.pcs, s'.pcs, 0);
      forall h ensures OwedAll(w, s'.pcs, h) == OwedAll(w, s.pcs, h) {
        OwedChange(w, s.pcs, s'.pcs, 0, h);
      }
    }
  }

  /** Program counters that change without a finder acting: woken, started, or past a signal. */
  ghost predicate Nudged(pc: Pc, pc': Pc) {
    || pc' == pc
    || pc' == Wakened(pc)
    || (pc.Unborn? && pc' == AtLock)
    || (pc.Signalling? && pc' == Releasing(pc.task, pc.k))
  }

  ghost predicate Nudges(s: State, s': State) {
    && |s'.pcs| == |s.pcs| && s'.queue == s.queue && s'.log == s.log
    && s'.active == s.active && s'.shutDown == s.shutDown
    && forall j :: 0 <= j < |s.pcs| ==> Nudged(s.pcs[j], s'.pcs[j])
  }

  lemma NudgesPcs(w: World, s: State, s': State)
    requires PcsSound(w, s) && ShutSound(s) && Nudges(s, s')
    ensures PcsSound(w, s') && ShutSound(s')
  {
    hide Examine;
    forall j | 0 <= j < |s.pcs| ensures PcSound(w, s', s'.pcs[j]) {
      assert PcSound(w, s, s.pcs[j]) && Nudged(s.pcs[j], s'.pcs[j]);
    }
    forall j | 0 <= j < |s.pcs| && s.shutDown ensures !HoldsTask(s'.pcs[j]) && !s'.pcs[j].Unlinked? {
      assert Nudged(s.pcs[j], s'.pcs[j]);
    }
  }

  lemma NudgesLive(s: State, s': State)
    requires (|s.pcs| > 0 ==> SomeoneUp(s)) && ShutRouses(s) && Nudges(s, s')
    requires s.shutDown && s'.main.MWaiting? ==> s.main.MWaiting?
    ensures (|s.pcs| > 0 ==> SomeoneUp(s')) && ShutRouses(s')
  {
    if !s.shutDown && |s.pcs| > 0 {
      var j :| 0 <= j < |s.pcs| && !Parked(s.pcs[j]);
      assert Nudged(s.pcs[j], s'.pcs[j]) && !Parked(s'.pcs[j]);
    }
    if s'.shutDown && AnySleeper(s') {
      assert AnySleeper(s) by {
        if !s'.main.MWaiting? {
          var j :| 0 <= j < |s.pcs| && s'.pcs[j].Waiting?;
          assert Nudged(s.pcs[j], s'.pcs[j]) && s.pcs[j].Waiting?;
        }
      }
      var j :| 0 <= j < |s.pcs| && s.pcs[j].Announcing?;
      assert Nudged(s.pcs[j], s'.pcs[j]) && s'.pcs[j].Announcing?;
    }
  }

  lemma NudgesSums(w: World, base: Task, s: State, s': State)
    requires CountExact(s) && Conserved(w, base, s) && Nudges(s, s')
    ensures CountExact(s') && Conserved(w, base, s')
  {
    hide Walk, WalkFrom, TailFrom, ScanBag, Queued, OwedAll, Holders;
    forall j | 0 <= j < |s.pcs| ensures Held(s'.pcs[j]) == Held(s.pcs[j]) && Owed(w, s'.pcs[j]) == Owed(w, s.pcs[j]) {
      assert Nudged(s.pcs[j], s'.pcs[j]);
    }
    KeepsSums(w, base, s, s');
  }

  lemma StirsInv(w: World, base: Task, s: State, s': State)
    requires Inv(w, base, s) && Stirs(s, s')
    ensures Inv(w, base, s')
  {
    hide PcsSound, ShutSound, SomeoneUp, ShutRouses, Conserved, CountExact;
    assert Nudges(s, s');
    NudgesPcs(w, s, s');
    NudgesLive(s, s');
    NudgesSums(w, base, s, s');
  }

  lemma MainShape(s: State)
    requires Exclusive(s) && MainSound(s) && MainCanAct(s)
    requires forall j :: 0 <= j < |s.pcs| && s.pcs[j].Exited? ==> s.shutDown
    ensures Exclusive(MainStep(s)) && MainSound(MainStep(s)) && Nudges(s, MainStep(s))
    ensures s.shutDown && MainStep(s).main.MWaiting? ==> s.main.MWaiting?
  {
  }

  lemma MainInv(w: World, base: Task, s: State)
    requires Inv(w, base, s) && MainCanAct(s)
    ensures Inv(w, base, MainStep(s))
  {
    forall j | 0 <= j < |s.pcs| && s.pcs[j].Exited? ensures s.shutDown {
      assert PcSound(w, s, s.pcs[j]);
    }
    hide PcsSound, ShutSound, SomeoneUp, ShutRouses, Conserved, CountExact, Exclusive, MainSound, MainStep;
    MainShape(s);
    NudgesPcs(w, s, MainStep(s));
    NudgesLive(s, MainStep(s));
    NudgesSums(w, base, s, MainStep(s));
  }

  /** The invariant survives every step of every thread. */
  lemma StepInv(w: World, base: Task, s: State, step: Step)
    requires Inv(w, base, s) && Enabled(s, step)
    ensures Inv(w, base, Apply(w, s, step))
  {
    hide Inv, FinderAct, MainStep;
    match step
    case Act(i) => ActInv(w, base, s, i);
    case MainAct => MainInv(w, base, s);
    case _ =>
      assert Stirs(s, Apply(w, s, step));
      StirsInv(w, base, s, Apply(w, s, step));
  }
}
