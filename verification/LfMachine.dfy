/** The walker's threads as a transition system. A step is the shortest stretch that other threads
    can observe: one access to shared data, one lock operation, one condition-variable operation. */
module LfMachine {
  import opened Helpers
  import opened LfWorld

  /** Where a finder thread is. The comments say what it does next. */
  datatype Pc =
    | Unborn                            // pthread_create has not run yet
    | AtLock                            // lock queue_mutex on entry to dequeue_dir
    | Testing                           // owns the mutex: evaluate the loop condition
    | Loaded(count: int)                // owns the mutex: compare the loaded active_tasks with 0
    | Waiting                           // asleep on cond_var, mutex released
    | Woken                             // woken: take the mutex again
    | Announcing                        // owns the mutex, shut_down just set: broadcast
    | Leaving                           // owns the mutex: unlock and return NULL
    | Unlinked(task: Task)              // owns the mutex, head removed: raise active_tasks
    | Counted(task: Task)               // owns the mutex: unlock and return the task
    | Opening(task: Task)               // openat and fdopendir
    | Failing(task: Task)               // open failed: lower active_tasks
    | Rousing                           // active_tasks lowered without the mutex: broadcast
    | Scanning(task: Task, k: nat)      // readdir entry k, or lower active_tasks at the end
    | Submitting(task: Task, k: nat, child: Task)  // lock queue_mutex in enqueue_dir
    | Linking(task: Task, k: nat, child: Task)     // owns the mutex: append the child
    | Signalling(task: Task, k: nat)    // owns the mutex: signal
    | Releasing(task: Task, k: nat)     // owns the mutex: unlock
    | Reporting(task: Task, k: nat)     // hidden-only test and scan_file
    | Exited                            // finder returned

  /** Where init_find is, from the first pthread_create on. */
  datatype MainPc =
    | MSpawning(next: nat)
    | MAtLock
    | MTesting
    | MWaiting
    | MWoken
    | MUnlocking
    | MJoining(next: nat)
    | MDone

  datatype Owner = Free | Finder(id: nat) | Main

  datatype State = State(
    queue: seq<Task>,
    active: int,
    shutDown: bool,
    owner: Owner,
    pcs: seq<Pc>,
    main: MainPc,
    log: seq<Happening>)

  /** Whom a pthread_cond_signal wakes. */
  datatype Wakee = Nobody | Thread(id: nat) | TheMain

  datatype Step =
    | Act(i: nat)                 // finder i takes its next step
    | Signal(i: nat, who: Wakee)  // finder i signals and `who` is woken
    | MainAct
    | Spurious(i: nat)            // finder i wakes up for no reason
    | SpuriousMain

  function Start(base: Task, n: nat): State {
    State([base], 0, false, Free, seq(n, _ => Unborn), MSpawning(0), [])
  }

  function OutcomeAt(w: World, t: Task, k: nat): Outcome {
    if k < |Entries(w, t)| then Examine(w, t, Entries(w, t)[k]) else NOTHING
  }

  function Wakened(pc: Pc): Pc {
    if pc.Waiting? then Woken else pc
  }

  function Broadcast(s: State): State {
    s.(pcs := seq(|s.pcs|, j requires 0 <= j < |s.pcs| => Wakened(s.pcs[j])),
       main := if s.main.MWaiting? then MWoken else s.main)
  }

  function Goto(s: State, i: nat, pc: Pc): State
    requires i < |s.pcs|
  {
    s.(pcs := s.pcs[i := pc])
  }

  /** Where a finder goes once it has examined entry k. */
  function AfterExamine(t: Task, k: nat, o: Outcome): Pc {
    if o.child.Some? then Submitting(t, k, o.child.value)
    else if o.scan.Some? then Reporting(t, k)
    else Scanning(t, k + 1)
  }

  predicate Asleep(s: State, i: nat) {
    i < |s.pcs| && s.pcs[i].Waiting?
  }

  predicate FinderCanAct(s: State, i: nat) {
    && i < |s.pcs|
    && match s.pcs[i]
       case Unborn => false
       case Waiting => false
       case Exited => false
       case Signalling(_, _) => false
       case AtLock => s.owner.Free?
       case Woken => s.owner.Free?
       case Submitting(_, _, _) => s.owner.Free?
       case _ => true
  }

  function FinderAct(w: World, s: State, i: nat): State
    requires FinderCanAct(s, i)
  {
    match s.pcs[i]
    case AtLock => Goto(s, i, Testing).(owner := Finder(i))
    case Woken => Goto(s, i, Testing).(owner := Finder(i))
    case Testing =>
      if s.queue == [] then
        Goto(s, i, if s.shutDown then Leaving else Loaded(s.active))
      else
        Goto(s, i, Unlinked(s.queue[0])).(queue := s.queue[1..])
    case Loaded(count) =>
      if count == 0 then Goto(s, i, Announcing).(shutDown := true)
      else Goto(s, i, Waiting).(owner := Free)
    case Announcing => Broadcast(Goto(s, i, Testing))
    case Leaving => Goto(s, i, Exited).(owner := Free)
    case Unlinked(t) => Goto(s, i, Counted(t)).(active := s.active + 1)
    case Counted(t) => Goto(s, i, Opening(t)).(owner := Free)
    case Opening(t) =>
      Goto(s, i, if CanOpen(w, t) then Scanning(t, 0) else Failing(t)).(log := s.log + [Visited(t)])
    case Failing(_) => Goto(s, i, Rousing).(active := s.active - 1)
    case Rousing => Broadcast(Goto(s, i, AtLock))
    case Scanning(t, k) =>
      if k >= |Entries(w, t)| then
        Goto(s, i, AtLock).(active := s.active - 1)
      else
        Goto(s, i, AfterExamine(t, k, OutcomeAt(w, t, k)))
    case Submitting(t, k, c) => Goto(s, i, Linking(t, k, c)).(owner := Finder(i))
    case Linking(t, k, c) => Goto(s, i, Signalling(t, k)).(queue := s.queue + [c])
    case Releasing(t, k) => Goto(s, i, Reporting(t, k)).(owner := Free)
    case Reporting(t, k) =>
      var o := OutcomeAt(w, t, k);
      Goto(s, i, Scanning(t, k + 1)).(log := if o.scan.Some? then s.log + [o.scan.value] else s.log)
  }

  /** A signal wakes some sleeper, any sleeper, and nobody only when no one sleeps. */
  predicate CanWake(s: State, who: Wakee) {
    match who
    case Nobody => !s.main.MWaiting? && forall j :: 0 <= j < |s.pcs| ==> !s.pcs[j].Waiting?
    case Thread(j) => Asleep(s, j)
    case TheMain => s.main.MWaiting?
  }

  function Wake(s: State, who: Wakee): State
    requires CanWake(s, who)
  {
    match who
    case Nobody => s
    case Thread(j) => Goto(s, j, Woken)
    case TheMain => s.(main := MWoken)
  }

  predicate MainCanAct(s: State) {
    match s.main
    case MAtLock => s.owner.Free?
    case MWoken => s.owner.Free?
    case MWaiting => false
    case MJoining(k) => k < |s.pcs| ==> s.pcs[k].Exited?
    case MDone => false
    case _ => true
  }

  function MainStep(s: State): State
    requires MainCanAct(s)
  {
    match s.main
    case MSpawning(k) =>
      if k < |s.pcs| then Goto(s, k, AtLock).(main := MSpawning(k + 1)) else s.(main := MAtLock)
    case MAtLock => s.(owner := Main, main := MTesting)
    case MWoken => s.(owner := Main, main := MTesting)
    case MTesting => if s.shutDown then s.(main := MUnlocking) else s.(owner := Free, main := MWaiting)
    case MUnlocking => s.(owner := Free, main := MJoining(0))
    case MJoining(k) => s.(main := if k < |s.pcs| then MJoining(k + 1) else MDone)
  }

  predicate Enabled(s: State, step: Step) {
    match step
    case Act(i) => FinderCanAct(s, i)
    case Signal(i, who) => i < |s.pcs| && s.pcs[i].Signalling? && CanWake(s, who)
    case MainAct => MainCanAct(s)
    case Spurious(i) => Asleep(s, i)
    case SpuriousMain => s.main.MWaiting?
  }

  function Apply(w: World, s: State, step: Step): State
    requires Enabled(s, step)
  {
    match step
    case Act(i) => FinderAct(w, s, i)
    case Signal(i, who) =>
      var pc := s.pcs[i];
      Goto(Wake(s, who), i, Releasing(pc.task, pc.k))
    case MainAct => MainStep(s)
    case Spurious(i) => Goto(s, i, Woken)
    case SpuriousMain => s.(main := MWoken)
  }

  /** A run of `n` finder threads from `base`: any interleaving of enabled steps. */
  ghost predicate Run(w: World, base: Task, n: nat, states: seq<State>, steps: seq<Step>) {
    && |states| == |steps| + 1
    && states[0] == Start(base, n)
    && forall j :: 0 <= j < |steps| ==>
         Enabled(states[j], steps[j]) && states[j + 1] == Apply(w, states[j], steps[j])
  }

  /** Nothing is left to run: main has joined every finder. */
  predicate Final(s: State) {
    s.main.MDone? && forall j :: 0 <= j < |s.pcs| ==> s.pcs[j].Exited?
  }
}
