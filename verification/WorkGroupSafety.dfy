/** What every reachable state of the pool satisfies: mutual exclusion, the recorded index, wakeups, joins. */
module WorkGroupSafety {
  import opened Results
  import opened WorkGroup

  // ---------- program counters ----------

  /** Inside `handle_stream`. */
  predicate Serving(pc: Pc) {
    pc.Reading? || pc.Handling? || pc.Writing?
  }

  predicate OnTheWayOut(pc: Pc) {
    pc.DropLocking? || pc.DropLocked? || pc.DropUnlocking? || pc.DropNotifying? || pc.DropCaptures? || pc.Exited?
  }

  predicate HoldsMutex(pc: Pc) {
    pc.CheckLocked? || pc.DropLocked? || pc.DropUnlocking?
  }

  predicate MainHoldsMutex(main: MainPc) {
    main.Deciding? || main.Joining? || main.Returning? || main.IndexPanic?
  }

  /** The thread has stored its index, or found one stored. */
  predicate HasRecorded(pc: Pc) {
    pc.DropUnlocking? || PastMutex(pc)
  }

  /** The thread is done with the mutex for good. */
  predicate PastMutex(pc: Pc) {
    pc.DropNotifying? || pc.DropCaptures? || pc.Exited?
  }

  predicate AfterJoin(main: MainPc) {
    main.Returning? || main.Draining? || main.Finished? || main.Resumed?
  }

  // ---------- the invariants ----------

  ghost predicate Roles(s: State) {
    && (forall i :: 0 <= i < s.workers ==>
          var pc := s.threads[i]; pc.NotSpawned? || pc.Receiving? || Serving(pc) || OnTheWayOut(pc))
    && !AcceptorPc(s).Receiving? && !Serving(AcceptorPc(s))
    && (OnTheWayOut(AcceptorPc(s)) ==> AcceptorPc(s).outcome.Completed?)
  }

  ghost predicate Handles(s: State) {
    && !s.main.IndexPanic?
    && (s.main.Spawning? ==> s.handles == Ids(|s.handles|) && |s.handles| <= |s.threads|)
    && (forall i :: 0 <= i < |s.threads| ==> (s.threads[i].NotSpawned? <==> s.main.Spawning? && i >= |s.handles|))
    && (s.main.Locking? || s.main.Deciding? || s.main.Waiting? ==> s.handles == Ids(|s.threads|))
    && (s.main.Joining? || AfterJoin(s.main) ==>
          && s.recorded.Some? && s.recorded.value < |s.threads|
          && s.handles == RemoveAt(Ids(|s.threads|), s.recorded.value))
  }

  ghost predicate Mutex(s: State) {
    && (s.owner.Thread? ==> s.owner.id < |s.threads|)
    && (s.owner.MainThread? <==> MainHoldsMutex(s.main))
    && (forall i :: 0 <= i < |s.threads| ==> (HoldsMutex(s.threads[i]) <==> s.owner == Thread(i)))
  }

  ghost predicate Recorded(s: State) {
    && s.recorded == (if s.exits == [] then None else Some(s.exits[0]))
    && (forall i :: i in s.exits ==> i < |s.threads|)
    && (forall i :: 0 <= i < |s.threads| ==> (HasRecorded(s.threads[i]) <==> i in s.exits))
  }

  /** The program counter of the recorded thread. */
  function FirstPc(s: State): Pc {
    if s.recorded.Some? && s.recorded.value < |s.threads| then s.threads[s.recorded.value] else NotSpawned
  }

  ghost predicate Wakeup(s: State) {
    s.main.Waiting? && s.recorded.Some? ==> FirstPc(s).DropUnlocking? || FirstPc(s).DropNotifying?
  }

  /** The first `count` remaining handles belong to threads that have ended. */
  ghost predicate Joined(s: State, count: nat) {
    count <= |s.handles| &&
    forall j :: 0 <= j < count ==> s.handles[j] < |s.threads| && s.threads[s.handles[j]].Exited?
  }

  ghost predicate Joins(s: State) {
    match s.main
    case Joining(r) => s.recorded == Some(r) && PastMutex(FirstPc(s))
    case Returning(o) => FirstPc(s) == Exited(o)
    case Resumed => FirstPc(s) == Exited(Panicked)
    case Draining(next) => FirstPc(s) == Exited(Completed) && Joined(s, next)
    case Finished => FirstPc(s) == Exited(Completed) && Joined(s, |s.handles|)
    case _ => true
  }

  ghost predicate Channel(s: State) {
    && (s.txAlive <==> !OnTheWayOut(AcceptorPc(s)))
    && (forall i :: 0 <= i < s.workers && OnTheWayOut(s.threads[i]) && s.threads[i].outcome.Completed? ==> !s.txAlive)
    && |s.rxLive| == s.workers
    && (forall i :: 0 <= i < s.workers ==> (s.rxLive[i] <==> !s.threads[i].Exited?))
  }

  ghost predicate Inv(s: State) {
    Roles(s) && Handles(s) && Mutex(s) && Recorded(s) && Wakeup(s) && Joins(s) && Channel(s)
  }

  // ---------- each step keeps them ----------

  lemma MainKeeps(s: State, m: MainStep)
    requires Inv(s) && MainEnabled(s, m)
    ensures Inv(ApplyMain(s, m))
  {
    MainKeepsHandles(s, m);
    MainKeepsMutex(s, m);
    MainKeepsRecord(s, m);
    MainKeepsJoins(s, m);
    MainKeepsChannel(s, m);
  }

  lemma MainKeepsHandles(s: State, m: MainStep)
    requires Handles(s) && Recorded(s) && MainEnabled(s, m)
    ensures Handles(ApplyMain(s, m))
  {
    assert s.exits != [] ==> s.exits[0] in s.exits;
  }

  lemma MainKeepsMutex(s: State, m: MainStep)
    requires Handles(s) && Mutex(s) && MainEnabled(s, m)
    ensures Mutex(ApplyMain(s, m))
  {
    if !m.Spawn? {
      assert ApplyMain(s, m).threads == s.threads;
    }
  }

  lemma MainKeepsRecord(s: State, m: MainStep)
    requires Handles(s) && Recorded(s) && MainEnabled(s, m)
    ensures Recorded(ApplyMain(s, m))
  {
  }

  /** `run` takes the recorded thread's handle while holding the mutex, so that thread is past it. */
  lemma DecideKeepsJoins(s: State)
    requires Handles(s) && Mutex(s) && Recorded(s) && MainEnabled(s, Decide)
    ensures Wakeup(ApplyMain(s, Decide)) && Joins(ApplyMain(s, Decide))
  {
    if s.recorded.Some? {
      assert s.exits[0] in s.exits;
      assert !HoldsMutex(FirstPc(s));
    }
  }

  lemma MainKeepsJoins(s: State, m: MainStep)
    requires Handles(s) && Mutex(s) && Recorded(s) && Wakeup(s) && Joins(s) && MainEnabled(s, m)
    ensures Wakeup(ApplyMain(s, m)) && Joins(ApplyMain(s, m))
  {
    if m.Decide? {
      DecideKeepsJoins(s);
    } else if !m.Spawn? {
      assert ApplyMain(s, m).threads == s.threads;
    }
  }

  lemma MainKeepsChannel(s: State, m: MainStep)
    requires Handles(s) && Roles(s) && Channel(s) && MainEnabled(s, m)
    ensures Roles(ApplyMain(s, m)) && Channel(ApplyMain(s, m))
  {
  }

  lemma WorkerKeeps(s: State, i: nat, w: WorkerStep)
    requires Inv(s) && WorkerEnabled(s, i, w)
    ensures Inv(ApplyWorker(s, i, w))
  {
    WorkerKeepsHandles(s, i, w);
    WorkerKeepsMutex(s, i, w);
    WorkerKeepsRecord(s, i, w);
    WorkerKeepsJoins(s, i, w);
    WorkerKeepsChannel(s, i, w);
  }

  lemma WorkerKeepsHandles(s: State, i: nat, w: WorkerStep)
    requires Handles(s) && WorkerEnabled(s, i, w)
    ensures Handles(ApplyWorker(s, i, w))
  {
  }

  lemma WorkerKeepsMutex(s: State, i: nat, w: WorkerStep)
    requires Mutex(s) && WorkerEnabled(s, i, w)
    ensures Mutex(ApplyWorker(s, i, w))
  {
  }

  lemma WorkerKeepsRecord(s: State, i: nat, w: WorkerStep)
    requires Recorded(s) && WorkerEnabled(s, i, w)
    ensures Recorded(ApplyWorker(s, i, w))
  {
  }

  lemma WorkerKeepsJoins(s: State, i: nat, w: WorkerStep)
    requires Wakeup(s) && Joins(s) && WorkerEnabled(s, i, w)
    ensures Wakeup(ApplyWorker(s, i, w)) && Joins(ApplyWorker(s, i, w))
  {
  }

  lemma WorkerKeepsChannel(s: State, i: nat, w: WorkerStep)
    requires Roles(s) && Channel(s) && WorkerEnabled(s, i, w)
    ensures Roles(ApplyWorker(s, i, w)) && Channel(ApplyWorker(s, i, w))
  {
  }

  lemma AcceptorKeeps(s: State, c: AcceptorStep)
    requires Inv(s) && AcceptorEnabled(s, c)
    ensures Inv(ApplyAcceptor(s, c))
  {
    AcceptorKeepsHandles(s, c);
    AcceptorKeepsMutex(s, c);
    AcceptorKeepsRecord(s, c);
    AcceptorKeepsJoins(s, c);
    AcceptorKeepsChannel(s, c);
  }

  lemma AcceptorKeepsHandles(s: State, c: AcceptorStep)
    requires Handles(s) && AcceptorEnabled(s, c)
    ensures Handles(ApplyAcceptor(s, c))
  {
  }

  lemma AcceptorKeepsMutex(s: State, c: AcceptorStep)
    requires Mutex(s) && AcceptorEnabled(s, c)
    ensures Mutex(ApplyAcceptor(s, c))
  {
  }

  lemma AcceptorKeepsRecord(s: State, c: AcceptorStep)
    requires Recorded(s) && AcceptorEnabled(s, c)
    ensures Recorded(ApplyAcceptor(s, c))
  {
  }

  lemma AcceptorKeepsJoins(s: State, c: AcceptorStep)
    requires Wakeup(s) && Joins(s) && AcceptorEnabled(s, c)
    ensures Wakeup(ApplyAcceptor(s, c)) && Joins(ApplyAcceptor(s, c))
  {
  }

  lemma AcceptorKeepsChannel(s: State, c: AcceptorStep)
    requires Roles(s) && Channel(s) && AcceptorEnabled(s, c)
    ensures Roles(ApplyAcceptor(s, c)) && Channel(ApplyAcceptor(s, c))
  {
  }

  lemma ExitKeeps(s: State, i: nat, x: ExitStep)
    requires Inv(s) && ExitEnabled(s, i, x)
    ensures Inv(ApplyExit(s, i, x))
  {
    ExitKeepsHandles(s, i, x);
    ExitKeepsRecord(s, i, x);
    ExitKeepsJoins(s, i, x);
    ExitKeepsChannel(s, i, x);
  }

  lemma ExitKeepsHandles(s: State, i: nat, x: ExitStep)
    requires Handles(s) && ExitEnabled(s, i, x)
    ensures Handles(ApplyExit(s, i, x))
  {
  }

  lemma ExitKeepsRecord(s: State, i: nat, x: ExitStep)
    requires Mutex(s) && Recorded(s) && ExitEnabled(s, i, x)
    ensures Mutex(ApplyExit(s, i, x)) && Recorded(ApplyExit(s, i, x))
  {
  }

  lemma ExitKeepsJoins(s: State, i: nat, x: ExitStep)
    requires Mutex(s) && Recorded(s) && Wakeup(s) && Joins(s) && ExitEnabled(s, i, x)
    ensures Wakeup(ApplyExit(s, i, x)) && Joins(ApplyExit(s, i, x))
  {
  }

  lemma ExitKeepsChannel(s: State, i: nat, x: ExitStep)
    requires Roles(s) && Channel(s) && ExitEnabled(s, i, x)
    ensures Roles(ApplyExit(s, i, x)) && Channel(ApplyExit(s, i, x))
  {
  }

  lemma StepKeepsInv(s: State, a: Action)
    requires Inv(s) && Enabled(s, a)
    ensures Inv(Apply(s, a))
  {
    match a
    case OfMain(m) => MainKeeps(s, m);
    case OfWorker(i, w) => WorkerKeeps(s, i, w);
    case OfAcceptor(c) => AcceptorKeeps(s, c);
    case OfExit(i, x) => ExitKeeps(s, i, x);
  }

  lemma {:induction false} RunKeepsInv(s: State, actions: seq<Action>)
    requires Inv(s) && IsRun(s, actions)
    ensures Inv(After(s, actions))
    decreases |actions|
  {
    if actions != [] {
      StepKeepsInv(s, actions[0]);
      RunKeepsInv(Apply(s, actions[0]), actions[1..]);
    }
  }

  lemma InitInv(workers: nat)
    ensures Inv(Init(workers))
  {
  }

  lemma ReachableInv(s: State)
    requires Reachable(s)
    ensures Inv(s)
  {
    var actions :| IsRun(Init(s.workers), actions) && After(Init(s.workers), actions) == s;
    InitInv(s.workers);
    RunKeepsInv(Init(s.workers), actions);
  }
}
