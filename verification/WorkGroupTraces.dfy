/**
 Every thread's steps, in any run, come in the order of the source's statements. The
 orders are stated over the steps themselves, without program counters.
 */
module WorkGroupTraces {
  import opened Results
  import opened WorkGroup
  import opened WorkGroupSafety

  // ---------- the steps of one thread of the group ----------

  datatype ThreadStep =
    | Worker(worker: WorkerStep)
    | Acceptor(acceptor: AcceptorStep)
    | HandedOver
    | Exit(exit: ExitStep)

  /** What thread i does in an action, if anything; a handoff is a step of the acceptor too. */
  function StepOf(a: Action, i: nat, workers: nat): Option<ThreadStep> {
    match a
    case OfWorker(j, w) =>
      if j == i then Some(Worker(w)) else if i == workers && w.Receive? then Some(HandedOver) else None
    case OfAcceptor(c) => if i == workers then Some(Acceptor(c)) else None
    case OfExit(j, x) => if j == i then Some(Exit(x)) else None
    case OfMain(_) => None
  }

  /** The first statement of each closure. */
  predicate Starts(q: ThreadStep, isAcceptor: bool) {
    if isAcceptor then q.Acceptor? && q.acceptor.Accept?
    else q == Worker(Receive) || q == Worker(ReceiveDisconnected)
  }

  /** The order of the statements: `handle_stream` in the receive loop, the accept loop, and the way out. */
  predicate Follows(p: ThreadStep, q: ThreadStep) {
    match p
    case Worker(Receive) => q == Worker(ReadReturns)
    case Worker(ReadReturns) => q == Worker(GiveUp) || q == Worker(Answer) || q == Worker(Panic)
    case Worker(Answer) => q == Worker(WriteReturns)
    case Worker(GiveUp) => q == Worker(Receive) || q == Worker(ReceiveDisconnected)
    case Worker(WriteReturns) => q == Worker(Receive) || q == Worker(ReceiveDisconnected)
    case Worker(Panic) => q == Exit(LockSlot)
    case Worker(ReceiveDisconnected) => q == Exit(LockSlot)
    case Acceptor(Accept(_)) => q == Acceptor(CheckLock)
    case Acceptor(CheckLock) => q == Acceptor(CheckRead)
    case Acceptor(CheckRead) =>
      q == HandedOver || q == Acceptor(SendTimeout) || q == Acceptor(SendDisconnected) || q == Acceptor(DropTx)
    case HandedOver => q.Acceptor? && q.acceptor.Accept?
    case Acceptor(SendTimeout) => q == Acceptor(DropTx)
    case Acceptor(SendDisconnected) => q == Acceptor(DropTx)
    case Acceptor(DropTx) => q == Exit(LockSlot)
    case Exit(LockSlot) => q == Exit(InsertSlot)
    case Exit(InsertSlot) => q == Exit(UnlockSlot)
    case Exit(UnlockSlot) => q == Exit(NotifyAll)
    case Exit(NotifyAll) => q == Exit(ReleaseCaptures)
    case Exit(ReleaseCaptures) => false
  }

  // ---------- where a step leads, and which steps are possible there ----------

  predicate Leads(p: ThreadStep, pc: Pc) {
    match p
    case Worker(Receive) => pc.Reading?
    case Worker(ReadReturns) => pc.Handling?
    case Worker(Answer) => pc.Writing?
    case Worker(GiveUp) => pc.Receiving?
    case Worker(WriteReturns) => pc.Receiving?
    case Worker(Panic) => pc.DropLocking?
    case Worker(ReceiveDisconnected) => pc.DropLocking?
    case Acceptor(Accept(_)) => pc.CheckLocking?
    case Acceptor(CheckLock) => pc.CheckLocked?
    case Acceptor(CheckRead) => pc.Sending? || pc.LeavingLoop?
    case HandedOver => pc.Accepting?
    case Acceptor(SendTimeout) => pc.LeavingLoop?
    case Acceptor(SendDisconnected) => pc.LeavingLoop?
    case Acceptor(DropTx) => pc.DropLocking?
    case Exit(LockSlot) => pc.DropLocked?
    case Exit(InsertSlot) => pc.DropUnlocking?
    case Exit(UnlockSlot) => pc.DropNotifying?
    case Exit(NotifyAll) => pc.DropCaptures?
    case Exit(ReleaseCaptures) => pc.Exited?
  }

  predicate Ready(pc: Pc, q: ThreadStep) {
    match q
    case Worker(Receive) => pc.Receiving?
    case Worker(ReadReturns) => pc.Reading?
    case Worker(GiveUp) => pc.Handling?
    case Worker(Answer) => pc.Handling?
    case Worker(Panic) => pc.Handling?
    case Worker(WriteReturns) => pc.Writing?
    case Worker(ReceiveDisconnected) => pc.Receiving?
    case Acceptor(Accept(_)) => pc.Accepting?
    case Acceptor(CheckLock) => pc.CheckLocking?
    case Acceptor(CheckRead) => pc.CheckLocked?
    case Acceptor(SendTimeout) => pc.Sending?
    case Acceptor(SendDisconnected) => pc.Sending?
    case Acceptor(DropTx) => pc.LeavingLoop?
    case HandedOver => pc.Sending?
    case Exit(LockSlot) => pc.DropLocking?
    case Exit(InsertSlot) => pc.DropLocked?
    case Exit(UnlockSlot) => pc.DropUnlocking?
    case Exit(NotifyAll) => pc.DropNotifying?
    case Exit(ReleaseCaptures) => pc.DropCaptures?
  }

  lemma LeadsToFollowers(p: ThreadStep, pc: Pc, q: ThreadStep)
    requires Leads(p, pc) && Ready(pc, q)
    ensures Follows(p, q)
  {
  }

  lemma EnabledIsReady(s: State, b: Action, i: nat)
    requires Enabled(s, b) && StepOf(b, i, s.workers).Some?
    ensures i < |s.threads| && Ready(s.threads[i], StepOf(b, i, s.workers).value)
  {
  }

  lemma WorkerLeads(s: State, j: nat, w: WorkerStep)
    requires WorkerEnabled(s, j, w)
    ensures Leads(Worker(w), ApplyWorker(s, j, w).threads[j])
    ensures w.Receive? ==> Leads(HandedOver, ApplyWorker(s, j, w).threads[s.workers])
  {
  }

  lemma AcceptorLeads(s: State, c: AcceptorStep)
    requires AcceptorEnabled(s, c)
    ensures Leads(Acceptor(c), ApplyAcceptor(s, c).threads[s.workers])
  {
  }

  lemma ExitLeads(s: State, j: nat, x: ExitStep)
    requires ExitEnabled(s, j, x)
    ensures Leads(Exit(x), ApplyExit(s, j, x).threads[j])
  {
  }

  lemma StepLeads(s: State, a: Action, i: nat)
    requires Enabled(s, a) && StepOf(a, i, s.workers).Some?
    ensures i < |Apply(s, a).threads| && Leads(StepOf(a, i, s.workers).value, Apply(s, a).threads[i])
  {
    match a
    case OfWorker(j, w) => WorkerLeads(s, j, w);
    case OfAcceptor(c) => AcceptorLeads(s, c);
    case OfExit(j, x) => ExitLeads(s, j, x);
    case OfMain(_) =>
  }

  lemma SpawnedByMain(s: State, m: MainStep, i: nat)
    requires Handles(s) && MainEnabled(s, m) && i < |s.threads|
    ensures !s.threads[i].NotSpawned? ==> ApplyMain(s, m).threads[i] == s.threads[i]
    ensures s.threads[i].NotSpawned? ==>
      ApplyMain(s, m).threads[i] == NotSpawned || ApplyMain(s, m).threads[i] == StartOf(BodyOf(s.workers, i))
  {
    if !m.Spawn? {
      assert ApplyMain(s, m).threads == s.threads;
    }
  }

  /** A thread is not moved by what others do, except that `run` spawns it. */
  lemma NotItsStep(s: State, a: Action, i: nat)
    requires Handles(s) && Enabled(s, a) && StepOf(a, i, s.workers).None? && i < |s.threads|
    ensures !s.threads[i].NotSpawned? ==> Apply(s, a).threads[i] == s.threads[i]
    ensures s.threads[i].NotSpawned? ==>
      Apply(s, a).threads[i] == NotSpawned || Apply(s, a).threads[i] == StartOf(BodyOf(s.workers, i))
  {
    match a
    case OfMain(m) => SpawnedByMain(s, m, i);
    case OfWorker(j, w) =>
    case OfAcceptor(c) =>
    case OfExit(j, x) =>
  }

  predicate NoStepOf(actions: seq<Action>, i: nat, workers: nat) {
    forall k :: 0 <= k < |actions| ==> StepOf(actions[k], i, workers).None?
  }

  // ---------- what follows for every run ----------

  lemma RunHead(s: State, between: seq<Action>, b: Action)
    requires between != [] && IsRun(s, between + [b])
    ensures Enabled(s, between[0]) && IsRun(Apply(s, between[0]), between[1..] + [b])
  {
    assert (between + [b])[0] == between[0] && (between + [b])[1..] == between[1..] + [b];
  }

  lemma RunOne(s: State, b: Action)
    requires IsRun(s, [] + [b])
    ensures Enabled(s, b)
  {
    assert ([] + [b])[0] == b;
  }

  lemma {:induction false} NextStepOf(s: State, between: seq<Action>, b: Action, i: nat, p: ThreadStep)
    requires Inv(s) && i < |s.threads| && Leads(p, s.threads[i])
    requires IsRun(s, between + [b]) && NoStepOf(between, i, s.workers) && StepOf(b, i, s.workers).Some?
    ensures Follows(p, StepOf(b, i, s.workers).value)
    decreases |between|
  {
    if between == [] {
      RunOne(s, b);
      EnabledIsReady(s, b, i);
      LeadsToFollowers(p, s.threads[i], StepOf(b, i, s.workers).value);
    } else {
      RunHead(s, between, b);
      StepKeepsInv(s, between[0]);
      StaysLed(s, between[0], i, p);
      NextStepOf(Apply(s, between[0]), between[1..], b, i, p);
    }
  }

  lemma StaysLed(s: State, c: Action, i: nat, p: ThreadStep)
    requires Handles(s) && Enabled(s, c) && StepOf(c, i, s.workers).None?
    requires i < |s.threads| && Leads(p, s.threads[i])
    ensures Apply(s, c).workers == s.workers && Leads(p, Apply(s, c).threads[i])
  {
    NotItsStep(s, c, i);
  }

  /** Of any two successive steps of a thread, in any run, the second follows the first in the source. */
  lemma StepsInOrder(s: State, a: Action, between: seq<Action>, b: Action, i: nat)
    requires Reachable(s) && IsRun(s, [a] + between + [b])
    requires StepOf(a, i, s.workers).Some? && StepOf(b, i, s.workers).Some? && NoStepOf(between, i, s.workers)
    ensures Follows(StepOf(a, i, s.workers).value, StepOf(b, i, s.workers).value)
  {
    ReachableInv(s);
    RunHead(s, [a] + between, b);
    assert ([a] + between)[1..] == between;
    StepLeads(s, a, i);
    StepKeepsInv(s, a);
    NextStepOf(Apply(s, a), between, b, i, StepOf(a, i, s.workers).value);
  }

  predicate AtStart(s: State, i: nat) {
    i < |s.threads| && (s.threads[i].NotSpawned? || s.threads[i] == StartOf(BodyOf(s.workers, i)))
  }

  lemma StaysAtStart(s: State, c: Action, i: nat)
    requires Handles(s) && Enabled(s, c) && StepOf(c, i, s.workers).None? && AtStart(s, i)
    ensures Apply(s, c).workers == s.workers && AtStart(Apply(s, c), i)
  {
    NotItsStep(s, c, i);
  }

  lemma ReadyAtStart(s: State, b: Action, i: nat)
    requires Enabled(s, b) && AtStart(s, i) && StepOf(b, i, s.workers).Some?
    ensures Starts(StepOf(b, i, s.workers).value, i == s.workers)
  {
    EnabledIsReady(s, b, i);
  }

  lemma {:induction false} FirstStepOf(s: State, before: seq<Action>, b: Action, i: nat)
    requires Inv(s) && AtStart(s, i)
    requires IsRun(s, before + [b]) && NoStepOf(before, i, s.workers) && StepOf(b, i, s.workers).Some?
    ensures Starts(StepOf(b, i, s.workers).value, i == s.workers)
    decreases |before|
  {
    if before == [] {
      RunOne(s, b);
      ReadyAtStart(s, b, i);
    } else {
      RunHead(s, before, b);
      StepKeepsInv(s, before[0]);
      StaysAtStart(s, before[0], i);
      FirstStepOf(Apply(s, before[0]), before[1..], b, i);
    }
  }

  /** A thread's first step is its closure's first statement. */
  lemma StartsInOrder(workers: nat, before: seq<Action>, b: Action, i: nat)
    requires i <= workers && IsRun(Init(workers), before + [b])
    requires NoStepOf(before, i, workers) && StepOf(b, i, workers).Some?
    ensures Starts(StepOf(b, i, workers).value, i == workers)
  {
    InitInv(workers);
    FirstStepOf(Init(workers), before, b, i);
  }

  /** After its shutdown check the acceptor leaves the loop iff an index is recorded or the accept failed. */
  lemma AcceptorDecides(s: State)
    requires Reachable(s) && Enabled(s, OfAcceptor(CheckRead))
    ensures
      var item, t := AcceptorPc(s).item, Apply(s, OfAcceptor(CheckRead));
      AcceptorPc(t) == match item
                       case Connection(stream) => if s.recorded.Some? then LeavingLoop else Sending(stream)
                       case AcceptFailed => LeavingLoop
    ensures s.owner == Thread(s.workers)
  {
    ReachableInv(s);
  }

  // ---------- the steps of `run` and `main` ----------

  /** The order of the statements of `run`, and of `main` after it. */
  predicate MainFollows(m: MainStep, n: MainStep) {
    match m
    case Spawn => n.Spawn? || n.SpawnedAll?
    case SpawnedAll => n.Lock?
    case Lock => n.Decide?
    case Decide => n.Join? || n.SpuriousWake? || n.Lock?
    case SpuriousWake => n.Lock?
    case Join => n.Return?
    case Return => n.DrainJoin? || n.DrainDone?
    case DrainJoin => n.DrainJoin? || n.DrainDone?
    case DrainDone => false
  }

  predicate Notifies(a: Action) {
    a.OfExit? && a.exit.NotifyAll?
  }

  predicate MainLeads(m: MainStep, main: MainPc) {
    match m
    case Spawn => main.Spawning?
    case SpawnedAll => main.Locking?
    case Lock => main.Deciding?
    case Decide => main.Waiting? || main.Joining?
    case SpuriousWake => main.Locking?
    case Join => main.Returning?
    case Return => main.Draining? || main.Resumed?
    case DrainJoin => main.Draining?
    case DrainDone => main.Finished?
  }

  predicate NoMainStep(actions: seq<Action>) {
    forall k :: 0 <= k < |actions| ==> !actions[k].OfMain?
  }

  lemma MainUntouched(s: State, a: Action)
    requires Enabled(s, a) && !a.OfMain?
    ensures Apply(s, a).main == if Notifies(a) && s.main.Waiting? then Locking else s.main
  {
  }

  lemma MainStepLeads(s: State, m: MainStep)
    requires Inv(s) && MainEnabled(s, m)
    ensures MainLeads(m, ApplyMain(s, m).main)
  {
    MainKeepsHandles(s, m);
  }

  lemma MainNext(main: MainPc, m: MainStep, s: State, n: MainStep)
    requires MainLeads(m, main) && s.main == main && Enabled(s, OfMain(n))
    ensures MainFollows(m, n) && !(m.Decide? && n.Lock?)
  {
  }

  lemma {:induction false} NextMainStep(s: State, between: seq<Action>, m: MainStep, n: MainStep)
    requires MainLeads(m, s.main) || (m.Decide? && s.main.Locking?)
    requires IsRun(s, between + [OfMain(n)]) && NoMainStep(between)
    ensures MainFollows(m, n)
    ensures m.Decide? && n.Lock? && !s.main.Locking? ==> exists k :: 0 <= k < |between| && Notifies(between[k])
    decreases |between|
  {
    if between == [] {
      RunOne(s, OfMain(n));
      if MainLeads(m, s.main) {
        MainNext(s.main, m, s, n);
      }
    } else {
      RunHead(s, between, OfMain(n));
      MainUntouched(s, between[0]);
      NextMainStep(Apply(s, between[0]), between[1..], m, n);
      if k :| 0 <= k < |between[1..]| && Notifies(between[1..][k]) {
        assert Notifies(between[k + 1]);
      }
    }
  }

  /**
   Successive steps of `run` and `main` follow each other in the source. In particular,
   having found nothing recorded, `run` takes the mutex again only after a spurious
   wakeup or a notify_all that came in between.
   */
  lemma MainInOrder(s: State, m: MainStep, between: seq<Action>, n: MainStep)
    requires Reachable(s) && IsRun(s, [OfMain(m)] + between + [OfMain(n)]) && NoMainStep(between)
    ensures MainFollows(m, n)
    ensures m.Decide? && n.Lock? ==> exists k :: 0 <= k < |between| && Notifies(between[k])
  {
    ReachableInv(s);
    RunHead(s, [OfMain(m)] + between, OfMain(n));
    assert ([OfMain(m)] + between)[1..] == between;
    MainStepLeads(s, m);
    NextMainStep(Apply(s, OfMain(m)), between, m, n);
  }
}
