/**
 The thread pool: the work group of src/work_group.rs together with the worker,
 acceptor and join loops of src/main.rs, as a transition system.

 One `State` holds every thread's program counter, the mutex, the recorded first
 exiter, the rendezvous channel and histories of what happened to each stream.
 An `Action` is one atomic step of one thread, or one choice of the environment
 (a client connecting or sending, a send timing out, a spurious wakeup, a panic).
 A run is a sequence of actions, each enabled where it is taken.
 */
module WorkGroup {
  import opened Results

  type Stream = nat

  /** How a thread's closure ended, as its JoinHandle reports it. */
  datatype Outcome = Completed | Panicked

  /** What `listener.incoming()` yields. */
  datatype Incoming = Connection(stream: Stream) | AcceptFailed

  /** The closures handed to `WorkGroup::add`. */
  datatype Body = WorkerLoop | AcceptorLoop

  datatype Pc =
    | NotSpawned
      // the worker closure
    | Receiving
    | Reading(stream: Stream)
    | Handling(stream: Stream)
    | Writing(stream: Stream)
      // the acceptor closure
    | Accepting
    | CheckLocking(item: Incoming)
    | CheckLocked(item: Incoming)
    | Sending(stream: Stream)
    | LeavingLoop
      // Context::drop, then the closure's captures, then the thread's end
    | DropLocking(outcome: Outcome)
    | DropLocked(outcome: Outcome)
    | DropUnlocking(outcome: Outcome)
    | DropNotifying(outcome: Outcome)
    | DropCaptures(outcome: Outcome)
    | Exited(outcome: Outcome)

  /** The thread running `WorkGroup::run` and then the rest of `main`. */
  datatype MainPc =
    | Spawning
    | Locking
    | Deciding
    | Waiting
    | Joining(first: nat)
    | Returning(outcome: Outcome)
    | Draining(next: nat)
    | Finished
    | Resumed
    | IndexPanic

  datatype Owner = Nobody | MainThread | Thread(id: nat)

  datatype RawState = State(
    workers: nat,
    threads: seq<Pc>,
    main: MainPc,
    owner: Owner,
    recorded: Option<nat>,
    txAlive: bool,
    rxLive: seq<bool>,
    handles: seq<nat>,
    // histories
    exits: seq<nat>,
    accepted: seq<Stream>,
    handed: seq<(Stream, nat)>,
    finished: seq<(Stream, nat)>,
    answered: seq<(Stream, nat)>,
    gaveUp: seq<(Stream, nat)>,
    lost: seq<(Stream, nat)>,
    discarded: seq<Stream>)

  /** Threads 0..workers-1 are workers; the last one is the acceptor. */
  type State = s: RawState | |s.threads| == s.workers + 1
    witness State(0, [NotSpawned], Spawning, Nobody, None, true, [], [], [], [], [], [], [], [], [], [])

  /** The thread in `run` and `main`. */
  datatype MainStep =
    | Spawn
    | SpawnedAll
    | Lock
    | Decide
    | SpuriousWake
    | Join
    | Return
    | DrainJoin
    | DrainDone

  datatype WorkerStep = Receive | ReadReturns | GiveUp | Answer | WriteReturns | Panic | ReceiveDisconnected

  datatype AcceptorStep =
    | Accept(item: Incoming)
    | CheckLock
    | CheckRead
    | SendTimeout
    | SendDisconnected
    | DropTx

  /** Any thread of the group on its way out. */
  datatype ExitStep = LockSlot | InsertSlot | UnlockSlot | NotifyAll | ReleaseCaptures

  datatype Action =
    | OfMain(main: MainStep)
    | OfWorker(i: nat, worker: WorkerStep)
    | OfAcceptor(acceptor: AcceptorStep)
    | OfExit(i: nat, exit: ExitStep)

  // ---------- the imperative pieces the steps are made of ----------

  /** `Option::get_or_insert`. */
  function GetOrInsert(slot: Option<nat>, thread: nat): Option<nat> {
    if slot.Some? then slot else Some(thread)
  }

  /** `Vec::remove`. */
  function RemoveAt<T>(s: seq<T>, k: nat): seq<T>
    requires k < |s|
  {
    s[..k] + s[k + 1..]
  }

  function Ids(n: nat): seq<nat> {
    seq(n, i => i)
  }

  function BodyOf(workers: nat, thread: nat): Body {
    if thread < workers then WorkerLoop else AcceptorLoop
  }

  function Bodies(workers: nat): seq<Body> {
    seq(workers + 1, i requires 0 <= i => BodyOf(workers, i))
  }

  /** The value inside the mutex; its methods run while the mutex is held. */
  class Slot {
    var value: Option<nat>

    constructor ()
      ensures value == None
    {
      value := None;
    }

    method Record(thread: nat)
      modifies this
      ensures value == GetOrInsert(old(value), thread)
      ensures old(value).Some? ==> value == old(value)
    {
      if value.None? {
        value := Some(thread);
      }
    }

    method IsShutdown() returns (shutdown: bool)
      ensures shutdown == value.Some?
    {
      shutdown := value.Some?;
    }
  }

  class Group {
    var fs: seq<Body>

    constructor ()
      ensures fs == []
    {
      fs := [];
    }

    method Add(f: Body)
      modifies this
      ensures fs == old(fs) + [f]
    {
      fs := fs + [f];
    }

    /** The spawn loop of `run`: handle k belongs to the thread given index k. */
    method SpawnAll() returns (handles: seq<nat>, started: seq<Pc>)
      ensures handles == Ids(|fs|)
      ensures |started| == |fs| && forall k :: 0 <= k < |fs| ==> started[k] == StartOf(fs[k])
    {
      handles, started := [], [];
      for k := 0 to |fs|
        invariant handles == Ids(k)
        invariant |started| == k && forall j :: 0 <= j < k ==> started[j] == StartOf(fs[j])
      {
        var thread := |handles|;
        handles := handles + [thread];
        started := started + [StartOf(fs[k])];
      }
    }
  }

  /** `spawn_workers` followed by `spawn_acceptor`. */
  method BuildGroup(workers: nat) returns (wg: Group)
    ensures fresh(wg) && wg.fs == Bodies(workers)
  {
    wg := new Group();
    for i := 0 to workers
      invariant fresh(wg)
      invariant wg.fs == seq(i, _ => WorkerLoop)
    {
      wg.Add(WorkerLoop);
    }
    wg.Add(AcceptorLoop);
  }

  // ---------- the transition system ----------

  function StartOf(body: Body): Pc {
    match body
    case WorkerLoop => Receiving
    case AcceptorLoop => Accepting
  }

  function Init(workers: nat): State {
    State(workers, seq(workers + 1, _ => NotSpawned), Spawning, Nobody, None, true,
          seq(workers, _ => true), [], [], [], [], [], [], [], [], [])
  }

  predicate Terminal(main: MainPc) {
    main.Finished? || main.Resumed? || main.IndexPanic?
  }

  function AcceptorPc(s: State): Pc {
    s.threads[s.workers]
  }

  function At(s: State, i: nat, pc: Pc): State
    requires i < |s.threads|
  {
    s.(threads := s.threads[i := pc])
  }

  function StreamsOf(item: Incoming): seq<Stream> {
    match item
    case Connection(stream) => [stream]
    case AcceptFailed => []
  }

  predicate MainEnabled(s: State, m: MainStep) {
    match m
    case Spawn => s.main.Spawning? && |s.handles| < |s.threads|
    case SpawnedAll => s.main.Spawning? && |s.handles| >= |s.threads|
    case Lock => s.main.Locking? && s.owner.Nobody?
    case Decide => s.main.Deciding?
    case SpuriousWake => s.main.Waiting?
    case Join => s.main.Joining? && s.main.first < |s.threads| && s.threads[s.main.first].Exited?
    case Return => s.main.Returning?
    case DrainJoin =>
      && s.main.Draining? && s.main.next < |s.handles|
      && s.handles[s.main.next] < |s.threads| && s.threads[s.handles[s.main.next]].Exited?
    case DrainDone => s.main.Draining? && s.main.next >= |s.handles|
  }

  function ApplyMain(s: State, m: MainStep): State
    requires MainEnabled(s, m)
  {
    match m
    // for f in self.fs { ... handles.push(thread::spawn(...)) }
    case Spawn =>
      var k := |s.handles|;
      At(s, k, StartOf(BodyOf(s.workers, k))).(handles := s.handles + [k])
    case SpawnedAll => s.(main := Locking)
    // let mut data = mtx.lock().unwrap(), and the relock inside cond.wait
    case Lock => s.(main := Deciding, owner := MainThread)
    // while !data.is_some() { cond.wait(data) }, else handles.remove(data.unwrap())
    case Decide =>
      if s.recorded.None? then s.(main := Waiting, owner := Nobody)
      else if s.recorded.value < |s.handles| then
        s.(main := Joining(s.handles[s.recorded.value]), handles := RemoveAt(s.handles, s.recorded.value))
      else s.(main := IndexPanic)
    case SpuriousWake => s.(main := Locking)
    // .join() with the guard still held
    case Join => s.(main := Returning(s.threads[s.main.first].outcome))
    // run returns, dropping the guard; main looks at the result
    case Return =>
      s.(owner := Nobody, main := if s.main.outcome.Panicked? then Resumed else Draining(0))
    case DrainJoin => s.(main := Draining(s.main.next + 1))
    case DrainDone => s.(main := Finished)
  }

  predicate WorkerEnabled(s: State, i: nat, w: WorkerStep) {
    && i < s.workers
    && match w
       case Receive => s.threads[i].Receiving? && AcceptorPc(s).Sending?
       case ReadReturns => s.threads[i].Reading?
       case GiveUp => s.threads[i].Handling?
       case Answer => s.threads[i].Handling?
       case WriteReturns => s.threads[i].Writing?
       case Panic => s.threads[i].Handling?
       case ReceiveDisconnected => s.threads[i].Receiving? && !s.txAlive
  }

  function ApplyWorker(s: State, i: nat, w: WorkerStep): State
    requires WorkerEnabled(s, i, w)
  {
    match w
    // rx.recv() meets tx.send_timeout(): the one joint step of two threads
    case Receive =>
      var stream := AcceptorPc(s).stream;
      At(At(s, i, Reading(stream)), s.workers, Accepting).(handed := s.handed + [(stream, i)])
    // stream.read(), with data or an error, when the client sends or hangs up
    case ReadReturns => At(s, i, Handling(s.threads[i].stream))
    // parsing or handling the request was an error: handle_stream returns without a reply
    case GiveUp =>
      var entry := (s.threads[i].stream, i);
      At(s, i, Receiving).(finished := s.finished + [entry], gaveUp := s.gaveUp + [entry])
    case Answer => At(s, i, Writing(s.threads[i].stream))
    // stream.write_all(), done or failed, when the client takes the reply or hangs up
    case WriteReturns =>
      var entry := (s.threads[i].stream, i);
      At(s, i, Receiving).(finished := s.finished + [entry], answered := s.answered + [entry])
    case Panic => At(s, i, DropLocking(Panicked)).(lost := s.lost + [(s.threads[i].stream, i)])
    case ReceiveDisconnected => At(s, i, DropLocking(Completed))
  }

  predicate AcceptorEnabled(s: State, c: AcceptorStep) {
    match c
    case Accept(_) => AcceptorPc(s).Accepting?
    case CheckLock => AcceptorPc(s).CheckLocking? && s.owner.Nobody?
    case CheckRead => AcceptorPc(s).CheckLocked?
    case SendTimeout => AcceptorPc(s).Sending?
    case SendDisconnected => AcceptorPc(s).Sending? && true !in s.rxLive
    case DropTx => AcceptorPc(s).LeavingLoop?
  }

  function ApplyAcceptor(s: State, c: AcceptorStep): State
    requires AcceptorEnabled(s, c)
  {
    match c
    case Accept(item) => At(s, s.workers, CheckLocking(item)).(accepted := s.accepted + StreamsOf(item))
    // ctx.is_shutdown()
    case CheckLock => At(s, s.workers, CheckLocked(AcceptorPc(s).item)).(owner := Thread(s.workers))
    case CheckRead =>
      var item := AcceptorPc(s).item;
      if s.recorded.Some? then
        At(s, s.workers, LeavingLoop).(owner := Nobody, discarded := s.discarded + StreamsOf(item))
      else if item.AcceptFailed? then At(s, s.workers, LeavingLoop).(owner := Nobody)
      else At(s, s.workers, Sending(item.stream)).(owner := Nobody)
    case SendTimeout => At(s, s.workers, LeavingLoop).(discarded := s.discarded + [AcceptorPc(s).stream])
    case SendDisconnected => At(s, s.workers, LeavingLoop).(discarded := s.discarded + [AcceptorPc(s).stream])
    // std::mem::drop(tx)
    case DropTx => At(s, s.workers, DropLocking(Completed)).(txAlive := false)
  }

  predicate ExitEnabled(s: State, i: nat, x: ExitStep) {
    && i < |s.threads|
    && match x
       case LockSlot => s.threads[i].DropLocking? && s.owner.Nobody?
       case InsertSlot => s.threads[i].DropLocked?
       case UnlockSlot => s.threads[i].DropUnlocking?
       case NotifyAll => s.threads[i].DropNotifying?
       case ReleaseCaptures => s.threads[i].DropCaptures?
  }

  /** Context::drop, then the closure's captures: rx is dropped after the Context parameter. */
  function ApplyExit(s: State, i: nat, x: ExitStep): State
    requires ExitEnabled(s, i, x)
  {
    var o := s.threads[i].outcome;
    match x
    case LockSlot => At(s, i, DropLocked(o)).(owner := Thread(i))
    case InsertSlot =>
      At(s, i, DropUnlocking(o)).(recorded := GetOrInsert(s.recorded, i), exits := s.exits + [i])
    case UnlockSlot => At(s, i, DropNotifying(o)).(owner := Nobody)
    case NotifyAll =>
      At(s, i, DropCaptures(o)).(main := if s.main.Waiting? then Locking else s.main)
    case ReleaseCaptures =>
      At(s, i, Exited(o)).(rxLive := if i < |s.rxLive| then s.rxLive[i := false] else s.rxLive)
  }

  /** Once `main` has ended the process is gone, so nothing steps any more. */
  predicate Enabled(s: State, a: Action) {
    !Terminal(s.main) &&
    match a
    case OfMain(m) => MainEnabled(s, m)
    case OfWorker(i, w) => WorkerEnabled(s, i, w)
    case OfAcceptor(c) => AcceptorEnabled(s, c)
    case OfExit(i, x) => ExitEnabled(s, i, x)
  }

  function Apply(s: State, a: Action): State
    requires Enabled(s, a)
  {
    match a
    case OfMain(m) => ApplyMain(s, m)
    case OfWorker(i, w) => ApplyWorker(s, i, w)
    case OfAcceptor(c) => ApplyAcceptor(s, c)
    case OfExit(i, x) => ApplyExit(s, i, x)
  }

  // ---------- runs ----------

  predicate IsRun(s: State, actions: seq<Action>)
    decreases |actions|
  {
    actions == [] || (Enabled(s, actions[0]) && IsRun(Apply(s, actions[0]), actions[1..]))
  }

  function After(s: State, actions: seq<Action>): State
    requires IsRun(s, actions)
    decreases |actions|
  {
    if actions == [] then s else After(Apply(s, actions[0]), actions[1..])
  }

  /** The states the pool can be in, for a given number of workers. */
  ghost predicate Reachable(s: State) {
    exists actions :: IsRun(Init(s.workers), actions) && After(Init(s.workers), actions) == s
  }

  // ---------- the group the classes build is the one that runs ----------

  /** `Init` after the first k turns of the spawn loop. */
  function SpawnedFirst(workers: nat, k: nat): State
    requires k <= workers + 1
  {
    Init(workers).(
      threads := seq(workers + 1, i requires 0 <= i => if i < k then StartOf(BodyOf(workers, i)) else NotSpawned),
      handles := Ids(k))
  }

  function Spawns(n: nat): seq<Action> {
    if n == 0 then [] else [OfMain(Spawn)] + Spawns(n - 1)
  }

  lemma SpawnTurn(workers: nat, k: nat)
    requires k <= workers
    ensures Enabled(SpawnedFirst(workers, k), OfMain(Spawn))
    ensures Apply(SpawnedFirst(workers, k), OfMain(Spawn)) == SpawnedFirst(workers, k + 1)
  {
    var s := SpawnedFirst(workers, k);
    assert Apply(s, OfMain(Spawn)).threads == SpawnedFirst(workers, k + 1).threads;
    assert Apply(s, OfMain(Spawn)).handles == Ids(k + 1);
  }

  lemma {:induction false} SpawnLoop(workers: nat, k: nat)
    requires k <= workers + 1
    ensures IsRun(SpawnedFirst(workers, k), Spawns(workers + 1 - k))
    ensures After(SpawnedFirst(workers, k), Spawns(workers + 1 - k)) == SpawnedFirst(workers, workers + 1)
    decreases workers + 1 - k
  {
    if k <= workers {
      SpawnTurn(workers, k);
      SpawnLoop(workers, k + 1);
      assert Spawns(workers + 1 - k)[1..] == Spawns(workers - k);
    }
  }

  lemma SpawningIsReachable(workers: nat)
    ensures Reachable(SpawnedFirst(workers, workers + 1))
  {
    assert SpawnedFirst(workers, 0).threads == Init(workers).threads;
    SpawnLoop(workers, 0);
  }

  /** Building the group and spawning it ends in the state the transition system reaches by its spawn steps. */
  method StartGroup(workers: nat) returns (handles: seq<nat>, started: seq<Pc>)
    ensures |started| == workers + 1
    ensures Reachable(Init(workers).(threads := started, handles := handles))
  {
    var wg := BuildGroup(workers);
    handles, started := wg.SpawnAll();
    SpawningIsReachable(workers);
    assert started == SpawnedFirst(workers, workers + 1).threads;
  }
}
