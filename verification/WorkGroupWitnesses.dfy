/** Complete runs: a wait that a notify_all ends, and what the pool does not promise. */
module WorkGroupWitnesses {
  import opened Results
  import opened WorkGroup
  import opened WorkGroupSafety
  import Shutdown = WorkGroupShutdown

  // ---------- extending a run ----------

  lemma {:induction false} RunThen(s: State, actions: seq<Action>, a: Action)
    requires IsRun(s, actions) && Enabled(After(s, actions), a)
    ensures IsRun(s, actions + [a])
    ensures After(s, actions + [a]) == Apply(After(s, actions), a)
    decreases |actions|
  {
    if actions == [] {
      assert actions + [a] == [a];
      assert IsRun(Apply(s, a), []);
    } else {
      assert (actions + [a])[1..] == actions[1..] + [a];
      RunThen(Apply(s, actions[0]), actions[1..], a);
    }
  }

  lemma ReachableThen(s: State, a: Action)
    requires Reachable(s) && Enabled(s, a)
    ensures Reachable(Apply(s, a))
  {
    var actions :| IsRun(Init(s.workers), actions) && After(Init(s.workers), actions) == s;
    RunThen(Init(s.workers), actions, a);
  }

  // ---------- stretches of a run in which one thread moves alone ----------

  ghost predicate Undisturbed(s: State) {
    Reachable(s) && !Terminal(s.main) && s.owner.Nobody?
  }

  /** `run` is about to lock, and everyone has been spawned. */
  function Spawned(workers: nat): State {
    SpawnedFirst(workers, workers + 1).(main := Locking)
  }

  lemma SpawnsAll(workers: nat)
    ensures Undisturbed(Spawned(workers))
  {
    SpawningIsReachable(workers);
    ReachableThen(SpawnedFirst(workers, workers + 1), OfMain(SpawnedAll));
  }

  /** The acceptor takes what arrives through its shutdown check. */
  lemma ChecksAlone(s: State, item: Incoming) returns (t: State)
    requires Undisturbed(s) && AcceptorPc(s).Accepting? && s.recorded.None?
    ensures t == At(s, s.workers, if item.AcceptFailed? then LeavingLoop else Sending(item.stream))
                 .(accepted := s.accepted + StreamsOf(item))
    ensures Undisturbed(t)
  {
    ReachableThen(s, OfAcceptor(Accept(item)));
    t := ApplyAcceptor(s, Accept(item));
    ReachableThen(t, OfAcceptor(CheckLock));
    t := ApplyAcceptor(t, CheckLock);
    ReachableThen(t, OfAcceptor(CheckRead));
    t := ApplyAcceptor(t, CheckRead);
  }

  /** A stream arrives and goes to worker i, who waits for the client to send. */
  lemma HandsOver(s: State, stream: Stream, i: nat) returns (t: State)
    requires Undisturbed(s) && AcceptorPc(s).Accepting? && s.recorded.None?
    requires i < s.workers && s.threads[i].Receiving?
    ensures t == At(s, i, Reading(stream)).(accepted := s.accepted + [stream], handed := s.handed + [(stream, i)])
    ensures Undisturbed(t)
  {
    var sending := ChecksAlone(s, Connection(stream));
    ReachableThen(sending, OfWorker(i, Receive));
    t := ApplyWorker(sending, i, Receive);
    assert t.threads == s.threads[i := Reading(stream)];
  }

  /** The acceptor stops on an accept error and drops tx. */
  lemma StopsOnError(s: State) returns (t: State)
    requires Undisturbed(s) && AcceptorPc(s).Accepting? && s.recorded.None?
    ensures t == At(s, s.workers, DropLocking(Completed)).(txAlive := false)
    ensures Undisturbed(t)
  {
    var leaving := ChecksAlone(s, AcceptFailed);
    ReachableThen(leaving, OfAcceptor(DropTx));
    t := ApplyAcceptor(leaving, DropTx);
    assert s.accepted + [] == s.accepted;
    assert t.threads == s.threads[s.workers := DropLocking(Completed)];
  }

  /** A thread stores its index, unless one is stored already, without being interleaved with anyone. */
  lemma RecordsAlone(s: State, i: nat) returns (t: State)
    requires Undisturbed(s) && i < |s.threads| && s.threads[i].DropLocking?
    ensures t == At(s, i, DropNotifying(s.threads[i].outcome))
                 .(recorded := GetOrInsert(s.recorded, i), exits := s.exits + [i])
    ensures Undisturbed(t)
  {
    ReachableThen(s, OfExit(i, LockSlot));
    t := ApplyExit(s, i, LockSlot);
    ReachableThen(t, OfExit(i, InsertSlot));
    t := ApplyExit(t, i, InsertSlot);
    ReachableThen(t, OfExit(i, UnlockSlot));
    t := ApplyExit(t, i, UnlockSlot);
  }

  lemma EndsAlone(s: State, i: nat) returns (t: State)
    requires Undisturbed(s) && s.main.Locking? && i < |s.threads| && s.threads[i].DropNotifying?
    ensures t == At(s, i, Exited(s.threads[i].outcome))
                 .(rxLive := if i < |s.rxLive| then s.rxLive[i := false] else s.rxLive)
    ensures Undisturbed(t)
  {
    ReachableThen(s, OfExit(i, NotifyAll));
    t := ApplyExit(s, i, NotifyAll);
    ReachableThen(t, OfExit(i, ReleaseCaptures));
    t := ApplyExit(t, i, ReleaseCaptures);
  }

  lemma LeavesAlone(s: State, i: nat) returns (t: State)
    requires Undisturbed(s) && s.main.Locking? && i < |s.threads| && s.threads[i].DropLocking?
    ensures t == At(s, i, Exited(s.threads[i].outcome))
                 .(recorded := GetOrInsert(s.recorded, i), exits := s.exits + [i],
                   rxLive := if i < |s.rxLive| then s.rxLive[i := false] else s.rxLive)
    ensures Undisturbed(t)
  {
    var recorded := RecordsAlone(s, i);
    t := EndsAlone(recorded, i);
    assert t.threads == s.threads[i := Exited(s.threads[i].outcome)];
  }

  /** `run` locks and takes the first exiter's handle. */
  lemma TakesFirst(s: State) returns (t: State)
    requires Undisturbed(s) && s.main.Locking? && s.recorded.Some? && s.recorded.value < |s.handles|
    ensures t == s.(owner := MainThread, main := Joining(s.handles[s.recorded.value]),
                    handles := RemoveAt(s.handles, s.recorded.value))
    ensures Reachable(t)
  {
    ReachableThen(s, OfMain(Lock));
    t := ApplyMain(s, Lock);
    ReachableThen(t, OfMain(Decide));
    t := ApplyMain(t, Decide);
  }

  /** `run` joins a thread that has completed and returns; `main` starts on the other handles. */
  lemma ReturnsGracefully(s: State) returns (t: State)
    requires Reachable(s) && s.main.Joining?
    requires s.main.first < |s.threads| && s.threads[s.main.first] == Exited(Completed)
    ensures t == s.(owner := Nobody, main := Draining(0))
    ensures Reachable(t)
  {
    ReachableThen(s, OfMain(Join));
    t := ApplyMain(s, Join);
    ReachableThen(t, OfMain(Return));
    t := ApplyMain(t, Return);
  }

  // ---------- a panic need not be re-raised ----------

  /** Worker 1 of two has a stream; the acceptor has stopped on an accept error and dropped tx. */
  lemma AcceptorGone() returns (t: State)
    ensures Undisturbed(t) && t.main.Locking? && t.workers == 2
    ensures t.threads == [Receiving, Reading(7), DropLocking(Completed)]
    ensures !t.txAlive && t.recorded.None? && t.handles == [0, 1, 2]
  {
    SpawnsAll(2);
    var s := Spawned(2);
    assert s.threads == [Receiving, Receiving, Accepting];
    t := HandsOver(s, 7, 1);
    t := StopsOnError(t);
  }

  /** Worker 0 leaves on finding the channel closed, and is the one recorded. */
  lemma WorkerLeaves(s: State) returns (t: State)
    requires Undisturbed(s) && s.main.Locking? && s.workers == 2
    requires !s.txAlive && s.recorded.None? && s.handles == [0, 1, 2]
    requires s.threads == [Receiving, Reading(7), DropLocking(Completed)]
    ensures Undisturbed(t) && t.main.Locking? && t.workers == 2 && t.recorded == Some(0) && t.handles == [0, 1, 2]
    ensures t.threads == [Exited(Completed), Reading(7), DropLocking(Completed)]
  {
    ReachableThen(s, OfWorker(0, ReceiveDisconnected));
    t := ApplyWorker(s, 0, ReceiveDisconnected);
    t := LeavesAlone(t, 0);
  }

  /** Then worker 1 panics over what its client sent. */
  lemma WorkerPanics(s: State) returns (t: State)
    requires Undisturbed(s) && s.main.Locking? && s.workers == 2 && s.recorded == Some(0) && s.handles == [0, 1, 2]
    requires s.threads == [Exited(Completed), Reading(7), DropLocking(Completed)]
    ensures Undisturbed(t) && t.main.Locking? && t.workers == 2 && t.recorded == Some(0) && t.handles == [0, 1, 2]
    ensures t.threads == [Exited(Completed), Exited(Panicked), DropLocking(Completed)]
  {
    t := PanicsAlone(s, 1);
    t := LeavesAlone(t, 1);
  }

  /** Every thread has ended, and `main` joins the two that are left. */
  lemma DrainsTwo(s: State) returns (t: State)
    requires Reachable(s) && s.main == Draining(0) && s.handles == [1, 2]
    requires s.threads == [Exited(Completed), Exited(Panicked), Exited(Completed)]
    ensures Reachable(t) && t == s.(main := Finished)
  {
    ReachableThen(s, OfMain(DrainJoin));
    t := ApplyMain(s, DrainJoin);
    ReachableThen(t, OfMain(DrainJoin));
    t := ApplyMain(t, DrainJoin);
    ReachableThen(t, OfMain(DrainDone));
    t := ApplyMain(t, DrainDone);
  }

  /**
   `main` can return Ok although a thread panicked: only the first exiter's outcome
   is looked at. In this run the acceptor stops first, a worker is the one recorded,
   and the other worker panics before `run` has joined anyone.
   */
  lemma PanicCanBeSwallowed() returns (s: State)
    ensures Reachable(s) && s.main.Finished? && s.recorded == Some(0) && s.workers == 2
    ensures s.threads == [Exited(Completed), Exited(Panicked), Exited(Completed)]
  {
    s := AcceptorGone();
    s := WorkerLeaves(s);
    s := WorkerPanics(s);
    s := LeavesAlone(s, 2);
    s := TakesFirst(s);
    s := ReturnsGracefully(s);
    s := DrainsTwo(s);
  }

  // ---------- a client can hold up a graceful shutdown ----------

  /** The acceptor of a pool of one has stopped and is recorded, while the worker waits for its client to send. */
  lemma OnlyTheWorkerLeft() returns (t: State)
    ensures Undisturbed(t) && t.main.Locking? && t.workers == 1 && t.recorded == Some(1) && t.handles == [0, 1]
    ensures t.threads == [Reading(7), Exited(Completed)] && t.answered == []
  {
    SpawnsAll(1);
    t := Spawned(1);
    assert t.threads == [Receiving, Accepting];
    t := HandsOver(t, 7, 0);
    t := StopsOnError(t);
    t := LeavesAlone(t, 1);
  }

  lemma OnlyTheClientCanStep(s: State)
    requires s.main == Draining(0) && s.handles == [0] && s.owner.Nobody?
    requires s.workers == 1
    requires s.threads == [Reading(7), Exited(Completed)] || s.threads == [Writing(7), Exited(Completed)]
    ensures forall a :: Enabled(s, a) <==>
              a == OfWorker(0, if s.threads[0].Reading? then ReadReturns else WriteReturns)
  {
    assert AcceptorPc(s) == Exited(Completed);
  }

  /** A client that connects and sends nothing keeps a graceful shutdown from ending: only it can move the pool. */
  lemma SilentClientStalls() returns (s: State)
    ensures Reachable(s) && !Terminal(s.main) && s.recorded.Some?
    ensures Shutdown.Stalled(s)
    ensures forall a :: Enabled(s, a) <==> a == OfWorker(0, ReadReturns)
  {
    s := OnlyTheWorkerLeft();
    s := TakesFirst(s);
    s := ReturnsGracefully(s);
    assert s.handles == [0];
    OnlyTheClientCanStep(s);
  }

  /** So does a client that sends a request and does not take the reply. */
  lemma DeafClientStalls() returns (s: State)
    ensures Reachable(s) && !Terminal(s.main) && s.recorded.Some?
    ensures Shutdown.Stalled(s) && s.answered == []
    ensures forall a :: Enabled(s, a) <==> a == OfWorker(0, WriteReturns)
  {
    s := OnlyTheWorkerLeft();
    s := StartsToAnswer(s);
    s := TakesFirst(s);
    s := ReturnsGracefully(s);
    assert s.handles == [0];
    OnlyTheClientCanStep(s);
  }

  lemma StartsToAnswer(s: State) returns (t: State)
    requires Undisturbed(s) && s.workers > 0 && s.threads[0].Reading?
    ensures t == At(s, 0, Writing(s.threads[0].stream)) && Undisturbed(t)
  {
    ReachableThen(s, OfWorker(0, ReadReturns));
    t := ApplyWorker(s, 0, ReadReturns);
    ReachableThen(t, OfWorker(0, Answer));
    t := ApplyWorker(t, 0, Answer);
    assert t.threads == s.threads[0 := Writing(s.threads[0].stream)];
  }

  // ---------- a wait that a notify_all ends ----------

  lemma Waits(workers: nat) returns (t: State)
    ensures t == Spawned(workers).(main := Waiting) && Undisturbed(t)
  {
    SpawnsAll(workers);
    var s := Spawned(workers);
    ReachableThen(s, OfMain(Lock));
    t := ApplyMain(s, Lock);
    ReachableThen(t, OfMain(Decide));
    t := ApplyMain(t, Decide);
  }

  /** `run` waits while everyone works; then a thread is recorded, and its notify_all ends the wait. */
  lemma NotifyEndsTheWait(workers: nat) returns (s: State, t: State)
    ensures Reachable(s) && s.main.Waiting? && s.recorded == Some(workers)
    ensures Enabled(s, OfExit(workers, NotifyAll)) && t == Apply(s, OfExit(workers, NotifyAll))
    ensures Reachable(t) && t.main.Locking? && Enabled(t, OfMain(Lock))
  {
    s := Waits(workers);
    assert AcceptorPc(s) == Accepting;
    s := StopsOnError(s);
    s := RecordsAlone(s, workers);
    ReachableThen(s, OfExit(workers, NotifyAll));
    t := Apply(s, OfExit(workers, NotifyAll));
  }

  // ---------- a handoff after shutdown ----------

  /** Of two workers one has a stream; the acceptor is past its shutdown check with another stream. */
  lemma OneSending() returns (t: State)
    ensures Undisturbed(t) && t.main.Locking? && t.workers == 2 && t.recorded.None? && t.handed == [(7, 1)]
    ensures t.threads == [Receiving, Reading(7), Sending(8)]
  {
    SpawnsAll(2);
    t := Spawned(2);
    assert t.threads == [Receiving, Receiving, Accepting];
    t := HandsOver(t, 7, 1);
    t := ChecksAlone(t, Connection(8));
  }

  /** The one handoff that may follow the recording of an exiter does happen. */
  lemma OneHandoffAfterShutdown() returns (s: State, t: State)
    ensures Reachable(s) && s.recorded == Some(1) && Enabled(s, OfWorker(0, Receive))
    ensures t == Apply(s, OfWorker(0, Receive)) && Reachable(t) && t.handed == s.handed + [(8, 0)]
  {
    s := OneSending();
    s := PanicsAlone(s, 1);
    s := LeavesAlone(s, 1);
    ReachableThen(s, OfWorker(0, Receive));
    t := Apply(s, OfWorker(0, Receive));
  }

  lemma PanicsAlone(s: State, i: nat) returns (t: State)
    requires Undisturbed(s) && i < s.workers && s.threads[i].Reading?
    ensures t == At(s, i, DropLocking(Panicked)).(lost := s.lost + [(s.threads[i].stream, i)]) && Undisturbed(t)
  {
    ReachableThen(s, OfWorker(i, ReadReturns));
    t := ApplyWorker(s, i, ReadReturns);
    ReachableThen(t, OfWorker(i, Panic));
    t := ApplyWorker(t, i, Panic);
    assert t.threads == s.threads[i := DropLocking(Panicked)];
  }
}
