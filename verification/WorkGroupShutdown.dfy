/** Once a first exiter is recorded, every run of the pool ends, and it ends with `main`. */
module WorkGroupShutdown {
  import opened Results
  import opened WorkGroup
  import opened WorkGroupSafety
  import Join = WorkGroupJoin

  // ---------- a measure every step decreases ----------

  function Rank(pc: Pc): nat {
    match pc
    case NotSpawned => 13
    case Receiving => 6
    case Reading(_) => 9
    case Handling(_) => 8
    case Writing(_) => 7
    case Accepting => 9
    case CheckLocking(_) => 8
    case CheckLocked(_) => 7
    case Sending(_) => 13
    case LeavingLoop => 6
    case DropLocking(_) => 5
    case DropLocked(_) => 4
    case DropUnlocking(_) => 3
    case DropNotifying(_) => 2
    case DropCaptures(_) => 1
    case Exited(_) => 0
  }

  function MainRank(s: State): nat {
    match s.main
    case Spawning => 7 + |s.handles|
    case Waiting => 6 + |s.handles|
    case Locking => 5 + |s.handles|
    case Deciding => 4 + |s.handles|
    case Joining(_) => 3 + |s.handles|
    case Returning(_) => 2 + |s.handles|
    case Draining(next) => if next <= |s.handles| then 1 + |s.handles| - next else 0
    case _ => 0
  }

  function Ranks(threads: seq<Pc>): (sum: nat)
    ensures sum <= 13 * |threads|
  {
    if threads == [] then 0 else Rank(threads[0]) + Ranks(threads[1..])
  }

  function Measure(s: State): nat {
    Ranks(s.threads) + MainRank(s)
  }

  lemma {:induction false} RanksUpdate(threads: seq<Pc>, i: nat, pc: Pc)
    requires i < |threads|
    ensures Ranks(threads[i := pc]) + Rank(threads[i]) == Ranks(threads) + Rank(pc)
  {
    if i == 0 {
      assert threads[i := pc][1..] == threads[1..];
    } else {
      assert threads[i := pc][1..] == threads[1..][i - 1 := pc];
      RanksUpdate(threads[1..], i - 1, pc);
    }
  }

  /** One thread moves to a lower rank, and `main` is no further from its end. */
  lemma MoveDecreases(s: State, t: State, i: nat, pc: Pc)
    requires i < |s.threads| && t.threads == s.threads[i := pc]
    requires Rank(pc) + MainRank(t) < Rank(s.threads[i]) + MainRank(s)
    ensures Measure(t) < Measure(s)
  {
    RanksUpdate(s.threads, i, pc);
  }

  lemma MainRankDecreases(s: State, m: MainStep)
    requires Handles(s) && Recorded(s) && Joins(s) && MainEnabled(s, m) && s.recorded.Some? && !m.Spawn?
    ensures MainRank(ApplyMain(s, m)) < MainRank(s) && ApplyMain(s, m).threads == s.threads
  {
    assert s.exits[0] in s.exits;
  }

  lemma MainDecreases(s: State, m: MainStep)
    requires Handles(s) && Recorded(s) && Joins(s) && MainEnabled(s, m) && s.recorded.Some?
    ensures Measure(ApplyMain(s, m)) < Measure(s)
  {
    if m.Spawn? {
      MoveDecreases(s, ApplyMain(s, m), |s.handles|, StartOf(BodyOf(s.workers, |s.handles|)));
    } else {
      MainRankDecreases(s, m);
    }
  }

  /** The rendezvous moves two threads: the worker to its client, the acceptor back to accepting. */
  lemma ReceiveDecreases(s: State, i: nat)
    requires WorkerEnabled(s, i, Receive)
    ensures Measure(ApplyWorker(s, i, Receive)) < Measure(s)
  {
    var reading := Reading(AcceptorPc(s).stream);
    RanksUpdate(s.threads, i, reading);
    RanksUpdate(s.threads[i := reading], s.workers, Accepting);
    assert MainRank(ApplyWorker(s, i, Receive)) == MainRank(s);
  }

  lemma WorkerDecreases(s: State, i: nat, w: WorkerStep)
    requires WorkerEnabled(s, i, w)
    ensures Measure(ApplyWorker(s, i, w)) < Measure(s)
  {
    var t := ApplyWorker(s, i, w);
    if w.Receive? {
      ReceiveDecreases(s, i);
    } else {
      MoveDecreases(s, t, i, t.threads[i]);
    }
  }

  lemma AcceptorDecreases(s: State, c: AcceptorStep)
    requires AcceptorEnabled(s, c) && s.recorded.Some?
    ensures Measure(ApplyAcceptor(s, c)) < Measure(s)
  {
    var t := ApplyAcceptor(s, c);
    MoveDecreases(s, t, s.workers, t.threads[s.workers]);
  }

  lemma ExitDecreases(s: State, i: nat, x: ExitStep)
    requires ExitEnabled(s, i, x)
    ensures Measure(ApplyExit(s, i, x)) < Measure(s)
  {
    var t := ApplyExit(s, i, x);
    MoveDecreases(s, t, i, t.threads[i]);
  }

  lemma StepDecreases(s: State, a: Action)
    requires Inv(s) && Enabled(s, a) && s.recorded.Some?
    ensures Measure(Apply(s, a)) < Measure(s) && Apply(s, a).recorded.Some?
  {
    match a
    case OfMain(m) => MainDecreases(s, m);
    case OfWorker(i, w) => WorkerDecreases(s, i, w);
    case OfAcceptor(c) => AcceptorDecreases(s, c);
    case OfExit(i, x) => ExitDecreases(s, i, x);
  }

  lemma {:induction false} ShutdownLength(s: State, later: seq<Action>)
    requires Inv(s) && IsRun(s, later) && s.recorded.Some?
    ensures |later| + Measure(After(s, later)) <= Measure(s)
    decreases |later|
  {
    if later != [] {
      StepKeepsInv(s, later[0]);
      StepDecreases(s, later[0]);
      ShutdownLength(Apply(s, later[0]), later[1..]);
    }
  }

  // ---------- some step is always possible ----------

  /** Steps the pool cannot bring about itself: what a client does, and a spurious wakeup. */
  predicate FromOutside(a: Action) {
    || a == OfMain(SpuriousWake)
    || (a.OfAcceptor? && a.acceptor.Accept?)
    || (a.OfWorker? && (a.worker.ReadReturns? || a.worker.WriteReturns?))
  }

  /** Blocked until its client sends, takes the reply, or hangs up: the source sets no timeout on the stream. */
  predicate OnClient(pc: Pc) {
    pc.Reading? || pc.Writing?
  }

  /** `main` is joining the remaining handles, and the next one is a worker blocked on its client. */
  predicate Stalled(s: State) {
    && s.main.Draining? && s.main.next < |s.handles| && s.handles[s.main.next] < |s.threads|
    && OnClient(s.threads[s.handles[s.main.next]])
  }

  /** What a thread can do next when nobody has the mutex and it is not waiting for a stream or a client. */
  lemma ThreadCanStep(s: State, i: nat) returns (a: Action)
    requires Inv(s) && !Terminal(s.main) && s.owner.Nobody? && i < |s.threads|
    requires !s.threads[i].NotSpawned? && !s.threads[i].Exited? && !s.threads[i].Accepting? && !OnClient(s.threads[i])
    requires s.threads[i].Receiving? ==> !s.txAlive
    ensures Enabled(s, a) && !FromOutside(a)
  {
    var pc := s.threads[i];
    assert !HoldsMutex(pc);
    a :=
      if pc.Receiving? then OfWorker(i, ReceiveDisconnected)
      else if pc.Handling? then OfWorker(i, GiveUp)
      else if pc.CheckLocking? then OfAcceptor(CheckLock)
      else if pc.Sending? then OfAcceptor(SendTimeout)
      else if pc.LeavingLoop? then OfAcceptor(DropTx)
      else if pc.DropLocking? then OfExit(i, LockSlot)
      else if pc.DropNotifying? then OfExit(i, NotifyAll)
      else OfExit(i, ReleaseCaptures);
  }

  /** Whoever has the mutex can get on without it being free. */
  lemma OwnerCanStep(s: State) returns (a: Action)
    requires Inv(s) && !Terminal(s.main) && !s.owner.Nobody?
    ensures Enabled(s, a) && !FromOutside(a)
  {
    if s.owner.Thread? {
      var pc := s.threads[s.owner.id];
      assert HoldsMutex(pc);
      a :=
        if pc.CheckLocked? then OfAcceptor(CheckRead)
        else OfExit(s.owner.id, if pc.DropLocked? then InsertSlot else UnlockSlot);
    } else if s.main.Joining? {
      var pc := s.threads[s.main.first];
      a :=
        if pc.DropNotifying? then OfExit(s.main.first, NotifyAll)
        else if pc.DropCaptures? then OfExit(s.main.first, ReleaseCaptures)
        else OfMain(Join);
    } else {
      a := OfMain(if s.main.Deciding? then Decide else Return);
    }
  }

  /** While `run` waits, the recorded thread can get on, or else the acceptor can, if only by accepting. */
  lemma WaitingCanStep(s: State) returns (a: Action)
    requires Inv(s) && s.main.Waiting? && s.owner.Nobody?
    ensures Enabled(s, a)
    ensures FromOutside(a) ==> s.recorded.None? && AcceptorPc(s).Accepting?
  {
    if s.recorded.Some? {
      assert s.exits[0] in s.exits;
      a := ThreadCanStep(s, s.recorded.value);
    } else if AcceptorPc(s).Accepting? {
      a := OfAcceptor(Accept(AcceptFailed));
    } else {
      a := ThreadCanStep(s, s.workers);
    }
  }

  /** While `main` joins the remaining handles, the next thread to join can get on, or its client can. */
  lemma DrainingCanStep(s: State) returns (a: Action)
    requires Inv(s) && s.main.Draining? && s.owner.Nobody?
    ensures Enabled(s, a) && (FromOutside(a) ==> Stalled(s))
  {
    if s.main.next >= |s.handles| {
      return OfMain(DrainDone);
    }
    var i := s.handles[s.main.next];
    if s.threads[i].Exited? {
      a := OfMain(DrainJoin);
    } else if OnClient(s.threads[i]) {
      a := OfWorker(i, if s.threads[i].Reading? then ReadReturns else WriteReturns);
    } else {
      a := ThreadCanStep(s, i);
    }
  }

  /** The pool never gets stuck; at most it waits for a client to connect, or a client stalls the last joins. */
  lemma SomeStepEnabled(s: State) returns (a: Action)
    requires Inv(s) && !Terminal(s.main)
    ensures Enabled(s, a)
    ensures FromOutside(a) ==> Stalled(s) || (s.recorded.None? && AcceptorPc(s).Accepting?)
  {
    if !s.owner.Nobody? {
      a := OwnerCanStep(s);
    } else if s.main.Waiting? {
      a := WaitingCanStep(s);
    } else if s.main.Draining? {
      a := DrainingCanStep(s);
    } else {
      a := OfMain(
        if s.main.Locking? then Lock
        else if |s.handles| < |s.threads| then Spawn
        else SpawnedAll);
    }
  }

  // ---------- what follows for every run ----------

  /**
   No reachable state is a deadlock. At worst the idle pool waits for a client to
   connect, or `main` waits to join a worker whose client keeps it blocked.
   */
  lemma DeadlockFree(s: State)
    requires Reachable(s) && !Terminal(s.main)
    ensures exists a :: Enabled(s, a) &&
              (FromOutside(a) ==> Stalled(s) || (s.recorded.None? && AcceptorPc(s).Accepting?))
  {
    ReachableInv(s);
    var a := SomeStepEnabled(s);
  }

  /**
   Once a first exiter is recorded, the pool shuts down in a number of steps linear
   in the number of threads, whatever the interleaving: a run that can go no further
   without an outside event has ended with `main`, or is stalled by a client.
   */
  lemma ShutdownTerminates(s: State, later: seq<Action>)
    requires Reachable(s) && s.recorded.Some? && IsRun(s, later)
    ensures |later| <= 14 * |s.threads| + 7
    ensures
      var end := After(s, later);
      (forall a :: Enabled(end, a) ==> FromOutside(a)) ==> Terminal(end.main) || Stalled(end)
  {
    ReachableInv(s);
    ShutdownLength(s, later);
    RunKeepsInv(s, later);
    Join.RecordedIsFirstForGood(s, later);
    var end := After(s, later);
    if !Terminal(end.main) {
      var a := SomeStepEnabled(end);
    }
  }

  /** When the recorded thread is leaving by a panic, no client can hold up the end: the panic is re-raised. */
  lemma PanicEndsTheProcess(s: State, later: seq<Action>)
    requires Reachable(s) && s.recorded.Some? && IsRun(s, later)
    requires OnTheWayOut(FirstPc(s)) && FirstPc(s).outcome.Panicked?
    requires forall a :: Enabled(After(s, later), a) ==> FromOutside(a)
    ensures After(s, later).main.Resumed?
  {
    ReachableInv(s);
    ShutdownTerminates(s, later);
    Join.RecordedIsFirstForGood(s, later);
    Join.WayOutForGood(s, later, s.recorded.value);
    RunKeepsInv(s, later);
  }
}
