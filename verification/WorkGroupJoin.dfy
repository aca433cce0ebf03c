/** What `WorkGroup::run` and the rest of `main` guarantee, for every run of the pool. */
module WorkGroupJoin {
  import opened Results
  import opened WorkGroup
  import opened WorkGroupSafety

  /** Nobody else is inside the mutex while a thread, or `run`, is. */
  lemma MutualExclusion(s: State, i: nat, j: nat)
    requires Reachable(s) && i < |s.threads| && j < |s.threads|
    ensures HoldsMutex(s.threads[i]) && HoldsMutex(s.threads[j]) ==> i == j
    ensures HoldsMutex(s.threads[i]) ==> !MainHoldsMutex(s.main)
  {
    ReachableInv(s);
  }

  // ---------- joining while holding the mutex ----------

  /** How many more steps a thread past the mutex takes. */
  function StepsLeft(pc: Pc): nat {
    match pc
    case DropNotifying(_) => 2
    case DropCaptures(_) => 1
    case _ => 0
  }

  /** Where a thread can be after a step of its own or of anyone else, once it is on its way out. */
  ghost predicate FurtherOut(before: Pc, after: Pc) {
    && OnTheWayOut(before) && OnTheWayOut(after) && after.outcome == before.outcome
    && (PastMutex(before) ==> PastMutex(after))
  }

  lemma MainLeavesItAlone(s: State, m: MainStep, i: nat)
    requires Handles(s) && MainEnabled(s, m) && i < |s.threads| && OnTheWayOut(s.threads[i])
    ensures ApplyMain(s, m).threads[i] == s.threads[i]
  {
    if m.Spawn? {
      assert s.threads[|s.handles|].NotSpawned?;
    } else {
      assert ApplyMain(s, m).threads == s.threads;
    }
  }

  lemma WorkerLeavesItAlone(s: State, j: nat, w: WorkerStep, i: nat)
    requires WorkerEnabled(s, j, w) && i < |s.threads| && OnTheWayOut(s.threads[i])
    ensures ApplyWorker(s, j, w).threads[i] == s.threads[i]
  {
    assert i != j && (w.Receive? ==> i != s.workers);
  }

  lemma AcceptorLeavesItAlone(s: State, c: AcceptorStep, i: nat)
    requires AcceptorEnabled(s, c) && i < |s.threads| && OnTheWayOut(s.threads[i])
    ensures ApplyAcceptor(s, c).threads[i] == s.threads[i]
  {
    assert i != s.workers;
  }

  lemma ExitLeavesItAlone(s: State, j: nat, x: ExitStep, i: nat)
    requires ExitEnabled(s, j, x) && i < |s.threads| && i != j
    ensures ApplyExit(s, j, x).threads[i] == s.threads[i]
  {
  }

  /** Only its own exit steps move a thread that is on its way out. */
  lemma OthersLeaveItAlone(s: State, a: Action, i: nat)
    requires Handles(s) && Enabled(s, a) && i < |s.threads| && OnTheWayOut(s.threads[i])
    requires !(a.OfExit? && a.i == i)
    ensures Apply(s, a).threads[i] == s.threads[i]
  {
    match a
    case OfMain(m) => MainLeavesItAlone(s, m, i);
    case OfWorker(j, w) => WorkerLeavesItAlone(s, j, w, i);
    case OfAcceptor(c) => AcceptorLeavesItAlone(s, c, i);
    case OfExit(j, x) => ExitLeavesItAlone(s, j, x, i);
  }

  lemma WayOutStep(s: State, a: Action, i: nat)
    requires Handles(s) && Enabled(s, a) && i < |s.threads| && OnTheWayOut(s.threads[i])
    ensures FurtherOut(s.threads[i], Apply(s, a).threads[i])
  {
    if a.OfExit? && a.i == i {
      assert Apply(s, a).threads[i] == ApplyExit(s, i, a.exit).threads[i];
    } else {
      OthersLeaveItAlone(s, a, i);
    }
  }

  lemma {:induction false} WayOutForGood(s: State, actions: seq<Action>, i: nat)
    requires Inv(s) && IsRun(s, actions) && i < |s.threads| && OnTheWayOut(s.threads[i])
    ensures i < |After(s, actions).threads|
    ensures FurtherOut(s.threads[i], After(s, actions).threads[i])
    decreases |actions|
  {
    if actions != [] {
      StepKeepsInv(s, actions[0]);
      WayOutStep(s, actions[0], i);
      WayOutForGood(Apply(s, actions[0]), actions[1..], i);
    }
  }

  /**
   Joining with the guard held cannot deadlock. The joined thread never wants the
   mutex again, whatever happens next; and until it has ended it has an enabled
   step that needs no lock and brings its end nearer, after which the join is enabled.
   */
  lemma JoinUnderLockIsSafe(s: State, later: seq<Action>)
    requires Reachable(s) && s.main.Joining? && IsRun(s, later)
    ensures s.owner.MainThread? && s.main.first < |s.threads|
    ensures s.main.first < |After(s, later).threads|
    ensures PastMutex(After(s, later).threads[s.main.first])
    ensures
      var pc := s.threads[s.main.first];
      if StepsLeft(pc) == 0 then Enabled(s, OfMain(Join))
      else exists x: ExitStep :: ExitEnabled(s, s.main.first, x) && !x.LockSlot?
                                 && StepsLeft(ApplyExit(s, s.main.first, x).threads[s.main.first]) < StepsLeft(pc)
  {
    ReachableInv(s);
    var r := s.main.first;
    WayOutForGood(s, later, r);
    if s.threads[r].DropNotifying? {
      assert ExitEnabled(s, r, NotifyAll);
      assert ApplyExit(s, r, NotifyAll).threads[r].DropCaptures?;
    } else if s.threads[r].DropCaptures? {
      assert ExitEnabled(s, r, ReleaseCaptures);
      assert ApplyExit(s, r, ReleaseCaptures).threads[r].Exited?;
    }
  }

  // ---------- no lost wakeup ----------

  /** While `run` waits although a thread has recorded itself, that thread's notify_all is still to come. */
  lemma NoLostWakeup(s: State)
    requires Reachable(s) && s.main.Waiting? && s.recorded.Some?
    ensures s.recorded.value < |s.threads|
    ensures ExitEnabled(s, s.recorded.value, UnlockSlot) || ExitEnabled(s, s.recorded.value, NotifyAll)
    ensures ExitEnabled(s, s.recorded.value, NotifyAll) ==>
              ApplyExit(s, s.recorded.value, NotifyAll).main.Locking?
  {
    ReachableInv(s);
    assert s.exits[0] in s.exits;
  }

  /**
   `run` looks at the slot while it holds the mutex. It goes on to join exactly when an
   index is recorded; otherwise it releases the mutex and waits on the condvar.
   */
  lemma WaitsUntilRecorded(s: State)
    requires Reachable(s) && s.main.Deciding?
    ensures s.owner.MainThread? && Enabled(s, OfMain(Decide))
    ensures s.recorded.None? ==> Apply(s, OfMain(Decide)) == s.(main := Waiting, owner := Nobody)
    ensures s.recorded.Some? ==>
      Apply(s, OfMain(Decide)).main == Joining(s.recorded.value) && Apply(s, OfMain(Decide)).owner.MainThread?
  {
    ReachableInv(s);
    assert s.recorded.Some? ==> s.exits[0] in s.exits;
  }

  /** Only a notify_all or a spurious wakeup ends the wait, and then `run` takes the mutex again. */
  lemma LeavesTheWait(s: State, a: Action)
    requires Enabled(s, a) && s.main.Waiting?
    ensures Enabled(s, OfMain(SpuriousWake))
    ensures !Apply(s, a).main.Waiting? <==> a == OfMain(SpuriousWake) || (a.OfExit? && a.exit.NotifyAll?)
    ensures Apply(s, a).main.Waiting? || Apply(s, a).main.Locking?
  {
  }

  // ---------- the recorded index ----------

  lemma RecordedStep(s: State, a: Action)
    requires Enabled(s, a)
    ensures s.exits <= Apply(s, a).exits
  {
  }

  lemma {:induction false} ExitsGrow(s: State, actions: seq<Action>)
    requires IsRun(s, actions)
    ensures s.exits <= After(s, actions).exits
    decreases |actions|
  {
    if actions != [] {
      RecordedStep(s, actions[0]);
      ExitsGrow(Apply(s, actions[0]), actions[1..]);
    }
  }

  /** The index is written once, names the first thread to reach the slot, and is a valid index to remove. */
  lemma RecordedIsFirstForGood(s: State, later: seq<Action>)
    requires Reachable(s) && IsRun(s, later)
    ensures s.recorded.Some? ==> After(s, later).recorded == s.recorded
    ensures s.recorded == if s.exits == [] then None else Some(s.exits[0])
    ensures s.recorded.Some? ==> s.recorded.value <= s.workers
    ensures s.main.Deciding? && s.recorded.Some? ==> s.recorded.value < |s.handles|
    ensures !After(s, later).main.IndexPanic?
  {
    ReachableInv(s);
    RunKeepsInv(s, later);
    ExitsGrow(s, later);
    assert s.exits != [] ==> s.exits[0] in s.exits;
  }

  /** The object inside the mutex holds the recorded index once every thread so far has stored its own in turn. */
  method RecordExits(s: State) returns (slot: Slot, shutdown: bool)
    requires Reachable(s)
    ensures fresh(slot) && slot.value == s.recorded
    ensures shutdown <==> s.recorded.Some?
  {
    slot := new Slot();
    for k := 0 to |s.exits|
      invariant fresh(slot) && slot.value == if k == 0 then None else Some(s.exits[0])
    {
      slot.Record(s.exits[k]);
    }
    ReachableInv(s);
    shutdown := slot.IsShutdown();
  }

  // ---------- what run returns and what main does with it ----------

  /** Every thread index except `first`, in spawn order. */
  ghost predicate AllButInOrder(handles: seq<nat>, threads: nat, first: nat) {
    && |handles| + 1 == threads
    && (forall k :: 0 <= k < |handles| ==> handles[k] != first && handles[k] < threads)
    && (forall j, k :: 0 <= j < k < |handles| ==> handles[j] < handles[k])
  }

  /**
   `run` hands back the outcome of the first thread to record itself and the other
   handles in spawn order; `main` re-raises exactly when that outcome is a panic.
   */
  lemma RunReturnsTheFirstExiter(s: State)
    requires Reachable(s) && AfterJoin(s.main)
    ensures s.exits != [] && s.exits[0] < |s.threads| && s.threads[s.exits[0]].Exited?
    ensures AllButInOrder(s.handles, |s.threads|, s.exits[0])
    ensures s.main.Returning? ==> s.main.outcome == s.threads[s.exits[0]].outcome
    ensures Terminal(s.main) ==> (s.main.Resumed? <==> s.threads[s.exits[0]].outcome.Panicked?)
    ensures s.main.Draining? ==> s.threads[s.exits[0]].outcome.Completed?
  {
    ReachableInv(s);
  }

  /**
   How the process ends is settled as soon as an index is recorded: from then on, every
   run that ends re-raises a panic if and only if the recorded thread is leaving by one.
   */
  lemma EndIsSettledWhenRecorded(s: State, later: seq<Action>)
    requires Reachable(s) && s.recorded.Some? && IsRun(s, later) && Terminal(After(s, later).main)
    ensures s.recorded.value < |s.threads| && OnTheWayOut(s.threads[s.recorded.value])
    ensures After(s, later).main.Resumed? <==> s.threads[s.recorded.value].outcome.Panicked?
    ensures After(s, later).main.Finished? <==> s.threads[s.recorded.value].outcome.Completed?
  {
    ReachableInv(s);
    assert s.exits[0] in s.exits;
    WayOutForGood(s, later, s.recorded.value);
    RecordedIsFirstForGood(s, later);
    RunKeepsInv(s, later);
  }

  lemma CompletedMeansStopped(s: State)
    requires Channel(s) && FirstPc(s) == Exited(Completed)
    ensures !s.txAlive && OnTheWayOut(AcceptorPc(s))
  {
    assert s.recorded.value < s.workers || s.recorded.value == s.workers;
  }

  /**
   A graceful shutdown is under way only once the acceptor has left its loop and
   dropped tx, even when the recorded thread is a worker.
   */
  lemma GracefulMeansAcceptorStopped(s: State)
    requires Reachable(s)
    requires s.main == Returning(Completed) || s.main.Draining? || s.main.Finished?
    ensures !s.txAlive && OnTheWayOut(AcceptorPc(s))
    ensures forall c: AcceptorStep :: !AcceptorEnabled(s, c)
  {
    ReachableInv(s);
    CompletedMeansStopped(s);
  }

  /** When `main` returns Ok, every thread of the group has ended. */
  lemma FinishedMeansAllExited(s: State, i: nat)
    requires Reachable(s) && s.main.Finished? && i < |s.threads|
    ensures s.threads[i].Exited?
  {
    ReachableInv(s);
    var first := s.recorded.value;
    if i < first {
      assert s.handles[i] == i;
    } else if i > first {
      assert s.handles[i - 1] == i;
    }
  }
}
