/** Where accepted streams go: conservation, order, exactly-once service, and the handoff limit after shutdown. */
module WorkGroupStreams {
  import opened Results
  import opened WorkGroup
  import opened WorkGroupSafety
  import Join = WorkGroupJoin

  /** Streams, each with the worker it went to. */
  type Log = seq<(Stream, nat)>

  function StreamsIn(log: Log): seq<Stream> {
    seq(|log|, k requires 0 <= k < |log| => log[k].0)
  }

  /** The streams a log gives to worker i, in order. */
  function Of(log: Log, i: nat): seq<Stream> {
    if log == [] then []
    else
      var last := log[|log| - 1];
      Of(log[..|log| - 1], i) + (if last.1 == i then [last.0] else [])
  }

  /** The accepted stream the acceptor still has in its hands. */
  function Held(pc: Pc): seq<Stream> {
    match pc
    case CheckLocking(item) => StreamsOf(item)
    case CheckLocked(item) => StreamsOf(item)
    case Sending(stream) => [stream]
    case _ => []
  }

  function InService(pc: Pc): seq<Stream> {
    if Serving(pc) then [pc.stream] else []
  }

  /** How many streams a thread has lost: the one it was handling if it left by a panic. */
  function Losses(pc: Pc): nat {
    if OnTheWayOut(pc) && pc.outcome.Panicked? then 1 else 0
  }

  /** How many of the first n threads are inside handle_stream. */
  function Busy(threads: seq<Pc>, n: nat): (count: nat)
    requires n <= |threads|
    ensures count <= n
  {
    if n == 0 then 0 else Busy(threads, n - 1) + |InService(threads[n - 1])|
  }

  // ---------- the invariants ----------

  ghost predicate Conserved(s: State) {
    && s.accepted == StreamsIn(s.handed) + Held(AcceptorPc(s)) + s.discarded
    && |s.discarded| <= 1
    && (s.discarded != [] ==> HasLeft(AcceptorPc(s)))
  }

  /** Worker i's streams, in order: those it finished, then the one a panic lost, or the one it is serving. */
  ghost predicate Accounts(handed: Log, finished: Log, lost: Log, i: nat, pc: Pc) {
    && Of(handed, i) == Of(finished, i) + Of(lost, i) + InService(pc)
    && |Of(lost, i)| == Losses(pc)
  }

  ghost predicate ServedBy(s: State, i: nat)
    requires i < s.workers
  {
    Accounts(s.handed, s.finished, s.lost, i, s.threads[i])
  }

  ghost predicate Served(s: State) {
    && (forall i :: 0 <= i < s.workers ==> ServedBy(s, i))
    && (forall k :: 0 <= k < |s.handed| ==> s.handed[k].1 < s.workers)
    && |s.handed| == |s.finished| + |s.lost| + Busy(s.threads, s.workers)
  }

  // ---------- each step keeps them ----------

  lemma OfSnoc(log: Log, entry: (Stream, nat), i: nat)
    ensures Of(log + [entry], i) == if entry.1 == i then Of(log, i) + [entry.0] else Of(log, i)
  {
    assert (log + [entry])[..|log|] == log;
  }

  lemma {:induction false} BusyUpdate(threads: seq<Pc>, i: nat, pc: Pc, n: nat)
    requires i < |threads| && n <= |threads|
    ensures Busy(threads[i := pc], n)
         == Busy(threads, n) + if i < n then |InService(pc)| - |InService(threads[i])| else 0
  {
    if n > 0 {
      BusyUpdate(threads, i, pc, n - 1);
    }
  }

  lemma StreamsInSnoc(log: Log, entry: (Stream, nat))
    ensures StreamsIn(log + [entry]) == StreamsIn(log) + [entry.0]
  {
  }

  predicate HasLeft(pc: Pc) {
    pc.LeavingLoop? || OnTheWayOut(pc)
  }

  /** A step that neither accepts, hands over nor drops a stream. */
  lemma IdleConserved(s: State, t: State)
    requires Conserved(s)
    requires t.accepted == s.accepted && t.handed == s.handed && t.discarded == s.discarded
    requires Held(AcceptorPc(t)) == Held(AcceptorPc(s))
    requires HasLeft(AcceptorPc(s)) ==> HasLeft(AcceptorPc(t))
    ensures Conserved(t)
  {
  }

  /** The acceptor leaves its loop, dropping the stream it holds, if any. */
  lemma DropsConserved(s: State, t: State)
    requires Conserved(s) && !HasLeft(AcceptorPc(s)) && HasLeft(AcceptorPc(t))
    requires t.accepted == s.accepted && t.handed == s.handed
    requires t.discarded == s.discarded + Held(AcceptorPc(s))
    requires |Held(AcceptorPc(s))| <= 1 && Held(AcceptorPc(t)) == []
    ensures Conserved(t)
  {
    assert s.discarded == [];
  }

  lemma AcceptConserved(s: State, item: Incoming)
    requires Conserved(s) && AcceptorEnabled(s, Accept(item))
    ensures Conserved(ApplyAcceptor(s, Accept(item)))
  {
    assert s.discarded == [] && Held(AcceptorPc(s)) == [];
  }

  lemma AcceptorConserved(s: State, c: AcceptorStep)
    requires Conserved(s) && AcceptorEnabled(s, c)
    ensures Conserved(ApplyAcceptor(s, c))
  {
    var t := ApplyAcceptor(s, c);
    if c.Accept? {
      AcceptConserved(s, c.item);
    } else if c.SendTimeout? || c.SendDisconnected? || (c.CheckRead? && s.recorded.Some?) {
      DropsConserved(s, t);
    } else {
      IdleConserved(s, t);
    }
  }

  lemma ReceiveConserved(s: State, i: nat)
    requires Conserved(s) && WorkerEnabled(s, i, Receive)
    ensures Conserved(ApplyWorker(s, i, Receive))
  {
    StreamsInSnoc(s.handed, (AcceptorPc(s).stream, i));
  }

  lemma MainConserved(s: State, m: MainStep)
    requires Handles(s) && Conserved(s) && MainEnabled(s, m)
    ensures Conserved(ApplyMain(s, m))
  {
    assert !m.Spawn? ==> ApplyMain(s, m).threads == s.threads;
    IdleConserved(s, ApplyMain(s, m));
  }

  lemma ExitConserved(s: State, i: nat, x: ExitStep)
    requires Conserved(s) && ExitEnabled(s, i, x)
    ensures Conserved(ApplyExit(s, i, x))
  {
    IdleConserved(s, ApplyExit(s, i, x));
  }

  lemma StepConserved(s: State, a: Action)
    requires Handles(s) && Conserved(s) && Enabled(s, a)
    ensures Conserved(Apply(s, a))
  {
    match a
    case OfMain(m) => MainConserved(s, m);
    case OfWorker(i, w) => if w.Receive? { ReceiveConserved(s, i); } else { IdleConserved(s, Apply(s, a)); }
    case OfAcceptor(c) => AcceptorConserved(s, c);
    case OfExit(i, x) => ExitConserved(s, i, x);
  }

  /** A step that moves one thread without starting or ending any service. */
  lemma IdleServed(s: State, t: State, i: nat, pc: Pc)
    requires Served(s) && i < |s.threads|
    requires InService(pc) == InService(s.threads[i]) && Losses(pc) == Losses(s.threads[i])
    requires t.workers == s.workers && t.threads == s.threads[i := pc]
    requires t.handed == s.handed && t.finished == s.finished && t.lost == s.lost
    ensures Served(t)
  {
    BusyUpdate(s.threads, i, pc, s.workers);
    forall j: nat | j < s.workers
      ensures ServedBy(t, j)
    {
      assert ServedBy(s, j);
    }
  }

  lemma TakesAccounts(handed: Log, finished: Log, lost: Log, i: nat, pc: Pc, stream: Stream)
    requires Accounts(handed, finished, lost, i, pc) && pc.Receiving?
    ensures Accounts(handed + [(stream, i)], finished, lost, i, Reading(stream))
  {
    OfSnoc(handed, (stream, i), i);
  }

  lemma FinishesAccounts(handed: Log, finished: Log, lost: Log, i: nat, pc: Pc)
    requires Accounts(handed, finished, lost, i, pc) && Serving(pc)
    ensures Accounts(handed, finished + [(pc.stream, i)], lost, i, Receiving)
  {
    OfSnoc(finished, (pc.stream, i), i);
    assert Of(lost, i) == [];
    NothingBetween(Of(finished, i), pc.stream);
  }

  lemma NothingBetween(front: seq<Stream>, x: Stream)
    ensures front + [] + [x] == front + [x] + [] + []
  {
  }

  lemma LosesAccounts(handed: Log, finished: Log, lost: Log, i: nat, pc: Pc)
    requires Accounts(handed, finished, lost, i, pc) && Serving(pc)
    ensures Accounts(handed, finished, lost + [(pc.stream, i)], i, DropLocking(Panicked))
  {
    OfSnoc(lost, (pc.stream, i), i);
  }

  lemma ReceiveServed(s: State, i: nat)
    requires Roles(s) && Served(s) && WorkerEnabled(s, i, Receive)
    ensures Served(ApplyWorker(s, i, Receive))
  {
    var t, stream := ApplyWorker(s, i, Receive), AcceptorPc(s).stream;
    BusyUpdate(s.threads, i, Reading(stream), s.workers);
    BusyUpdate(s.threads[i := Reading(stream)], s.workers, Accepting, s.workers);
    forall j: nat | j < s.workers
      ensures ServedBy(t, j)
    {
      assert ServedBy(s, j);
      if j == i {
        TakesAccounts(s.handed, s.finished, s.lost, i, s.threads[i], stream);
      } else {
        OfSnoc(s.handed, (stream, i), j);
      }
    }
  }

  /** What worker i finishes or loses is no concern of worker j. */
  lemma OthersAccounts(handed: Log, finished: Log, lost: Log, i: nat, j: nat, pc: Pc, stream: Stream)
    requires Accounts(handed, finished, lost, j, pc) && i != j
    ensures Accounts(handed, finished + [(stream, i)], lost, j, pc)
    ensures Accounts(handed, finished, lost + [(stream, i)], j, pc)
  {
    OfSnoc(finished, (stream, i), j);
    OfSnoc(lost, (stream, i), j);
  }

  /** The worker is done with the stream it was serving, and waits for the next one. */
  lemma FinishServed(s: State, i: nat, t: State)
    requires Served(s) && i < s.workers && Serving(s.threads[i])
    requires t.workers == s.workers && t.threads == s.threads[i := Receiving]
    requires t.handed == s.handed && t.lost == s.lost && t.finished == s.finished + [(s.threads[i].stream, i)]
    ensures Served(t)
  {
    BusyUpdate(s.threads, i, Receiving, s.workers);
    forall j: nat | j < s.workers
      ensures ServedBy(t, j)
    {
      FinishServedBy(s, i, t, j);
    }
  }

  lemma FinishServedBy(s: State, i: nat, t: State, j: nat)
    requires j < s.workers && ServedBy(s, j) && i < s.workers && Serving(s.threads[i])
    requires t.workers == s.workers && t.threads == s.threads[i := Receiving]
    requires t.handed == s.handed && t.lost == s.lost && t.finished == s.finished + [(s.threads[i].stream, i)]
    ensures ServedBy(t, j)
  {
    if j == i {
      FinishesAccounts(s.handed, s.finished, s.lost, i, s.threads[i]);
    } else {
      OthersAccounts(s.handed, s.finished, s.lost, i, j, s.threads[j], s.threads[i].stream);
    }
  }

  lemma PanicServed(s: State, i: nat, t: State)
    requires Served(s) && i < s.workers && Serving(s.threads[i])
    requires t == At(s, i, DropLocking(Panicked)).(lost := s.lost + [(s.threads[i].stream, i)])
    ensures Served(t)
  {
    BusyUpdate(s.threads, i, DropLocking(Panicked), s.workers);
    forall j: nat | j < s.workers
      ensures ServedBy(t, j)
    {
      PanicServedBy(s, i, t, j);
    }
  }

  lemma PanicServedBy(s: State, i: nat, t: State, j: nat)
    requires j < s.workers && ServedBy(s, j) && i < s.workers && Serving(s.threads[i])
    requires t == At(s, i, DropLocking(Panicked)).(lost := s.lost + [(s.threads[i].stream, i)])
    ensures ServedBy(t, j)
  {
    if j == i {
      LosesAccounts(s.handed, s.finished, s.lost, i, s.threads[i]);
    } else {
      OthersAccounts(s.handed, s.finished, s.lost, i, j, s.threads[j], s.threads[i].stream);
    }
  }

  lemma WorkerServed(s: State, i: nat, w: WorkerStep)
    requires Roles(s) && Served(s) && WorkerEnabled(s, i, w)
    ensures Served(ApplyWorker(s, i, w))
  {
    var t := ApplyWorker(s, i, w);
    match w
    case Receive => ReceiveServed(s, i);
    case Panic => PanicServed(s, i, t);
    case GiveUp => FinishServed(s, i, t);
    case WriteReturns => FinishServed(s, i, t);
    case _ => IdleServed(s, t, i, t.threads[i]);
  }

  lemma StepServed(s: State, a: Action)
    requires Roles(s) && Handles(s) && Served(s) && Enabled(s, a)
    ensures Served(Apply(s, a))
  {
    match a
    case OfMain(m) => MainServed(s, m);
    case OfWorker(i, w) => WorkerServed(s, i, w);
    case OfAcceptor(c) => AcceptorServed(s, c);
    case OfExit(i, x) => ExitServed(s, i, x);
  }

  lemma AcceptorServed(s: State, c: AcceptorStep)
    requires Roles(s) && Served(s) && AcceptorEnabled(s, c)
    ensures Served(ApplyAcceptor(s, c))
  {
    var t := ApplyAcceptor(s, c);
    IdleServed(s, t, s.workers, t.threads[s.workers]);
  }

  lemma ExitServed(s: State, i: nat, x: ExitStep)
    requires Served(s) && ExitEnabled(s, i, x)
    ensures Served(ApplyExit(s, i, x))
  {
    var t := ApplyExit(s, i, x);
    IdleServed(s, t, i, t.threads[i]);
  }

  lemma MainServed(s: State, m: MainStep)
    requires Handles(s) && Served(s) && MainEnabled(s, m)
    ensures Served(ApplyMain(s, m))
  {
    var t := ApplyMain(s, m);
    if m.Spawn? {
      var k := |s.handles|;
      IdleServed(s, t, k, StartOf(BodyOf(s.workers, k)));
    } else {
      assert t.threads == s.threads && t.handed == s.handed && t.finished == s.finished && t.lost == s.lost;
      assert forall j: nat :: j < s.workers && ServedBy(s, j) ==> ServedBy(t, j);
    }
  }

  lemma {:induction false} InitServed(threads: seq<Pc>, n: nat)
    requires n <= |threads| && forall i :: 0 <= i < |threads| ==> threads[i].NotSpawned?
    ensures Busy(threads, n) == 0
  {
    if n > 0 {
      InitServed(threads, n - 1);
    }
  }

  lemma {:induction false} RunKeepsStreams(s: State, actions: seq<Action>)
    requires Inv(s) && Conserved(s) && Served(s) && IsRun(s, actions)
    ensures Conserved(After(s, actions)) && Served(After(s, actions))
    decreases |actions|
  {
    if actions != [] {
      StepKeepsInv(s, actions[0]);
      StepConserved(s, actions[0]);
      StepServed(s, actions[0]);
      RunKeepsStreams(Apply(s, actions[0]), actions[1..]);
    }
  }

  lemma ReachableStreams(s: State)
    requires Reachable(s)
    ensures Inv(s) && Conserved(s) && Served(s)
  {
    var start := Init(s.workers);
    var actions :| IsRun(start, actions) && After(start, actions) == s;
    InitInv(s.workers);
    InitServed(start.threads, s.workers);
    RunKeepsStreams(start, actions);
    RunKeepsInv(start, actions);
  }

  /** Every finished stream was answered or given up, and none both. */
  ghost predicate Split(s: State) {
    multiset(s.finished) == multiset(s.answered) + multiset(s.gaveUp)
  }

  lemma StepSplit(s: State, a: Action)
    requires Split(s) && Enabled(s, a)
    ensures Split(Apply(s, a))
  {
    if a.OfWorker? && (a.worker.GiveUp? || a.worker.WriteReturns?) {
      EndingSplit(s, a.i, a.worker);
    } else {
      NoEnding(s, a);
    }
  }

  lemma EndingSplit(s: State, i: nat, w: WorkerStep)
    requires Split(s) && WorkerEnabled(s, i, w) && (w.GiveUp? || w.WriteReturns?)
    ensures Split(ApplyWorker(s, i, w))
  {
  }

  lemma NoEnding(s: State, a: Action)
    requires Enabled(s, a) && !(a.OfWorker? && (a.worker.GiveUp? || a.worker.WriteReturns?))
    ensures
      var t := Apply(s, a);
      t.finished == s.finished && t.answered == s.answered && t.gaveUp == s.gaveUp
  {
    match a
    case OfMain(_) =>
    case OfWorker(_, _) =>
    case OfAcceptor(_) =>
    case OfExit(_, _) =>
  }

  lemma {:induction false} RunKeepsSplit(s: State, actions: seq<Action>)
    requires Split(s) && IsRun(s, actions)
    ensures Split(After(s, actions))
    decreases |actions|
  {
    if actions != [] {
      StepSplit(s, actions[0]);
      RunKeepsSplit(Apply(s, actions[0]), actions[1..]);
    }
  }

  // ---------- what follows for every run ----------

  /** A stream is logged as answered by the return of write_all alone, and as given up by GiveUp alone. */
  lemma AnsweredByWriting(s: State, a: Action)
    requires Enabled(s, a)
    ensures a.OfWorker? && a.worker.WriteReturns? ==>
      s.threads[a.i].Writing? && Apply(s, a).answered == s.answered + [(s.threads[a.i].stream, a.i)]
    ensures !(a.OfWorker? && a.worker.WriteReturns?) ==> Apply(s, a).answered == s.answered
    ensures a.OfWorker? && a.worker.GiveUp? ==>
      s.threads[a.i].Handling? && Apply(s, a).gaveUp == s.gaveUp + [(s.threads[a.i].stream, a.i)]
    ensures !(a.OfWorker? && a.worker.GiveUp?) ==> Apply(s, a).gaveUp == s.gaveUp
  {
  }

  /** What workers finish is what they answer and what they give up. */
  lemma FinishedStreams(s: State)
    requires Reachable(s)
    ensures multiset(s.finished) == multiset(s.answered) + multiset(s.gaveUp)
  {
    var start := Init(s.workers);
    var actions :| IsRun(start, actions) && After(start, actions) == s;
    RunKeepsSplit(start, actions);
  }

  /**
   The handed-off streams are a prefix of the accepted ones, in order; of the rest
   there is at most one, held by the acceptor or dropped by it on leaving its loop.
   */
  lemma StreamsAreConserved(s: State)
    requires Reachable(s)
    ensures s.accepted == StreamsIn(s.handed) + Held(AcceptorPc(s)) + s.discarded
    ensures |s.accepted| <= |s.handed| + 1
    ensures s.discarded != [] ==> AcceptorPc(s).LeavingLoop? || OnTheWayOut(AcceptorPc(s))
  {
    ReachableStreams(s);
  }

  /**
   The streams handed to a worker are, in order, those it has finished and at most one
   more: the one it is serving, or, just when it left by a panic, the one it lost.
   */
  lemma ServedExactlyOnce(s: State, i: nat)
    requires Reachable(s) && i < s.workers
    ensures Of(s.handed, i) == Of(s.finished, i) + Of(s.lost, i) + InService(s.threads[i])
    ensures |Of(s.lost, i)| == if OnTheWayOut(s.threads[i]) && s.threads[i].outcome.Panicked? then 1 else 0
    ensures forall k :: 0 <= k < |s.handed| ==> s.handed[k].1 < s.workers
  {
    ReachableStreams(s);
    assert ServedBy(s, i);
  }

  /** Accepted streams not finished, lost or dropped: one per worker at most, and one with the acceptor. */
  lemma InProcessBound(s: State)
    requires Reachable(s)
    ensures
      var done := |s.finished| + |s.lost| + |s.discarded|;
      done <= |s.accepted| <= done + s.workers + 1
  {
    ReachableStreams(s);
  }

  /**
   A graceful shutdown leaves nothing behind but what the acceptor dropped, at most one
   stream, and one stream for each worker that panicked.
   */
  lemma GracefulShutdownServesAll(s: State, i: nat)
    requires Reachable(s) && s.main.Finished?
    ensures s.accepted == StreamsIn(s.handed) + s.discarded && |s.discarded| <= 1
    ensures |s.handed| == |s.finished| + |s.lost|
    ensures i < s.workers ==> Of(s.handed, i) == Of(s.finished, i) + Of(s.lost, i)
    ensures i < s.workers ==> |Of(s.lost, i)| == if s.threads[i] == Exited(Panicked) then 1 else 0
  {
    AllExited(s);
    StreamsKept(s);
    NothingLeft(s);
    if i < s.workers {
      ServedOut(s, i);
    }
  }

  lemma NothingLeft(s: State)
    requires Conserved(s) && Served(s)
    requires forall k :: 0 <= k < |s.threads| ==> s.threads[k].Exited?
    ensures s.accepted == StreamsIn(s.handed) + s.discarded && |s.discarded| <= 1
    ensures |s.handed| == |s.finished| + |s.lost|
  {
    assert Held(AcceptorPc(s)) == [];
    NoneBusy(s.threads, s.workers);
  }

  lemma AllExited(s: State)
    requires Reachable(s) && s.main.Finished?
    ensures forall k :: 0 <= k < |s.threads| ==> s.threads[k].Exited?
  {
    forall k | 0 <= k < |s.threads|
      ensures s.threads[k].Exited?
    {
      Join.FinishedMeansAllExited(s, k);
    }
  }

  lemma StreamsKept(s: State)
    requires Reachable(s)
    ensures Conserved(s) && Served(s)
  {
    ReachableStreams(s);
  }

  lemma ServedOut(s: State, i: nat)
    requires Served(s) && i < s.workers && s.threads[i].Exited?
    ensures Of(s.handed, i) == Of(s.finished, i) + Of(s.lost, i)
    ensures |Of(s.lost, i)| == if s.threads[i] == Exited(Panicked) then 1 else 0
  {
    assert ServedBy(s, i);
  }

  lemma {:induction false} NoneBusy(threads: seq<Pc>, n: nat)
    requires n <= |threads| && forall i :: 0 <= i < |threads| ==> threads[i].Exited?
    ensures Busy(threads, n) == 0
  {
    if n > 0 {
      NoneBusy(threads, n - 1);
    }
  }

  /** A worker sees the channel closed iff the acceptor has stopped; the acceptor iff every worker has ended. */
  lemma DisconnectsAreReal(s: State, i: nat)
    requires Reachable(s) && i < s.workers
    ensures WorkerEnabled(s, i, ReceiveDisconnected) <==> s.threads[i].Receiving? && OnTheWayOut(AcceptorPc(s))
    ensures AcceptorEnabled(s, SendDisconnected)
       <==> AcceptorPc(s).Sending? && forall j :: 0 <= j < s.workers ==> s.threads[j].Exited?
    ensures OnTheWayOut(s.threads[i]) && !OnTheWayOut(AcceptorPc(s)) ==> s.threads[i].outcome.Panicked?
  {
    ReachableInv(s);
  }

  // ---------- after the shutdown flag is set ----------

  /** A stream that already passed its is_shutdown check may still be handed over. */
  function Credit(s: State): nat {
    if AcceptorPc(s).Sending? then 1 else 0
  }

  /** The next state has no more handoffs ahead of it than this one, counting those already made. */
  ghost predicate NoMoreHandoffs(s: State, t: State) {
    && t.recorded.Some? && s.handed <= t.handed
    && |t.handed| + Credit(t) <= |s.handed| + Credit(s)
  }

  lemma MainHandoff(s: State, m: MainStep)
    requires Handles(s) && MainEnabled(s, m) && s.recorded.Some?
    ensures NoMoreHandoffs(s, ApplyMain(s, m))
  {
    if !m.Spawn? {
      assert ApplyMain(s, m).threads == s.threads;
    }
  }

  lemma WorkerHandoff(s: State, i: nat, w: WorkerStep)
    requires WorkerEnabled(s, i, w) && s.recorded.Some?
    ensures NoMoreHandoffs(s, ApplyWorker(s, i, w))
  {
  }

  lemma AcceptorHandoff(s: State, c: AcceptorStep)
    requires AcceptorEnabled(s, c) && s.recorded.Some?
    ensures NoMoreHandoffs(s, ApplyAcceptor(s, c))
  {
  }

  lemma ExitHandoff(s: State, i: nat, x: ExitStep)
    requires ExitEnabled(s, i, x) && s.recorded.Some?
    ensures NoMoreHandoffs(s, ApplyExit(s, i, x))
  {
  }

  lemma HandoffStep(s: State, a: Action)
    requires Handles(s) && Enabled(s, a) && s.recorded.Some?
    ensures NoMoreHandoffs(s, Apply(s, a))
  {
    match a
    case OfMain(m) => MainHandoff(s, m);
    case OfWorker(i, w) => WorkerHandoff(s, i, w);
    case OfAcceptor(c) => AcceptorHandoff(s, c);
    case OfExit(i, x) => ExitHandoff(s, i, x);
  }

  lemma {:induction false} HandoffsAfterShutdown(s: State, later: seq<Action>)
    requires Inv(s) && IsRun(s, later) && s.recorded.Some?
    ensures |After(s, later).handed| + Credit(After(s, later)) <= |s.handed| + Credit(s)
    ensures s.handed <= After(s, later).handed
    decreases |later|
  {
    if later != [] {
      StepKeepsInv(s, later[0]);
      HandoffStep(s, later[0]);
      HandoffsAfterShutdown(Apply(s, later[0]), later[1..]);
    }
  }

  /**
   Once a first exiter is recorded, at most one more stream ever reaches a worker,
   and that one only if it was already past its is_shutdown check.
   */
  lemma AtMostOneHandoffAfterShutdown(s: State, later: seq<Action>)
    requires Reachable(s) && s.recorded.Some? && IsRun(s, later)
    ensures s.handed <= After(s, later).handed
    ensures |After(s, later).handed| <= |s.handed| + 1
    ensures !AcceptorPc(s).Sending? ==> After(s, later).handed == s.handed
  {
    ReachableInv(s);
    HandoffsAfterShutdown(s, later);
  }
}
