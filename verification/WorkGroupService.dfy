/**
 The pool with the requests its workers handle: what `handle_stream` makes of the bytes
 that a client sent decides each worker's step, and with it what the client gets.
 */
module WorkGroupService {
  import opened Results
  import opened WireFormat
  import opened Protocol
  import opened WorkGroup
  import opened WorkGroupSafety
  import opened WorkGroupStreams
  import Dispatch
  import EndToEnd

  /** What every worker is given, and what each client sends. */
  datatype Service = Service(
    ignored: set<RequestType>, backend: Dispatch.Backend, overflowChecks: bool, sent: Stream -> seq<Byte>)

  function ReactionOf(v: Service, stream: Stream): Dispatch.Reaction {
    Dispatch.HandleStream(v.ignored, v.backend, v.sent(stream), v.overflowChecks)
  }

  /** The step of a worker that has read a request: write the reply, return without one, or unwind. */
  function StepFor(reaction: Dispatch.Reaction): WorkerStep {
    match reaction
    case Replies(_) => Answer
    case Silent => GiveUp
    case Panics => Panic
    case Dies => Panic
  }

  /** What a worker handling a request does is what the request asks for. */
  predicate Obeys(v: Service, s: State, a: Action) {
    a.OfWorker? && a.i < |s.threads| && s.threads[a.i].Handling? ==>
      a.worker == StepFor(ReactionOf(v, s.threads[a.i].stream))
  }

  ghost predicate AllObey(v: Service, s: State, actions: seq<Action>)
    requires IsRun(s, actions)
    decreases |actions|
  {
    actions == [] || (Obeys(v, s, actions[0]) && AllObey(v, Apply(s, actions[0]), actions[1..]))
  }

  /** The states of the pool in which these requests are being served. */
  ghost predicate ServiceReaches(v: Service, s: State) {
    exists actions ::
      IsRun(Init(s.workers), actions) && AllObey(v, Init(s.workers), actions) && After(Init(s.workers), actions) == s
  }

  /** From wherever a worker handles a request, the step for it is possible, and leads where `handle_stream` goes on. */
  lemma HandlingFollowsTheRequest(v: Service, s: State, i: nat)
    requires Reachable(s) && !Terminal(s.main) && i < s.workers && s.threads[i].Handling?
    ensures
      var stream := s.threads[i].stream;
      var a := OfWorker(i, StepFor(ReactionOf(v, stream)));
      && Enabled(s, a)
      && match ReactionOf(v, stream)
         case Replies(_) => Apply(s, a).threads[i] == Writing(stream)
         case Silent => Apply(s, a).threads[i] == Receiving && Apply(s, a).gaveUp == s.gaveUp + [(stream, i)]
         case Panics => Apply(s, a).threads[i] == DropLocking(Panicked) && Apply(s, a).lost == s.lost + [(stream, i)]
         case Dies => Apply(s, a).threads[i] == DropLocking(Panicked) && Apply(s, a).lost == s.lost + [(stream, i)]
  {
  }

  // ---------- the logs tell the truth about the requests ----------

  ghost predicate Truthful(v: Service, s: State) {
    && (forall entry :: entry in s.answered ==> ReactionOf(v, entry.0).Replies?)
    && (forall entry :: entry in s.gaveUp ==> ReactionOf(v, entry.0).Silent?)
    && (forall entry :: entry in s.lost ==> StepFor(ReactionOf(v, entry.0)) == Panic)
    && (forall i :: 0 <= i < |s.threads| && s.threads[i].Writing? ==> ReactionOf(v, s.threads[i].stream).Replies?)
  }

  lemma WorkerIsTruthful(v: Service, s: State, i: nat, w: WorkerStep)
    requires Truthful(v, s) && WorkerEnabled(s, i, w) && Obeys(v, s, OfWorker(i, w))
    ensures Truthful(v, ApplyWorker(s, i, w))
  {
    var t := ApplyWorker(s, i, w);
    if w.GiveUp? || w.WriteReturns? || w.Panic? {
      var entry := (s.threads[i].stream, i);
      assert forall e :: e in s.gaveUp + [entry] <==> e in s.gaveUp || e == entry;
      assert forall e :: e in s.answered + [entry] <==> e in s.answered || e == entry;
      assert forall e :: e in s.lost + [entry] <==> e in s.lost || e == entry;
    }
  }

  /** A step that logs nothing and lets nobody start to write. */
  lemma SameLogs(v: Service, s: State, t: State)
    requires Truthful(v, s) && |t.threads| == |s.threads|
    requires t.answered == s.answered && t.gaveUp == s.gaveUp && t.lost == s.lost
    requires forall i :: 0 <= i < |t.threads| && t.threads[i].Writing? ==> t.threads[i] == s.threads[i]
    ensures Truthful(v, t)
  {
  }

  lemma MainIsTruthful(v: Service, s: State, m: MainStep)
    requires Handles(s) && Truthful(v, s) && MainEnabled(s, m)
    ensures Truthful(v, ApplyMain(s, m))
  {
    assert !m.Spawn? ==> ApplyMain(s, m).threads == s.threads;
    SameLogs(v, s, ApplyMain(s, m));
  }

  lemma AcceptorIsTruthful(v: Service, s: State, c: AcceptorStep)
    requires Truthful(v, s) && AcceptorEnabled(s, c)
    ensures Truthful(v, ApplyAcceptor(s, c))
  {
    SameLogs(v, s, ApplyAcceptor(s, c));
  }

  lemma ExitIsTruthful(v: Service, s: State, i: nat, x: ExitStep)
    requires Truthful(v, s) && ExitEnabled(s, i, x)
    ensures Truthful(v, ApplyExit(s, i, x))
  {
    SameLogs(v, s, ApplyExit(s, i, x));
  }

  lemma StepIsTruthful(v: Service, s: State, a: Action)
    requires Handles(s) && Truthful(v, s) && Enabled(s, a) && Obeys(v, s, a)
    ensures Truthful(v, Apply(s, a))
  {
    match a
    case OfMain(m) => MainIsTruthful(v, s, m);
    case OfWorker(i, w) => WorkerIsTruthful(v, s, i, w);
    case OfAcceptor(c) => AcceptorIsTruthful(v, s, c);
    case OfExit(i, x) => ExitIsTruthful(v, s, i, x);
  }

  lemma {:induction false} RunIsTruthful(v: Service, s: State, actions: seq<Action>)
    requires Inv(s) && Truthful(v, s) && IsRun(s, actions) && AllObey(v, s, actions)
    ensures Truthful(v, After(s, actions))
    decreases |actions|
  {
    if actions != [] {
      StepKeepsInv(s, actions[0]);
      StepIsTruthful(v, s, actions[0]);
      RunIsTruthful(v, Apply(s, actions[0]), actions[1..]);
    }
  }

  // ---------- what follows for every run ----------

  /**
   In any run in which workers do what the requests ask for, the streams logged as
   answered are ones with a reply, those given up have none, and those lost made
   their worker unwind.
   */
  lemma ServedAsAsked(v: Service, s: State, x: Stream, i: nat)
    requires ServiceReaches(v, s)
    ensures (x, i) in s.answered ==> ReactionOf(v, x).Replies?
    ensures (x, i) in s.gaveUp ==> ReactionOf(v, x) == Dispatch.Silent
    ensures (x, i) in s.lost ==> ReactionOf(v, x).Panics? || ReactionOf(v, x).Dies?
  {
    var start := Init(s.workers);
    var actions :| IsRun(start, actions) && AllObey(v, start, actions) && After(start, actions) == s;
    InitInv(s.workers);
    RunIsTruthful(v, start, actions);
  }

  lemma ServiceIsReachable(v: Service, s: State)
    requires ServiceReaches(v, s)
    ensures Reachable(s)
  {
    var actions :| IsRun(Init(s.workers), actions) && AllObey(v, Init(s.workers), actions)
                   && After(Init(s.workers), actions) == s;
  }

  lemma {:induction false} HasEntry(log: Log, x: Stream, i: nat)
    ensures x in Of(log, i) <==> (x, i) in log
  {
    if log != [] {
      var front, last := log[..|log| - 1], log[|log| - 1];
      assert log == front + [last];
      HasEntry(front, x, i);
    }
  }

  lemma FinishedOrLost(s: State, x: Stream, i: nat)
    requires Reachable(s) && s.main.Finished? && (x, i) in s.handed
    ensures (x, i) in s.answered || (x, i) in s.gaveUp || (x, i) in s.lost
  {
    StreamsKept(s);
    GracefulShutdownServesAll(s, i);
    HasEntry(s.handed, x, i);
    HasEntry(s.finished, x, i);
    HasEntry(s.lost, x, i);
    FinishedStreams(s);
    assert (x, i) in s.finished ==> (x, i) in multiset(s.finished);
  }

  /**
   After a graceful shutdown, what became of a stream handed to worker i is what its
   request asked for: every reply there was has been written, by that worker.
   */
  lemma EveryReplyIsWritten(v: Service, s: State, x: Stream, i: nat)
    requires ServiceReaches(v, s) && s.main.Finished? && (x, i) in s.handed
    ensures match ReactionOf(v, x)
            case Replies(_) => (x, i) in s.answered
            case Silent => (x, i) in s.gaveUp
            case Panics => (x, i) in s.lost
            case Dies => (x, i) in s.lost
  {
    ServiceIsReachable(v, s);
    FinishedOrLost(s, x, i);
    ServedAsAsked(v, s, x, i);
  }

  /** Bytes that make parsing panic: version 2, a known type, and a length from -12 to -1 or one that overflows. */
  predicate Aborting(sent: seq<Byte>, overflowChecks: bool) {
    && |sent| >= 12 && Field(sent, 0) == 2 && 0 <= Field(sent, 4) <= 22
    && (-12 <= Field(sent, 8) <= -1 || (overflowChecks && Field(sent, 8) > 0x7FFF_FFF3))
  }

  lemma PanicsAreAborts(v: Service, x: Stream)
    ensures ReactionOf(v, x).Panics? <==> Aborting(v.sent(x), v.overflowChecks)
  {
    EndToEnd.WhenWorkersPanic(v.ignored, v.backend, v.sent(x), v.overflowChecks);
  }

  lemma PanickedHasLost(s: State, i: nat) returns (x: Stream)
    requires Reachable(s) && i < |s.threads| && OnTheWayOut(s.threads[i]) && s.threads[i].outcome.Panicked?
    ensures i < s.workers && Of(s.lost, i) == [x]
  {
    ReachableInv(s);
    ServedExactlyOnce(s, i);
    x := Of(s.lost, i)[0];
  }

  /** A thread leaves by a panic only over the bytes of one client that it was handed, or when memory runs out. */
  lemma PanicHasACause(v: Service, s: State, i: nat) returns (x: Stream)
    requires ServiceReaches(v, s)
    requires i < |s.threads| && OnTheWayOut(s.threads[i]) && s.threads[i].outcome.Panicked?
    ensures i < s.workers && (x, i) in s.lost
    ensures Aborting(v.sent(x), v.overflowChecks) || ReactionOf(v, x).Dies?
  {
    ServiceIsReachable(v, s);
    x := PanickedHasLost(s, i);
    HasEntry(s.lost, x, i);
    ServedAsAsked(v, s, x, i);
    PanicsAreAborts(v, x);
  }
}
