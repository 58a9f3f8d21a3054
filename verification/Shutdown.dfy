/**
 * The stop protocol of a Runtime: the health server closes, every worker is
 * drained concurrently under the caller's deadline, a worker that runs over is
 * cancelled and awaited on a separate grace, and only then do the Redis clients
 * close. It is a step system with any number of workers, each holding any set of
 * in-flight handlers, any number of concurrent Shutdown callers and a clock.
 *
 * The clock advances only while every goroutine of the protocol is blocked, and
 * never past a deadline that one of them is waiting for.
 */
module Shutdown {
  import opened Prelude

  type WorkerId = nat
  type Job = nat
  type Caller = nat

  /** Where one worker's drainWorker (or rollback Stop) goroutine stands. */
  datatype Phase =
    | Serving                 // dequeueing; nobody has asked it to stop
    | Spawned                 // its drainWorker goroutine exists, Drain is not called yet
    | Draining                // inside Drain(ctx)
    | DrainFailed             // Drain returned an error, having cancelled the handlers
    | Unwinding(until: nat)   // inside Stop(unwindCtx)
    | Finished(failed: bool)  // the goroutine returned, with or without an error

  datatype Worker = Worker(phase: Phase, inFlight: set<Job>, cancelled: set<Job>)

  datatype Stage =
    | Running
    | ClosingServer | StoppingWorkers | ClosingClients | Done   // Shutdown
    | Aborting | Aborted                                        // startup rollback

  /** What Shutdown has done to the Redis clients, and what it reports. */
  datatype Ledger = Ledger(
    clientOpen: bool,
    probeOpen: bool,
    closes: nat,               // Close calls made on the two Redis clients
    workersFailed: bool,       // the worker phase reported an error
    failed: bool,              // the accumulated result of Shutdown
    callers: map<Caller, Option<bool>>)  // None: still inside Shutdown

  datatype System = System(
    grace: nat,
    hasServer: bool,
    started: bool,             // rt.started, set when Start begins
    stopped: bool,             // rt.stopped
    now: nat,
    stage: Stage,
    deadline: Option<nat>,     // when the winning caller's ctx ends; None: never
    startedAt: nat,            // when the winning Shutdown, or the rollback, began
    endedAt: Option<nat>,      // when the last worker goroutine was joined
    workers: map<WorkerId, Worker>,
    ledger: Ledger)

  /** A step of one worker or of the goroutine that stops it. */
  datatype Move =
    | Dequeue(job: Job)
    | HandlerReturn(job: Job)
    | DrainCall
    | DrainOk
    | DrainExpire
    | StopCall
    | StopOk
    | StopExpire

  datatype Event =
    | On(w: WorkerId, move: Move)
    | Tick(to: nat)
    | Call(caller: Caller, ctxEnd: Option<nat>)
    | ServerClosed(failed: bool)
    | WorkersJoined
    | ClientClosed(failed: bool)
    | ProbeClosed(failed: bool)
    | MarkStopped
    | Return(caller: Caller)
    | Abort
    | AbortJoined

  ghost predicate AllFinished(s: System) {
    forall w :: w in s.workers ==> s.workers[w].phase.Finished?
  }

  ghost predicate AnyFailed(s: System) {
    exists w :: w in s.workers && s.workers[w].phase == Finished(true)
  }

  predicate Expired(deadline: Option<nat>, now: nat) {
    deadline.Some? && deadline.value <= now
  }

  /** Nothing is runnable and no awaited deadline lies before `to`. */
  ghost predicate CanAdvance(s: System, to: nat) {
    && (s.stage.ClosingServer? ==> s.hasServer && (s.deadline.Some? ==> to <= s.deadline.value))
    && (s.stage.StoppingWorkers? || s.stage.Aborting? ==> !AllFinished(s))
    && (s.stage.ClosingClients? ==> s.ledger.probeOpen)
    && forall w :: w in s.workers ==>
      match s.workers[w].phase
      case Spawned => false
      case DrainFailed => false
      case Draining => s.deadline.Some? ==> to <= s.deadline.value
      case Unwinding(u) => to <= u
      case _ => true
  }

  /** mkq's contract: Drain and Stop succeed once idle, and give up when their ctx ends. */
  predicate CanMove(deadline: Option<nat>, now: nat, worker: Worker, m: Move) {
    match m
    case Dequeue(j) => (worker.phase.Serving? || worker.phase.Spawned?) && j !in worker.inFlight
    case HandlerReturn(j) => j in worker.inFlight
    case DrainCall => worker.phase.Spawned?
    case DrainOk => worker.phase.Draining? && worker.inFlight == {}
    case DrainExpire => worker.phase.Draining? && Expired(deadline, now)
    case StopCall => worker.phase.DrainFailed?
    case StopOk => worker.phase.Unwinding? && worker.inFlight == {}
    case StopExpire => worker.phase.Unwinding? && worker.phase.until <= now && worker.inFlight != {}
  }

  /** Cancelling reaches every handler the worker still holds. */
  function CancelInto(worker: Worker, p: Phase): Worker {
    Worker(p, worker.inFlight, worker.cancelled + worker.inFlight)
  }

  function Moved(now: nat, grace: nat, worker: Worker, m: Move): Worker {
    match m
    case Dequeue(j) => worker.(inFlight := worker.inFlight + {j})
    case HandlerReturn(j) => worker.(inFlight := worker.inFlight - {j})
    case DrainCall => worker.(phase := Draining)
    case DrainOk => worker.(phase := Finished(false))
    case DrainExpire => CancelInto(worker, DrainFailed)
    case StopCall => CancelInto(worker, Unwinding(now + grace))
    case StopOk => worker.(phase := Finished(false))
    case StopExpire => worker.(phase := Finished(true))
  }

  ghost predicate Enabled(s: System, e: Event) {
    match e
    case On(w, m) => w in s.workers && CanMove(s.deadline, s.now, s.workers[w], m)
    case Tick(to) => s.now < to && CanAdvance(s, to)
    case Call(c, _) => c !in s.ledger.callers && !s.stage.Aborting? && !s.stage.Aborted?
    case ServerClosed(f) => s.stage.ClosingServer? && (f ==> s.hasServer)
    case WorkersJoined => s.stage.StoppingWorkers? && AllFinished(s)
    case ClientClosed(_) => s.stage.ClosingClients? && s.ledger.clientOpen
    case ProbeClosed(_) => s.stage.ClosingClients? && !s.ledger.clientOpen && s.ledger.probeOpen
    case MarkStopped => s.stage.ClosingClients? && !s.ledger.probeOpen
    case Return(c) => s.stage.Done? && c in s.ledger.callers && s.ledger.callers[c].None?
    case Abort => s.stage.Running?
    case AbortJoined => s.stage.Aborting? && AllFinished(s)
  }

  ghost function SetWorker(s: System, w: WorkerId, worker: Worker): System {
    s.(workers := s.workers[w := worker])
  }

  /** What an event that is not a worker's own does to each worker. */
  function Swept(s: System, e: Event, worker: Worker): Worker {
    if e.ServerClosed? then worker.(phase := Spawned)
    else if e.Abort? then CancelInto(worker, Unwinding(s.now + s.grace))
    else worker
  }

  ghost function SweptWorkers(s: System, e: Event): map<WorkerId, Worker> {
    map w | w in s.workers :: Swept(s, e, s.workers[w])
  }

  ghost function Apply(s: System, e: Event): System
    requires e.On? ==> e.w in s.workers
  {
    if e.On? then SetWorker(s, e.w, Moved(s.now, s.grace, s.workers[e.w], e.move))
    else Timed(s, e).(
      workers := if e.ServerClosed? || e.Abort? then SweptWorkers(s, e) else s.workers,
      ledger := Recorded(s.ledger, e, AnyFailed(s)))
  }

  function Timed(s: System, e: Event): System {
    match e
    case Tick(to) => s.(now := to)
    case Call(_, d) =>
      if s.stage.Running? then s.(stage := ClosingServer, deadline := d, startedAt := s.now) else s
    case ServerClosed(_) => s.(stage := StoppingWorkers)
    case WorkersJoined => s.(stage := ClosingClients, endedAt := Some(s.now))
    case MarkStopped => s.(stage := Done, stopped := true)
    case Abort => s.(stage := Aborting, startedAt := s.now)
    case AbortJoined => s.(stage := Aborted, endedAt := Some(s.now))
    case _ => s
  }

  function Recorded(l: Ledger, e: Event, anyFailed: bool): Ledger {
    match e
    case Call(c, _) => l.(callers := l.callers[c := None])
    case ServerClosed(f) => l.(failed := f)
    case WorkersJoined => l.(workersFailed := anyFailed, failed := l.failed || anyFailed)
    case ClientClosed(f) => l.(clientOpen := false, closes := l.closes + 1, failed := l.failed || f)
    case ProbeClosed(f) => l.(probeOpen := false, closes := l.closes + 1, failed := l.failed || f)
    case Return(c) => l.(callers := l.callers[c := Some(l.failed)])
    case _ => l
  }

  /** Start has returned (or is about to roll back): workers serve, Redis is open. */
  ghost predicate Init(s: System) {
    && s.stage.Running? && s.started && !s.stopped && s.deadline.None? && s.endedAt.None?
    && s.ledger.clientOpen && s.ledger.probeOpen && s.ledger.closes == 0
    && !s.ledger.workersFailed && !s.ledger.failed && s.ledger.callers == map[]
    && forall w :: w in s.workers ==> s.workers[w].phase.Serving? && s.workers[w].cancelled == {}
  }

  /** An execution: `trace[i+1]` follows `trace[i]` by `events[i]`. */
  ghost predicate IsRun(trace: seq<System>, events: seq<Event>) {
    && |trace| == |events| + 1
    && Init(trace[0])
    && forall i :: 0 <= i < |events| ==> StepAt(trace, events, i)
  }

  ghost predicate StepAt(trace: seq<System>, events: seq<Event>, i: nat)
    requires i < |events| && |trace| == |events| + 1
  {
    Enabled(trace[i], events[i]) && trace[i + 1] == Apply(trace[i], events[i])
  }

  // ----- invariant -----

  /** The latest moment a Drain under `deadline` is still waiting. */
  function DrainLimit(deadline: Option<nat>, startedAt: nat): nat
    requires deadline.Some?
  {
    Max(startedAt, deadline.value)
  }

  ghost predicate InDrainTime(s: System) {
    s.deadline.Some? ==> s.now <= DrainLimit(s.deadline, s.startedAt)
  }

  ghost predicate WithinGrace(s: System, t: nat) {
    if s.stage.Aborting? || s.stage.Aborted? then t <= s.startedAt + s.grace
    else s.deadline.Some? ==> t <= DrainLimit(s.deadline, s.startedAt) + s.grace
  }

  ghost predicate MayCancel(s: System) {
    s.stage.Aborting? || s.stage.Aborted? || Expired(s.deadline, s.now)
  }

  ghost predicate WorkerInv(s: System, worker: Worker) {
    && (worker.cancelled != {} ==> MayCancel(s))
    && match worker.phase
       case Serving => worker.cancelled == {} && (s.stage.Running? || s.stage.ClosingServer?)
       case Spawned => worker.cancelled == {} && s.stage.StoppingWorkers? && InDrainTime(s)
       case Draining => worker.cancelled == {} && s.stage.StoppingWorkers? && InDrainTime(s)
       case DrainFailed => s.stage.StoppingWorkers? && InDrainTime(s) && Expired(s.deadline, s.now)
       case Unwinding(u) =>
         && (s.stage.StoppingWorkers? || s.stage.Aborting?)
         && s.now <= u && WithinGrace(s, u) && MayCancel(s)
       case Finished(failed) =>
         && !s.stage.Running? && !s.stage.ClosingServer?
         && (!failed ==> worker.inFlight == {})
  }

  function StagesLeft(s: System): nat {
    match s.stage
    case ClosingServer => 3
    case StoppingWorkers => 2
    case ClosingClients => 1
    case _ => 0
  }

  ghost predicate WorkersInv(s: System) {
    forall w :: w in s.workers ==> WorkerInv(s, s.workers[w])
  }

  ghost predicate TimingInv(s: System) {
    && (s.deadline.Some? ==> StagesLeft(s) > 0 || s.stage.Done?)
    && (s.stage.ClosingServer? ==> InDrainTime(s))
    && (s.stage.StoppingWorkers? || s.stage.Aborting? ==> WithinGrace(s, s.now))
    && (s.stage.ClosingClients? || s.stage.Done? || s.stage.Aborted? <==> s.endedAt.Some?)
    && (s.endedAt.Some? ==> WithinGrace(s, s.endedAt.value) && AllFinished(s))
    && s.started && (s.stopped <==> s.stage.Done?)
  }

  ghost predicate ResultInv(s: System) {
    && (s.stage.ClosingClients? || s.stage.Done? ==> s.ledger.workersFailed == AnyFailed(s))
    && (s.ledger.workersFailed ==> s.ledger.failed && (s.stage.ClosingClients? || s.stage.Done?))
    && (s.stage.Running? || s.stage.ClosingServer? ==> !s.ledger.failed)
    && (!s.ledger.clientOpen ==> s.stage.ClosingClients? || s.stage.Done?)
    && (!s.ledger.probeOpen ==> !s.ledger.clientOpen)
    && (s.stage.Done? ==> !s.ledger.probeOpen)
    && s.ledger.closes == (if s.ledger.clientOpen then 0 else 1) + (if s.ledger.probeOpen then 0 else 1)
    && (s.stage.Running? || s.stage.Aborting? || s.stage.Aborted? <==> s.ledger.callers == map[])
    && (forall c :: c in s.ledger.callers && s.ledger.callers[c].Some? ==> s.stage.Done? && s.ledger.callers[c].value == s.ledger.failed)
  }

  ghost predicate Inv(s: System) {
    WorkersInv(s) && TimingInv(s) && ResultInv(s)
  }

  lemma MoveKeepsWorkerInv(s: System, worker: Worker, m: Move)
    requires WorkerInv(s, worker) && CanMove(s.deadline, s.now, worker, m)
    ensures WorkerInv(s, Moved(s.now, s.grace, worker, m))
    ensures worker.phase.Finished? ==> Moved(s.now, s.grace, worker, m).phase == worker.phase
  {
  }

  lemma MoveKeepsInv(s: System, w: WorkerId, m: Move)
    requires Inv(s) && Enabled(s, On(w, m))
    ensures Inv(Apply(s, On(w, m)))
  {
    var worker := Moved(s.now, s.grace, s.workers[w], m);
    var s' := SetWorker(s, w, worker);
    assert WorkerInv(s, s.workers[w]);
    MoveKeepsWorkerInv(s, s.workers[w], m);
    forall v | v in s'.workers
      ensures WorkerInv(s', s'.workers[v])
    {
      assert WorkerInv(s, s'.workers[v]);
    }
    if AnyFailed(s) {
      var v :| v in s.workers && s.workers[v].phase == Finished(true);
      assert s'.workers[v].phase == Finished(true);
    }
  }

  lemma SweepKeepsWorkerInv(s: System, e: Event, worker: Worker)
    requires TimingInv(s) && Enabled(s, e) && !e.On?
    requires WorkerInv(s, worker)
    requires e.Tick? ==> exists w :: w in s.workers && s.workers[w] == worker
    requires e.WorkersJoined? || e.AbortJoined? ==> worker.phase.Finished?
    ensures WorkerInv(Timed(s, e), Swept(s, e, worker))
  {
  }

  lemma TickKeepsTiming(s: System, to: nat)
    requires WorkersInv(s) && TimingInv(s) && Enabled(s, Tick(to))
    ensures TimingInv(s.(now := to))
  {
    if s.stage.StoppingWorkers? || s.stage.Aborting? {
      var w :| w in s.workers && !s.workers[w].phase.Finished?;
      assert WorkerInv(s, s.workers[w]);
    }
  }

  lemma GlobalStepKeepsTiming(s: System, e: Event)
    requires WorkersInv(s) && TimingInv(s) && Enabled(s, e) && !e.On?
    ensures TimingInv(Apply(s, e))
  {
    if e.Tick? {
      TickKeepsTiming(s, e.to);
    }
  }

  lemma GlobalStepKeepsResult(s: System, e: Event)
    requires ResultInv(s) && Enabled(s, e) && !e.On?
    ensures ResultInv(Apply(s, e))
  {
  }

  lemma StepKeepsInv(s: System, e: Event)
    requires Inv(s) && Enabled(s, e)
    ensures Inv(Apply(s, e))
  {
    if e.On? {
      MoveKeepsInv(s, e.w, e.move);
    } else {
      var s' := Apply(s, e);
      forall w | w in s'.workers
        ensures WorkerInv(s', s'.workers[w])
      {
        SweepKeepsWorkerInv(s, e, s.workers[w]);
      }
      GlobalStepKeepsTiming(s, e);
      GlobalStepKeepsResult(s, e);
    }
  }

  lemma {:induction false} RunKeepsInv(trace: seq<System>, events: seq<Event>, i: nat)
    requires IsRun(trace, events) && i < |trace|
    ensures Inv(trace[i])
  {
    if i > 0 {
      RunKeepsInv(trace, events, i - 1);
      assert StepAt(trace, events, i - 1);
      StepKeepsInv(trace[i - 1], events[i - 1]);
    }
  }

  /** What one step can do to one worker. */
  ghost predicate WorkerProgressed(s: System, e: Event, t: System, w: WorkerId) {
    && t.workers.Keys == s.workers.Keys
    && (w in s.workers ==>
          var a, b := s.workers[w], t.workers[w];
          && (forall j :: j in a.inFlight && j !in b.inFlight ==> e == On(w, HandlerReturn(j)))
          && (a.phase == Finished(true) || e == On(w, StopExpire) <==> b.phase == Finished(true)))
  }

  /** Done and the rollback are never entered or left by accident. */
  ghost predicate StageProgressed(s: System, e: Event, t: System) {
    && (s.stage.Done? ==> t.stage.Done? && t.ledger.failed == s.ledger.failed)
    && (!s.stage.Aborting? && !s.stage.Aborted? && e != Abort ==> !t.stage.Aborting? && !t.stage.Aborted?)
  }

  lemma MoveProgressed(deadline: Option<nat>, now: nat, grace: nat, a: Worker, m: Move)
    requires CanMove(deadline, now, a, m)
    ensures var b := Moved(now, grace, a, m);
      && (forall j :: j in a.inFlight && j !in b.inFlight ==> m == HandlerReturn(j))
      && (a.phase == Finished(true) || m == StopExpire <==> b.phase == Finished(true))
  {
  }

  lemma WorkerStepProgressed(s: System, e: Event, w: WorkerId)
    requires WorkersInv(s) && Enabled(s, e)
    ensures WorkerProgressed(s, e, Apply(s, e), w)
  {
    if w in s.workers {
      assert WorkerInv(s, s.workers[w]);
      if e.On? {
        MoveProgressed(s.deadline, s.now, s.grace, s.workers[e.w], e.move);
      }
    }
  }

  lemma StageStepProgressed(s: System, e: Event)
    requires Enabled(s, e)
    ensures StageProgressed(s, e, Apply(s, e))
  {
  }

  lemma RunProgressed(trace: seq<System>, events: seq<Event>, i: nat, w: WorkerId)
    requires IsRun(trace, events) && i < |events|
    ensures WorkerProgressed(trace[i], events[i], trace[i + 1], w)
    ensures StageProgressed(trace[i], events[i], trace[i + 1])
  {
    RunKeepsInv(trace, events, i);
    assert StepAt(trace, events, i);
    WorkerStepProgressed(trace[i], events[i], w);
    StageStepProgressed(trace[i], events[i]);
  }

  // ----- safety over whole runs -----

  /** Shutdown never cancels a handler before its deadline, and never without one. */
  lemma NoCancelBeforeDeadline(trace: seq<System>, events: seq<Event>, i: nat, w: WorkerId)
    requires IsRun(trace, events) && i < |trace| && w in trace[i].workers
    requires trace[i].workers[w].cancelled != {}
    requires Abort !in events
    ensures trace[i].deadline.Some? && trace[i].deadline.value <= trace[i].now
  {
    RunKeepsInv(trace, events, i);
    NoAbortStage(trace, events, i);
  }

  lemma {:induction false} NoAbortStage(trace: seq<System>, events: seq<Event>, i: nat)
    requires IsRun(trace, events) && i < |trace| && Abort !in events
    ensures !trace[i].stage.Aborting? && !trace[i].stage.Aborted?
  {
    if i > 0 {
      NoAbortStage(trace, events, i - 1);
      RunProgressed(trace, events, i - 1, 0);
    }
  }

  /** A worker whose drain ran out has every handler it still holds cancelled, and keeps it so. */
  ghost predicate OverrunCancelled(worker: Worker) {
    worker.phase.DrainFailed? || worker.phase.Unwinding? || worker.phase == Finished(true) ==> worker.inFlight <= worker.cancelled
  }

  lemma {:induction false} OverrunIsCancelled(trace: seq<System>, events: seq<Event>, i: nat)
    requires IsRun(trace, events) && i < |trace|
    ensures forall w :: w in trace[i].workers ==> OverrunCancelled(trace[i].workers[w])
  {
    if i > 0 {
      OverrunIsCancelled(trace, events, i - 1);
      RunKeepsInv(trace, events, i - 1);
      assert StepAt(trace, events, i - 1);
      WorkersStay(trace, events, i - 1, i);
      forall w | w in trace[i].workers
        ensures OverrunCancelled(trace[i].workers[w])
      {
        StepKeepsOverrunCancelled(trace[i - 1], events[i - 1], w);
      }
    }
  }

  lemma StepKeepsOverrunCancelled(s: System, e: Event, w: WorkerId)
    requires Inv(s) && Enabled(s, e) && w in s.workers && OverrunCancelled(s.workers[w])
    ensures OverrunCancelled(Apply(s, e).workers[w])
  {
    assert WorkerInv(s, s.workers[w]);
  }

  /** The step at which the worker's drain runs out, or the rollback that stops it. */
  predicate Cancels(e: Event, w: WorkerId) {
    e == On(w, DrainExpire) || e == Abort
  }

  lemma StepCancels(s: System, e: Event, w: WorkerId, j: Job)
    requires Inv(s) && Enabled(s, e) && w in s.workers && OverrunCancelled(s.workers[w])
    ensures j in Apply(s, e).workers[w].cancelled <==>
      j in s.workers[w].cancelled || (Cancels(e, w) && j in s.workers[w].inFlight)
  {
    assert WorkerInv(s, s.workers[w]);
  }

  /**
   * In every run a handler is cancelled exactly when it was in flight at a step at
   * which its worker's drain ran out, or at the start of a rollback.
   */
  lemma {:induction false} CancelledIff(trace: seq<System>, events: seq<Event>, k: nat, w: WorkerId, j: Job)
    requires IsRun(trace, events) && k < |trace| && w in trace[0].workers
    ensures w in trace[k].workers
    ensures j in trace[k].workers[w].cancelled <==>
      exists m :: 0 <= m < k && Cancels(events[m], w) && w in trace[m].workers && j in trace[m].workers[w].inFlight
  {
    WorkersStay(trace, events, 0, k);
    if k > 0 {
      WorkersStay(trace, events, 0, k - 1);
      CancelledIff(trace, events, k - 1, w, j);
      RunKeepsInv(trace, events, k - 1);
      OverrunIsCancelled(trace, events, k - 1);
      assert StepAt(trace, events, k - 1);
      StepCancels(trace[k - 1], events[k - 1], w, j);
    }
  }

  /** The worker has been asked to stop. */
  predicate Asked(p: Phase) {
    !p.Serving? && !p.Spawned?
  }

  lemma {:induction false} StaysAsked(trace: seq<System>, events: seq<Event>, i: nat, k: nat, w: WorkerId)
    requires IsRun(trace, events) && i <= k < |trace| && w in trace[i].workers && Asked(trace[i].workers[w].phase)
    ensures w in trace[k].workers && Asked(trace[k].workers[w].phase)
  {
    WorkersStay(trace, events, i, k);
    if i < k {
      StaysAsked(trace, events, i, k - 1, w);
      RunKeepsInv(trace, events, k - 1);
      assert StepAt(trace, events, k - 1);
      StepStaysAsked(trace[k - 1], events[k - 1], w);
    }
  }

  lemma StepStaysAsked(s: System, e: Event, w: WorkerId)
    requires Inv(s) && Enabled(s, e) && w in s.workers && Asked(s.workers[w].phase)
    ensures Asked(Apply(s, e).workers[w].phase)
  {
    assert WorkerInv(s, s.workers[w]);
  }

  /** A worker takes up no job once its drain, or a rollback, has begun. */
  lemma DequeuesStop(trace: seq<System>, events: seq<Event>, i: nat, k: nat, w: WorkerId, j: Job)
    requires IsRun(trace, events) && i < k < |events| && w in trace[i].workers
    requires events[i] == On(w, DrainCall) || events[i] == Abort
    ensures events[k] != On(w, Dequeue(j))
  {
    RunKeepsInv(trace, events, i);
    assert WorkerInv(trace[i], trace[i].workers[w]);
    assert StepAt(trace, events, i) && StepAt(trace, events, k);
    StaysAsked(trace, events, i + 1, k, w);
  }

  /** The step that begins the wait a grace bounds. */
  predicate BeginsUnwind(e: Event, w: WorkerId) {
    e == On(w, StopCall) || e == Abort
  }

  /** A worker that unwinds has been given the whole grace, counted from when its Stop was called. */
  lemma {:induction false} UnwindHasGrace(trace: seq<System>, events: seq<Event>, k: nat, w: WorkerId)
    requires IsRun(trace, events) && k < |trace| && w in trace[k].workers && trace[k].workers[w].phase.Unwinding?
    ensures exists m :: 0 <= m < k && BeginsUnwind(events[m], w) && trace[k].workers[w].phase.until == trace[m].now + trace[m].grace
  {
    assert k > 0;
    RunKeepsInv(trace, events, k - 1);
    assert StepAt(trace, events, k - 1);
    WorkersStay(trace, events, k - 1, k);
    StepKeepsUnwind(trace[k - 1], events[k - 1], w);
    if trace[k - 1].workers[w].phase.Unwinding? {
      UnwindHasGrace(trace, events, k - 1, w);
    }
  }

  lemma StepKeepsUnwind(s: System, e: Event, w: WorkerId)
    requires Inv(s) && Enabled(s, e) && w in s.workers && Apply(s, e).workers[w].phase.Unwinding?
    ensures if s.workers[w].phase.Unwinding? then Apply(s, e).workers[w].phase == s.workers[w].phase
      else BeginsUnwind(e, w) && Apply(s, e).workers[w].phase.until == s.now + s.grace
  {
    assert WorkerInv(s, s.workers[w]);
  }

  /** A handler is abandoned only when the whole grace has passed since its worker's Stop was called. */
  lemma AbandonedOnlyAfterGrace(trace: seq<System>, events: seq<Event>, k: nat, w: WorkerId)
    requires IsRun(trace, events) && k < |events| && events[k] == On(w, StopExpire)
    ensures exists m :: 0 <= m < k && BeginsUnwind(events[m], w) && trace[m].now + trace[m].grace <= trace[k].now
  {
    assert StepAt(trace, events, k);
    UnwindHasGrace(trace, events, k, w);
  }

  /** While a Redis client is closed, or being closed, every drainWorker has returned. */
  lemma RedisClosesAfterWorkers(trace: seq<System>, events: seq<Event>, i: nat)
    requires IsRun(trace, events) && i < |trace|
    ensures !trace[i].ledger.clientOpen || !trace[i].ledger.probeOpen ==> AllFinished(trace[i])
    ensures i < |events| && (events[i].ClientClosed? || events[i].ProbeClosed?) ==> AllFinished(trace[i])
  {
    RunKeepsInv(trace, events, i);
    assert i < |events| ==> StepAt(trace, events, i);
  }

  lemma {:induction false} WorkersStay(trace: seq<System>, events: seq<Event>, i: nat, k: nat)
    requires IsRun(trace, events) && i <= k < |trace|
    ensures trace[i].workers.Keys == trace[k].workers.Keys
  {
    if i < k {
      WorkersStay(trace, events, i, k - 1);
      RunProgressed(trace, events, k - 1, 0);
    }
  }

  /** A handler leaves the in-flight set only by returning. */
  lemma {:induction false} LeavesByReturning(trace: seq<System>, events: seq<Event>, i: nat, k: nat, w: WorkerId, j: Job)
    requires IsRun(trace, events) && i <= k < |trace|
    requires w in trace[i].workers && j in trace[i].workers[w].inFlight
    requires w in trace[k].workers && j !in trace[k].workers[w].inFlight
    ensures exists m :: i <= m < k && events[m] == On(w, HandlerReturn(j))
  {
    WorkersStay(trace, events, i, k - 1);
    if j in trace[k - 1].workers[w].inFlight {
      RunProgressed(trace, events, k - 1, w);
    } else {
      LeavesByReturning(trace, events, i, k - 1, w, j);
    }
  }

  /**
   * If the worker phase reports no error, every handler that was ever in flight
   * had returned by the time the first Redis client closed.
   */
  lemma CleanStopFinishesEveryJob(trace: seq<System>, events: seq<Event>, i: nat, k: nat, w: WorkerId, j: Job)
    requires IsRun(trace, events) && i <= k < |events|
    requires events[k].ClientClosed? && !trace[k].ledger.workersFailed
    requires w in trace[i].workers && j in trace[i].workers[w].inFlight
    ensures exists m :: i <= m < k && events[m] == On(w, HandlerReturn(j))
  {
    RunKeepsInv(trace, events, k);
    assert StepAt(trace, events, k);
    WorkersStay(trace, events, i, k);
    assert trace[k].workers[w].phase == Finished(false);
    LeavesByReturning(trace, events, i, k, w, j);
  }

  /** The worker phase reports an error exactly when some Stop ran out of grace with a handler left. */
  lemma WorkerErrorIffStopExpired(trace: seq<System>, events: seq<Event>, k: nat)
    requires IsRun(trace, events) && k < |events| && events[k].ClientClosed?
    ensures trace[k].ledger.workersFailed <==> exists m, w :: 0 <= m < k && events[m] == On(w, StopExpire)
  {
    RunKeepsInv(trace, events, k);
    assert StepAt(trace, events, k);
    if trace[k].ledger.workersFailed {
      var w :| w in trace[k].workers && trace[k].workers[w].phase == Finished(true);
      var m := FailedByExpiry(trace, events, k, w);
    }
    if m, w :| 0 <= m < k && events[m] == On(w, StopExpire) {
      assert StepAt(trace, events, m);
      FailureSticks(trace, events, m + 1, k, w);
    }
  }

  lemma {:induction false} FailedByExpiry(trace: seq<System>, events: seq<Event>, k: nat, w: WorkerId) returns (m: nat)
    requires IsRun(trace, events) && k < |trace|
    requires w in trace[k].workers && trace[k].workers[w].phase == Finished(true)
    ensures m < k && events[m] == On(w, StopExpire)
  {
    RunProgressed(trace, events, k - 1, w);
    if trace[k - 1].workers[w].phase == Finished(true) {
      m := FailedByExpiry(trace, events, k - 1, w);
    } else {
      m := k - 1;
    }
  }

  lemma {:induction false} FailureSticks(trace: seq<System>, events: seq<Event>, m: nat, k: nat, w: WorkerId)
    requires IsRun(trace, events) && m <= k < |trace|
    requires w in trace[m].workers && trace[m].workers[w].phase == Finished(true)
    ensures w in trace[k].workers && trace[k].workers[w].phase == Finished(true)
  {
    if m < k {
      FailureSticks(trace, events, m, k - 1, w);
      RunProgressed(trace, events, k - 1, w);
    }
  }

  /**
   * With a deadline, the server and worker phases are over by
   * max(start, deadline) + grace, however many workers there are.
   */
  lemma ShutdownMeetsBound(trace: seq<System>, events: seq<Event>, i: nat)
    requires IsRun(trace, events) && i < |trace| && Abort !in events
    requires trace[i].deadline.Some?
    ensures var limit := Max(trace[i].startedAt, trace[i].deadline.value) + trace[i].grace;
      && (trace[i].stage.ClosingServer? || trace[i].stage.StoppingWorkers? ==> trace[i].now <= limit)
      && (trace[i].endedAt.Some? ==> trace[i].endedAt.value <= limit)
  {
    RunKeepsInv(trace, events, i);
    NoAbortStage(trace, events, i);
  }

  /** A startup rollback is over within one grace of its start. */
  lemma AbortMeetsBound(trace: seq<System>, events: seq<Event>, i: nat)
    requires IsRun(trace, events) && i < |trace|
    ensures trace[i].stage.Aborting? ==> trace[i].now <= trace[i].startedAt + trace[i].grace
    ensures trace[i].stage.Aborted? ==>
      trace[i].endedAt.Some? && trace[i].endedAt.value <= trace[i].startedAt + trace[i].grace
  {
    RunKeepsInv(trace, events, i);
  }

  /** Each Redis client is closed at most once, and all callers get one result. */
  lemma ShutdownIsIdempotent(trace: seq<System>, events: seq<Event>, i: nat, k: nat, c: Caller, d: Caller)
    requires IsRun(trace, events) && i < |trace| && k < |trace|
    requires c in trace[i].ledger.callers && trace[i].ledger.callers[c].Some?
    requires d in trace[k].ledger.callers && trace[k].ledger.callers[d].Some?
    ensures trace[i].ledger.callers[c] == trace[k].ledger.callers[d]
    ensures trace[i].ledger.closes == 2 && trace[k].ledger.closes == 2
  {
    RunKeepsInv(trace, events, i);
    RunKeepsInv(trace, events, k);
    DoneIsFinal(trace, events, Min(i, k), Max(i, k));
  }

  lemma {:induction false} DoneIsFinal(trace: seq<System>, events: seq<Event>, i: nat, k: nat)
    requires IsRun(trace, events) && i <= k < |trace| && trace[i].stage.Done?
    ensures trace[k].stage.Done? && trace[k].ledger.failed == trace[i].ledger.failed
  {
    if i < k {
      DoneIsFinal(trace, events, i, k - 1);
      RunProgressed(trace, events, k - 1, 0);
    }
  }

  // ----- the result -----

  predicate FailedClose(e: Event) {
    e == ServerClosed(true) || e == ClientClosed(true) || e == ProbeClosed(true)
  }

  predicate StopRanOut(e: Event) {
    e.On? && e.move.StopExpire?
  }

  lemma {:induction false} FailuresAddUp(trace: seq<System>, events: seq<Event>, i: nat)
    requires IsRun(trace, events) && i < |trace|
    ensures trace[i].ledger.failed <==> trace[i].ledger.workersFailed || exists m :: 0 <= m < i && FailedClose(events[m])
  {
    if i > 0 {
      FailuresAddUp(trace, events, i - 1);
      RunKeepsInv(trace, events, i - 1);
      assert StepAt(trace, events, i - 1);
      StepAddsFailure(trace[i - 1], events[i - 1]);
    }
  }

  lemma StepAddsFailure(s: System, e: Event)
    requires Inv(s) && Enabled(s, e)
    ensures var t := Apply(s, e);
      && (t.ledger.failed <==> s.ledger.failed || FailedClose(e) || (t.ledger.workersFailed && !s.ledger.workersFailed))
      && (s.ledger.workersFailed ==> t.ledger.workersFailed)
  {
  }

  lemma WorkersFailedIff(trace: seq<System>, events: seq<Event>, k: nat)
    requires IsRun(trace, events) && k < |trace| && (trace[k].stage.ClosingClients? || trace[k].stage.Done?)
    ensures trace[k].ledger.workersFailed <==> exists m :: 0 <= m < k && StopRanOut(events[m])
  {
    RunKeepsInv(trace, events, k);
    if trace[k].ledger.workersFailed {
      var w :| w in trace[k].workers && trace[k].workers[w].phase == Finished(true);
      var m := FailedByExpiry(trace, events, k, w);
      assert StopRanOut(events[m]);
    }
    if m :| 0 <= m < k && StopRanOut(events[m]) {
      assert StepAt(trace, events, m);
      FailureSticks(trace, events, m + 1, k, events[m].w);
    }
  }

  /** Every caller that returned got an error exactly when the server, a worker, or one of the two clients failed to close. */
  lemma ResultIff(trace: seq<System>, events: seq<Event>, k: nat, c: Caller)
    requires IsRun(trace, events) && k < |trace|
    requires c in trace[k].ledger.callers && trace[k].ledger.callers[c].Some?
    ensures trace[k].ledger.callers[c].value <==>
      exists m :: 0 <= m < k && (FailedClose(events[m]) || StopRanOut(events[m]))
  {
    RunKeepsInv(trace, events, k);
    FailuresAddUp(trace, events, k);
    WorkersFailedIff(trace, events, k);
  }

  // ----- isServing -----

  /** What /readyz asks. */
  predicate IsServing(s: System) {
    s.started && !s.stopped
  }

  /** What isServing is described to say: workers are up and shutdown has not begun. */
  ghost predicate StillUp(events: seq<Event>, i: nat)
    requires i <= |events|
  {
    forall m :: 0 <= m < i ==> !events[m].Call? && !events[m].Abort?
  }

  /** A worker is up until a Shutdown or a rollback takes it. */
  lemma {:induction false} UpIffRunning(trace: seq<System>, events: seq<Event>, i: nat)
    requires IsRun(trace, events) && i < |trace|
    ensures StillUp(events, i) <==> trace[i].stage.Running?
    ensures StillUp(events, i) ==> forall w :: w in trace[i].workers ==> trace[i].workers[w].phase.Serving?
  {
    RunKeepsInv(trace, events, i);
    if i > 0 {
      UpIffRunning(trace, events, i - 1);
      assert StepAt(trace, events, i - 1);
    }
    assert trace[i].stage.Running? ==> forall w :: w in trace[i].workers ==> WorkerInv(trace[i], trace[i].workers[w]);
  }

  lemma {:induction false} StoppedIffMarked(trace: seq<System>, events: seq<Event>, i: nat)
    requires IsRun(trace, events) && i < |trace|
    ensures trace[i].started && (trace[i].stopped <==> MarkStopped in events[..i])
  {
    if i > 0 {
      StoppedIffMarked(trace, events, i - 1);
      assert StepAt(trace, events, i - 1);
      assert events[..i] == events[..i - 1] + [events[i - 1]];
    }
  }

  /**
   * In every run isServing says yes against its description exactly from the
   * winning Shutdown call, or the start of a rollback, until the flag is set after
   * both Redis clients are closed; it never says no against it.
   */
  lemma ServingOverstatesIff(trace: seq<System>, events: seq<Event>, i: nat)
    requires IsRun(trace, events) && i < |trace|
    ensures IsServing(trace[i]) && !StillUp(events, i) <==>
      MarkStopped !in events[..i] && exists m :: 0 <= m < i && (events[m].Call? || events[m].Abort?)
    ensures StillUp(events, i) ==> IsServing(trace[i])
    ensures trace[i].stage.Aborting? || trace[i].stage.Aborted? ==> IsServing(trace[i]) && !StillUp(events, i)
  {
    StoppedIffMarked(trace, events, i);
    UpIffRunning(trace, events, i);
    RunKeepsInv(trace, events, i);
  }

  /**
   * Throughout that window, once the server is closed, no worker is up; and every
   * Shutdown that ends has passed a moment at which isServing still said yes with
   * all of its workers finished and Redis closed.
   */
  lemma ServesWithNothingUp(trace: seq<System>, events: seq<Event>, i: nat)
    requires IsRun(trace, events) && i < |events|
    ensures trace[i].stage.StoppingWorkers? || trace[i].stage.ClosingClients? ==>
      IsServing(trace[i]) && forall w :: w in trace[i].workers ==> !trace[i].workers[w].phase.Serving?
    ensures events[i] == MarkStopped ==>
      IsServing(trace[i]) && AllFinished(trace[i]) && !trace[i].ledger.clientOpen && !trace[i].ledger.probeOpen
  {
    RunKeepsInv(trace, events, i);
    assert StepAt(trace, events, i);
    assert forall w :: w in trace[i].workers ==> WorkerInv(trace[i], trace[i].workers[w]);
  }

  // ----- progress -----

  ghost predicate Reaches(s: System, events: seq<Event>, t: System)
    decreases |events|
  {
    if events == [] then s == t
    else Enabled(s, events[0]) && Reaches(Apply(s, events[0]), events[1..], t)
  }

  /** A stop that some deadline bounds: Shutdown under one, or a rollback. */
  predicate Limited(s: System) {
    s.deadline.Some? || s.stage.Aborting? || s.stage.Aborted?
  }

  predicate Ended(s: System) {
    s.stage.Done? || s.stage.Aborted?
  }

  /** The stages whose time is bounded. */
  predicate Timely(s: System) {
    s.stage.ClosingServer? || s.stage.StoppingWorkers? || s.stage.Aborting?
  }

  /** The step is a handler's own: taking up a job, or returning. */
  predicate OfHandler(e: Event) {
    e.On? && (e.move.Dequeue? || e.move.HandlerReturn?)
  }

  /** The step is the stop protocol's; a tick is one while a bounded stage waits. */
  predicate OfProtocol(s: System, e: Event) {
    match e
    case On(_, _) => !OfHandler(e)
    case Tick(_) => Timely(s)
    case Call(_, _) => false
    case Return(_) => false
    case Abort => false
    case _ => true
  }

  /** How many protocol steps a worker goroutine can still take. */
  function Rank(p: Phase): nat {
    match p
    case Spawned => 4
    case Draining => 3
    case DrainFailed => 2
    case Unwinding(_) => 1
    case _ => 0
  }

  ghost function AtLeast(workers: map<WorkerId, Worker>, rank: nat): set<WorkerId> {
    set w | w in workers && Rank(workers[w].phase) >= rank
  }

  /** The ranks of all workers, added up. */
  ghost function Ranks(workers: map<WorkerId, Worker>): nat {
    |AtLeast(workers, 1)| + |AtLeast(workers, 2)| + |AtLeast(workers, 3)| + |AtLeast(workers, 4)|
  }

  ghost function StepsLeft(s: System): nat {
    match s.stage
    case ClosingServer => 4 * |s.workers| + 5
    case StoppingWorkers => Ranks(s.workers) + 4
    case ClosingClients => if s.ledger.clientOpen then 3 else if s.ledger.probeOpen then 2 else 1
    case Aborting => Ranks(s.workers) + 1
    case _ => 0
  }

  function TimeLeft(s: System): nat {
    if s.stage.Aborting? then Max(0, s.startedAt + s.grace - s.now)
    else if Timely(s) && s.deadline.Some? then Max(0, DrainLimit(s.deadline, s.startedAt) + s.grace - s.now)
    else 0
  }

  /** What every protocol step lowers. */
  ghost function Measure(s: System): nat {
    StepsLeft(s) + TimeLeft(s)
  }

  lemma {:induction false} SubsetSize(a: set<WorkerId>, b: set<WorkerId>)
    requires a <= b
    ensures |a| <= |b| && (a != b ==> |a| < |b|)
    decreases |a|
  {
    if x :| x in a {
      SubsetSize(a - {x}, b - {x});
      assert a == (a - {x}) + {x} && b == (b - {x}) + {x};
    }
  }

  lemma RanksFall(a: map<WorkerId, Worker>, w: WorkerId, worker: Worker)
    requires w in a && Rank(worker.phase) <= Rank(a[w].phase)
    ensures Ranks(a[w := worker]) <= Ranks(a)
    ensures Rank(worker.phase) < Rank(a[w].phase) ==> Ranks(a[w := worker]) < Ranks(a)
    ensures Rank(worker.phase) == Rank(a[w].phase) ==> Ranks(a[w := worker]) == Ranks(a)
  {
    var b := a[w := worker];
    forall r: nat
      ensures |AtLeast(b, r)| <= |AtLeast(a, r)|
      ensures Rank(worker.phase) < r <= Rank(a[w].phase) ==> |AtLeast(b, r)| < |AtLeast(a, r)|
      ensures Rank(worker.phase) == Rank(a[w].phase) ==> AtLeast(b, r) == AtLeast(a, r)
    {
      SubsetSize(AtLeast(b, r), AtLeast(a, r));
      assert Rank(worker.phase) < r <= Rank(a[w].phase) ==> w in AtLeast(a, r) && w !in AtLeast(b, r);
    }
    assert Rank(worker.phase) < Rank(a[w].phase) ==> Rank(a[w].phase) in {1, 2, 3, 4};
  }

  lemma RanksOfSpawned(workers: map<WorkerId, Worker>)
    requires forall w :: w in workers ==> workers[w].phase.Spawned?
    ensures Ranks(workers) == 4 * |workers|
  {
    assert forall r: nat :: r <= 4 ==> AtLeast(workers, r) == workers.Keys;
  }

  lemma MoveRank(deadline: Option<nat>, now: nat, grace: nat, worker: Worker, m: Move)
    requires CanMove(deadline, now, worker, m)
    ensures var after := Moved(now, grace, worker, m);
      if m.Dequeue? || m.HandlerReturn? then after.phase == worker.phase else Rank(after.phase) < Rank(worker.phase)
  {
  }

  lemma MeasureOfRanks(s: System, t: System)
    requires t == s.(workers := t.workers) && |t.workers| == |s.workers|
    ensures Ranks(t.workers) == Ranks(s.workers) ==> Measure(t) == Measure(s)
    ensures Ranks(t.workers) < Ranks(s.workers) && (s.stage.StoppingWorkers? || s.stage.Aborting?) ==> Measure(t) < Measure(s)
  {
  }

  /** A worker's goroutine moves only while workers are being stopped. */
  lemma MoveStage(s: System, w: WorkerId, m: Move)
    requires WorkersInv(s) && Enabled(s, On(w, m)) && !m.Dequeue? && !m.HandlerReturn?
    ensures s.stage.StoppingWorkers? || s.stage.Aborting?
  {
    assert WorkerInv(s, s.workers[w]);
  }

  lemma MoveLowersMeasure(s: System, w: WorkerId, m: Move)
    requires Inv(s) && Enabled(s, On(w, m))
    ensures var t := Apply(s, On(w, m));
      if OfProtocol(s, On(w, m)) then Measure(t) < Measure(s) else Measure(t) == Measure(s)
  {
    var t := Apply(s, On(w, m));
    MoveRank(s.deadline, s.now, s.grace, s.workers[w], m);
    RanksFall(s.workers, w, t.workers[w]);
    KeysSize(t.workers, s.workers);
    MeasureOfRanks(s, t);
    if OfProtocol(s, On(w, m)) {
      MoveStage(s, w, m);
    }
  }

  lemma KeysSize(a: map<WorkerId, Worker>, b: map<WorkerId, Worker>)
    requires a.Keys == b.Keys
    ensures |a| == |b|
  {
    assert |a| == |a.Keys| && |b| == |b.Keys|;
  }

  lemma TickLowersMeasure(s: System, to: nat)
    requires Inv(s) && Enabled(s, Tick(to)) && Limited(s)
    ensures var t := Apply(s, Tick(to));
      if Timely(s) then Measure(t) < Measure(s) else Measure(t) == Measure(s)
  {
    TickKeepsTiming(s, to);
  }

  lemma GlobalLowersMeasure(s: System, e: Event)
    requires Inv(s) && Enabled(s, e) && Limited(s) && !e.On? && !e.Tick?
    ensures if OfProtocol(s, e) then Measure(Apply(s, e)) < Measure(s) else Measure(Apply(s, e)) == Measure(s)
  {
    if e.ServerClosed? {
      var t := Apply(s, e);
      RanksOfSpawned(t.workers);
      KeysSize(t.workers, s.workers);
    }
  }

  /** Every protocol step lowers the measure, and no other step changes it. */
  lemma StepLowersMeasure(s: System, e: Event)
    requires Inv(s) && Enabled(s, e) && Limited(s)
    ensures Limited(Apply(s, e))
    ensures if OfProtocol(s, e) then Measure(Apply(s, e)) < Measure(s) else Measure(Apply(s, e)) == Measure(s)
  {
    if e.On? {
      MoveLowersMeasure(s, e.w, e.move);
    } else if e.Tick? {
      TickLowersMeasure(s, e.to);
    } else {
      GlobalLowersMeasure(s, e);
    }
  }

  /** How many of the steps from `i` to `k` are the protocol's. */
  ghost function ProtocolSteps(trace: seq<System>, events: seq<Event>, i: nat, k: nat): nat
    requires |trace| == |events| + 1 && i <= k < |trace|
  {
    if k == i then 0
    else ProtocolSteps(trace, events, i, k - 1) + if OfProtocol(trace[k - 1], events[k - 1]) then 1 else 0
  }

  lemma {:induction false} StepsAreCounted(trace: seq<System>, events: seq<Event>, i: nat, k: nat)
    requires IsRun(trace, events) && i <= k < |trace| && Limited(trace[i])
    ensures Limited(trace[k]) && ProtocolSteps(trace, events, i, k) + Measure(trace[k]) <= Measure(trace[i])
  {
    if i < k {
      StepsAreCounted(trace, events, i, k - 1);
      RunKeepsInv(trace, events, k - 1);
      assert StepAt(trace, events, k - 1);
      StepLowersMeasure(trace[k - 1], events[k - 1]);
    }
  }

  lemma EndedIffNothingLeft(s: System)
    requires Inv(s) && Limited(s)
    ensures Measure(s) == 0 <==> Ended(s)
  {
  }

  /** The move a worker's goroutine can make by itself right now. */
  function Immediate(deadline: Option<nat>, now: nat, worker: Worker): Option<Move> {
    match worker.phase
    case Spawned => Some(DrainCall)
    case Draining => if worker.inFlight == {} then Some(DrainOk) else if Expired(deadline, now) then Some(DrainExpire) else None
    case DrainFailed => Some(StopCall)
    case Unwinding(u) => if worker.inFlight == {} then Some(StopOk) else if u <= now then Some(StopExpire) else None
    case _ => None
  }

  /** The moment the context of a waiting goroutine ends. */
  function Wake(deadline: Option<nat>, worker: Worker): nat {
    match worker.phase
    case Draining => if deadline.Some? then deadline.value else 0
    case Unwinding(u) => u
    case _ => 0
  }

  lemma {:induction false} EarliestWake(s: System, ws: set<WorkerId>) returns (w: WorkerId)
    requires ws != {} && ws <= s.workers.Keys
    ensures w in ws && forall v :: v in ws ==> Wake(s.deadline, s.workers[w]) <= Wake(s.deadline, s.workers[v])
    decreases ws
  {
    var x :| x in ws;
    w := x;
    if ws != {x} {
      var rest := ws - {x};
      assert ws == rest + {x};
      var y := EarliestWake(s, rest);
      w := if Wake(s.deadline, s.workers[x]) <= Wake(s.deadline, s.workers[y]) then x else y;
    }
  }

  /** When no goroutine can move, time can pass to the first context that ends. */
  lemma NextTick(s: System) returns (to: nat)
    requires Inv(s) && Limited(s) && (s.stage.StoppingWorkers? || s.stage.Aborting?) && !AllFinished(s)
    requires forall w :: w in s.workers ==> Immediate(s.deadline, s.now, s.workers[w]).None?
    ensures Enabled(s, Tick(to))
  {
    assert forall w :: w in s.workers ==> WorkerInv(s, s.workers[w]);
    var waiting := set w | w in s.workers && !s.workers[w].phase.Finished?;
    assert waiting != {} by {
      var w :| w in s.workers && !s.workers[w].phase.Finished?;
      assert w in waiting;
    }
    var w := EarliestWake(s, waiting);
    to := Wake(s.deadline, s.workers[w]);
    assert s.workers[w].phase.Draining? || s.workers[w].phase.Unwinding?;
    forall v | v in s.workers && (s.workers[v].phase.Draining? || s.workers[v].phase.Unwinding?)
      ensures to <= Wake(s.deadline, s.workers[v])
    {
      assert v in waiting;
    }
  }

  /** Until the stop has ended, some protocol step that needs no handler is enabled. */
  lemma NextStep(s: System) returns (e: Event)
    requires Inv(s) && Limited(s) && !Ended(s)
    ensures Enabled(s, e) && OfProtocol(s, e) && !OfHandler(e)
  {
    if s.stage.ClosingServer? {
      e := ServerClosed(false);
    } else if s.stage.ClosingClients? {
      e := if s.ledger.clientOpen then ClientClosed(false) else if s.ledger.probeOpen then ProbeClosed(false) else MarkStopped;
    } else if AllFinished(s) {
      e := if s.stage.Aborting? then AbortJoined else WorkersJoined;
    } else if w :| w in s.workers && Immediate(s.deadline, s.now, s.workers[w]).Some? {
      e := On(w, Immediate(s.deadline, s.now, s.workers[w]).value);
    } else {
      var to := NextTick(s);
      e := Tick(to);
    }
  }

  /**
   * Every stop that a deadline bounds ends: from any state of any run on, the protocol
   * takes at most Measure many steps, whatever handlers and other callers do in
   * between; once it has taken that many it has ended, and until then one is enabled
   * that waits for no handler.
   */
  lemma StoppingEnds(trace: seq<System>, events: seq<Event>, i: nat, k: nat)
    requires IsRun(trace, events) && i <= k < |trace| && Limited(trace[i])
    ensures ProtocolSteps(trace, events, i, k) <= Measure(trace[i])
    ensures ProtocolSteps(trace, events, i, k) == Measure(trace[i]) ==> Ended(trace[k])
    ensures !Ended(trace[k]) ==> exists e :: Enabled(trace[k], e) && OfProtocol(trace[k], e) && !OfHandler(e)
  {
    StepsAreCounted(trace, events, i, k);
    RunKeepsInv(trace, events, k);
    EndedIffNothingLeft(trace[k]);
    if !Ended(trace[k]) {
      var e := NextStep(trace[k]);
    }
  }

  /** The bound at the call: four steps a worker, five more, and the time to the limit. */
  lemma MeasureAtCall(s: System, c: Caller, deadline: nat)
    requires s.stage.Running? && Enabled(s, Call(c, Some(deadline)))
    ensures Measure(Apply(s, Call(c, Some(deadline)))) == 4 * |s.workers| + 5 + Max(s.now, deadline) - s.now + s.grace
  {
  }

  lemma {:induction false} FinishWithoutHandlers(s: System) returns (events: seq<Event>, t: System)
    requires Inv(s) && s.deadline.Some?
    ensures Reaches(s, events, t) && t.stage.Done? && Inv(t)
    ensures t.deadline == s.deadline && t.startedAt == s.startedAt && t.grace == s.grace
    ensures forall e :: e in events ==> !OfHandler(e)
    decreases Measure(s)
  {
    if s.stage.Done? {
      events, t := [], s;
    } else {
      var e := NextStep(s);
      StepKeepsInv(s, e);
      SettingsStay(s, e);
      StepLowersMeasure(s, e);
      var rest;
      rest, t := FinishWithoutHandlers(Apply(s, e));
      events := [e] + rest;
      assert events[1..] == rest;
    }
  }

  lemma SettingsStay(s: System, e: Event)
    requires (e.On? ==> e.w in s.workers) && !e.Call? && !e.Abort?
    ensures var t := Apply(s, e); t.deadline == s.deadline && t.startedAt == s.startedAt && t.grace == s.grace
  {
  }

  /**
   * Handlers that ignore cancellation cannot hang Shutdown: from every state
   * reached after it began with a deadline, it can run to its end without a
   * single handler returning, and the worker phase still meets its bound.
   */
  lemma StubbornHandlersCannotBlock(trace: seq<System>, events: seq<Event>, i: nat)
    returns (more: seq<Event>, t: System)
    requires IsRun(trace, events) && i < |trace| && trace[i].deadline.Some?
    ensures Reaches(trace[i], more, t) && t.stage.Done?
    ensures forall e :: e in more ==> !OfHandler(e)
    ensures t.endedAt.Some?
    ensures t.endedAt.value <= Max(trace[i].startedAt, trace[i].deadline.value) + trace[i].grace
  {
    RunKeepsInv(trace, events, i);
    more, t := FinishWithoutHandlers(trace[i]);
  }
}
