/** The Runtime: registration, Check, Start with its rollback, and Shutdown, over any sequence of calls. */
module Lifecycle {
  import opened Prelude
  import opened Config
  import opened Registry
  import Dedup

  /** A launched mkq worker; `id` is its identity. */
  datatype Worker = Worker(name: string, id: nat)

  /** rt.workers, and which of the workers ever launched were handed over to be stopped. */
  datatype Fleet = Fleet(running: seq<Worker>, handed: seq<Worker>, spawned: nat)

  /** The joined error of Shutdown: which phases failed, and for which queues. */
  datatype StopError = StopError(server: bool, queues: seq<string>, client: bool, redis: bool)

  const NO_ERROR := StopError(false, [], false, false)

  /** stopOnce, rt.stopped, rt.stopErr, and how often the Redis clients were closed. */
  datatype Stop = Stop(done: bool, stopped: bool, error: StopError, closes: nat)

  datatype State = State(reg: Registry, fleet: Fleet, started: bool, srv: bool, stop: Stop)

  const INITIAL := State(EMPTY, Fleet([], [], 0), false, false, Stop(false, false, NO_ERROR, 0))

  /** What the outside world does during Start: factories, mkq.Process per queue, and the listener. */
  datatype Launch = Launch(factory: Factory, process: string -> bool, listen: bool)

  /** What the outside world does during Shutdown. */
  datatype Closing = Closing(server: bool, drain: Worker -> bool, client: bool, redis: bool)

  datatype StartResult = Started | CalledTwice | NotBuilt(error: BuildError) | NoQueues | NotLaunched(queue: string) | NotListening

  // ----- each call as one step -----

  function Take(f: Fleet): Fleet {
    Fleet([], f.handed + f.running, f.spawned)
  }

  function LaunchAll(f: Fleet, names: seq<string>): Fleet {
    if names == [] then f
    else
      var before := LaunchAll(f, names[..|names| - 1]);
      Fleet(before.running + [Worker(names[|names| - 1], before.spawned)], before.handed, before.spawned + 1)
  }

  /** How many queues launch before the first that does not. */
  function LaunchedUpTo(names: seq<string>, process: string -> bool): (m: nat)
    ensures m <= |names| && (forall i :: 0 <= i < m ==> process(names[i])) && (m < |names| ==> !process(names[m]))
  {
    if names == [] || !process(names[0]) then 0 else 1 + LaunchedUpTo(names[1..], process)
  }

  predicate ServerEnabled(c: Config) {
    c.serverAddr != "" && c.serverAddr != "off"
  }

  function StartOutcome(c: Config, s: State, w: Launch): StartResult {
    var b := BuildQueues(s.reg, c.queues, w.factory);
    if s.started then CalledTwice
    else if b.error.Some? then NotBuilt(b.error.value)
    else LaunchOutcome(c, Dedup.Firsts(b.registry.order), w)
  }

  function LaunchOutcome(c: Config, names: seq<string>, w: Launch): StartResult {
    var m := LaunchedUpTo(names, w.process);
    if names == [] then NoQueues
    else if m < |names| then NotLaunched(names[m])
    else if ServerEnabled(c) && !w.listen then NotListening
    else Started
  }

  function FleetAfterStart(f: Fleet, names: seq<string>, w: Launch, r: StartResult): Fleet {
    match r
    case Started => LaunchAll(f, names)
    case NotLaunched(_) => Take(LaunchAll(f, names[..LaunchedUpTo(names, w.process)]))
    case NotListening => Take(LaunchAll(f, names))
    case _ => f
  }

  function StartStep(c: Config, s: State, w: Launch): State {
    if s.started then s else StartBuilt(c, s, w, BuildQueues(s.reg, c.queues, w.factory))
  }

  function StartBuilt(c: Config, s: State, w: Launch, b: Build): State {
    if b.error.Some? then s.(reg := b.registry, started := true)
    else
      var names := Dedup.Firsts(b.registry.order);
      var r := LaunchOutcome(c, names, w);
      State(b.registry, FleetAfterStart(s.fleet, names, w, r), true, s.srv || (r == Started && ServerEnabled(c)), s.stop)
  }

  function CheckStep(c: Config, s: State, ping: bool, factory: Factory): State {
    if ping then s.(reg := BuildQueues(s.reg, c.queues, factory).registry) else s
  }

  /** The names of the workers whose drain and stop failed. */
  function Undrained(workers: seq<Worker>, drain: Worker -> bool): seq<string> {
    if workers == [] then []
    else
      var init, last := workers[..|workers| - 1], workers[|workers| - 1];
      if drain(last) then Undrained(init, drain) else Undrained(init, drain) + [last.name]
  }

  function StopErrors(s: State, w: Closing): StopError {
    StopError(s.srv && !w.server, Undrained(s.fleet.running, w.drain), !w.client, !w.redis)
  }

  function ShutdownStep(s: State, w: Closing): State {
    if s.stop.done then s
    else s.(fleet := Take(s.fleet), stop := Stop(true, true, StopErrors(s, w), s.stop.closes + 1))
  }

  // ----- the object -----

  class Runtime {
    const cfg: Config
    var registry: map<string, Registration>
    var order: seq<string>
    var workers: seq<Worker>
    var spawned: nat
    var started: bool
    var stopped: bool
    var stopOnce: bool
    var stopErr: StopError
    var srv: bool
    ghost var handed: seq<Worker>
    ghost var closes: nat

    ghost function View(): State
      reads this
    {
      State(Reg(), Fleet(workers, handed, spawned), started, srv, Stop(stopOnce, stopped, stopErr, closes))
    }

    ghost function Reg(): Registry
      reads this
    {
      Registry(registry, order)
    }

    constructor (cfg: Config)
      ensures View() == INITIAL && this.cfg == cfg
    {
      this.cfg := cfg;
      registry, order, workers, spawned := map[], [], [], 0;
      started, stopped, stopOnce, stopErr, srv := false, false, false, NO_ERROR, false;
      handed, closes := [], 0;
    }

    /** register. */
    method Register(r: Registration) returns (e: Option<RegisterError>)
      modifies this
      ensures View() == old(View()).(reg := Registered(old(Reg()), old(started), r))
      ensures e == Refusal(old(Reg()), old(started), r)
    {
      if r.queue == "" { return Some(EmptyName); }
      if started { return Some(AfterStart); }
      if r.queue in registry { return Some(AlreadyRegistered); }
      registry := registry[r.queue := r];
      order := order + [r.queue];
      return None;
    }

    /** buildConfiguredQueues: the loop that asks the registry it is itself filling. */
    method BuildConfiguredQueues(factory: Factory) returns (e: Option<BuildError>)
      modifies this`registry, this`order
      ensures Build(Reg(), e) == BuildQueues(old(Reg()), cfg.queues, factory)
    {
      ghost var g := Reg();
      for i := 0 to |cfg.queues|
        invariant Reg() == Configured(g, cfg.queues[..i])
        invariant forall j :: 0 <= j < i ==> QueueError(g, cfg.queues[j], factory).None?
      {
        SameVerdict(g, cfg.queues[..i], cfg.queues[i], factory);
        ConfiguredSnoc(g, cfg.queues, i);
        e := ConfigureQueue(cfg.queues[i], factory);
        if e.Some? {
          BuiltUpToIs(g, cfg.queues, factory, i);
          return;
        }
      }
      BuiltUpToIs(g, cfg.queues, factory, |cfg.queues|);
      return None;
    }

    /** The loop body of buildConfiguredQueues. */
    method ConfigureQueue(q: QueueConfig, factory: Factory) returns (e: Option<BuildError>)
      modifies this`registry, this`order
      ensures e == QueueError(old(Reg()), q, factory)
      ensures Reg() == if e.Some? then old(Reg()) else AddBlock(old(Reg()), q)
    {
      if q.name in registry && registry[q.name].fromCode { return None; }
      if q.executor.None? { return Some(NoExecutor(q.name)); }
      var built := factory(q);
      if built == UnknownType { return Some(UnknownExecutor(q.name)); }
      if built == FactoryFailed { return Some(ExecutorFailed(q.name)); }
      registry := registry[q.name := Registration(q.name, UNSET, false)];
      order := order + [q.name];
      return None;
    }

    /** Check. */
    method Check(ping: bool, factory: Factory) returns (ok: bool)
      modifies this`registry, this`order
      ensures View() == CheckStep(cfg, old(View()), ping, factory)
      ensures ok <==> ping && BuildQueues(old(Reg()), cfg.queues, factory).error.None?
    {
      if !ping { return false; }
      var e := BuildConfiguredQueues(factory);
      return e.None?;
    }

    /** takeWorkers. */
    method TakeWorkers() returns (taken: seq<Worker>)
      modifies this`workers
      ensures taken == old(workers) && workers == []
    {
      taken := workers;
      workers := [];
    }

    /** abortWorkers: take what was launched and stop each of them, ignoring failures. */
    method AbortWorkers()
      modifies this`workers, this`handed
      ensures Fleet(workers, handed, spawned) == Take(old(Fleet(workers, handed, spawned)))
    {
      var taken := TakeWorkers();
      for i := 0 to |taken|
        invariant handed == old(handed) + taken[..i]
        invariant workers == []
      {
        handed := handed + [taken[i]];
      }
    }

    /** The launching loop of Start, with its rollback. */
    method LaunchWorkers(names: seq<string>, process: string -> bool) returns (refused: Option<string>)
      modifies this`workers, this`handed, this`spawned
      ensures var m, was := LaunchedUpTo(names, process), old(Fleet(workers, handed, spawned));
        && refused == (if m < |names| then Some(names[m]) else None)
        && Fleet(workers, handed, spawned) == if m < |names| then Take(LaunchAll(was, names[..m])) else LaunchAll(was, names)
    {
      ghost var was := Fleet(workers, handed, spawned);
      for i := 0 to |names|
        invariant forall j :: 0 <= j < i ==> process(names[j])
        invariant Fleet(workers, handed, spawned) == LaunchAll(was, names[..i])
      {
        if !process(names[i]) {
          AbortWorkers();
          return Some(names[i]);
        }
        assert names[..i + 1][..i] == names[..i];
        workers, spawned := workers + [Worker(names[i], spawned)], spawned + 1;
      }
      assert names[..|names|] == names;
      return None;
    }

    /** Start. */
    method Start(w: Launch) returns (r: StartResult)
      modifies this
      ensures View() == StartStep(cfg, old(View()), w)
      ensures r == StartOutcome(cfg, old(View()), w)
    {
      if started { return CalledTwice; }
      started := true;
      var e := BuildConfiguredQueues(w.factory);
      if e.Some? { return NotBuilt(e.value); }
      var names := Dedup.DedupeFresh(order);
      r := LaunchAndListen(names, w);
    }

    /** Start once the queues are known. */
    method LaunchAndListen(names: seq<string>, w: Launch) returns (r: StartResult)
      modifies this`workers, this`handed, this`spawned, this`srv
      ensures r == LaunchOutcome(cfg, names, w)
      ensures Fleet(workers, handed, spawned) == FleetAfterStart(old(Fleet(workers, handed, spawned)), names, w, r)
      ensures srv == (old(srv) || (r == Started && ServerEnabled(cfg)))
    {
      if |names| == 0 { return NoQueues; }
      var refused := LaunchWorkers(names, w.process);
      if refused.Some? { return NotLaunched(refused.value); }
      if ServerEnabled(cfg) {
        if !w.listen {
          AbortWorkers();
          return NotListening;
        }
        srv := true;
      }
      return Started;
    }

    /** stopWorkers: every worker taken is drained, and the failures are joined. */
    method StopWorkers(drain: Worker -> bool) returns (bad: seq<string>)
      modifies this`workers, this`handed
      ensures Fleet(workers, handed, spawned) == Take(old(Fleet(workers, handed, spawned)))
      ensures bad == Undrained(old(workers), drain)
    {
      var taken := TakeWorkers();
      bad := [];
      for i := 0 to |taken|
        invariant handed == old(handed) + taken[..i]
        invariant bad == Undrained(taken[..i], drain)
        invariant workers == []
      {
        assert taken[..i + 1][..i] == taken[..i];
        handed := handed + [taken[i]];
        if !drain(taken[i]) {
          bad := bad + [taken[i].name];
        }
      }
      assert taken[..|taken|] == taken;
    }

    /** Shutdown. */
    method Shutdown(w: Closing) returns (error: StopError)
      modifies this
      ensures View() == ShutdownStep(old(View()), w)
      ensures error == View().stop.error
    {
      if !stopOnce {
        stopOnce := true;
        var serverFailed := srv && !w.server;
        var bad := StopWorkers(w.drain);
        closes := closes + 1;
        stopped := true;
        stopErr := StopError(serverFailed, bad, !w.client, !w.redis);
      }
      return stopErr;
    }

    /** isServing. */
    method IsServing() returns (b: bool)
      ensures b == Serving(View())
    {
      return started && !stopped;
    }
  }

  predicate Serving(s: State) {
    s.started && !s.stop.stopped
  }
}
