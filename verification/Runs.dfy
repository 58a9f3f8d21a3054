/** What holds after every sequence of completed Handle, Check, Start and Shutdown calls. */
module Runs {
  import opened Prelude
  import opened Config
  import opened Registry
  import opened Lifecycle
  import Dedup

  /** One call, with everything the outside world does during it. */
  datatype Call =
    | Handle(queue: string, tune: Tuning)
    | Check(ping: bool, factory: Factory)
    | Start(launch: Launch)
    | Shutdown(closing: Closing)

  function Step(c: Config, s: State, call: Call): State {
    match call
    case Handle(queue, tune) => s.(reg := Registered(s.reg, s.started, Registration(queue, tune, true)))
    case Check(ping, factory) => CheckStep(c, s, ping, factory)
    case Start(launch) => StartStep(c, s, launch)
    case Shutdown(closing) => ShutdownStep(s, closing)
  }

  function Run(c: Config, calls: seq<Call>): State {
    if calls == [] then INITIAL else Step(c, Run(c, calls[..|calls| - 1]), calls[|calls| - 1])
  }

  lemma RunMore(c: Config, calls: seq<Call>, more: seq<Call>)
    requires more != []
    ensures Run(c, calls + more) == Step(c, Run(c, calls + more[..|more| - 1]), more[|more| - 1])
  {
    assert (calls + more)[..|calls + more| - 1] == calls + more[..|more| - 1];
  }

  // ----- the registry -----

  ghost predicate RegistryOk(c: Config, g: Registry) {
    Consistent(g) && Declared(g, c.queues)
  }

  /** What a call leaves of the registry: unchanged, one more code queue, or a build of the configuration. */
  lemma StepRegistry(c: Config, s: State, call: Call)
    ensures var g := Step(c, s, call).reg;
      || g == s.reg
      || (call.Handle? && Refusal(s.reg, s.started, Registration(call.queue, call.tune, true)).None?
          && g == Registered(s.reg, s.started, Registration(call.queue, call.tune, true)))
      || (!call.Handle? && exists m: nat :: m <= |c.queues| && g == Configured(s.reg, c.queues[..m]))
  {
  }

  lemma StepKeepsRegistryOk(c: Config, s: State, call: Call)
    requires RegistryOk(c, s.reg)
    ensures RegistryOk(c, Step(c, s, call).reg)
  {
    StepRegistry(c, s, call);
    var g := Step(c, s, call).reg;
    if !call.Handle? && g != s.reg {
      var m: nat :| m <= |c.queues| && g == Configured(s.reg, c.queues[..m]);
      ConfiguredKeepsConsistent(s.reg, c.queues[..m]);
      ConfiguredKeepsDeclared(s.reg, c.queues, m);
    } else if g != s.reg {
      RegisterKeepsConsistent(s.reg, s.started, Registration(call.queue, call.tune, true));
    }
  }

  /** In every run the names in `order` are exactly the registry's keys. */
  lemma {:induction false} RegistryConsistent(c: Config, calls: seq<Call>)
    ensures RegistryOk(c, Run(c, calls).reg)
  {
    if calls != [] {
      RegistryConsistent(c, calls[..|calls| - 1]);
      StepKeepsRegistryOk(c, Run(c, calls[..|calls| - 1]), calls[|calls| - 1]);
    }
  }

  /** One call only appends to `order` and leaves every code registration as it is. */
  lemma StepOnlyAdds(c: Config, s: State, call: Call, x: string)
    ensures s.reg.order <= Step(c, s, call).reg.order
    ensures Claimed(s.reg, x) ==> x in Step(c, s, call).reg.entries && Step(c, s, call).reg.entries[x] == s.reg.entries[x]
  {
    StepRegistry(c, s, call);
    var g := Step(c, s, call).reg;
    if !call.Handle? && g != s.reg {
      var m: nat :| m <= |c.queues| && g == Configured(s.reg, c.queues[..m]);
      ConfiguredIs(s.reg, c.queues[..m], x);
      UnclaimedIff(s.reg, c.queues[..m], x);
    }
  }

  lemma {:induction false} RunOnlyAdds(c: Config, calls: seq<Call>, more: seq<Call>, x: string)
    ensures var g, h := Run(c, calls).reg, Run(c, calls + more).reg;
      g.order <= h.order && (Claimed(g, x) ==> x in h.entries && h.entries[x] == g.entries[x])
    decreases |more|
  {
    if more == [] {
      assert calls + more == calls;
    } else {
      var init := more[..|more| - 1];
      RunOnlyAdds(c, calls, init, x);
      RunMore(c, calls, more);
      StepOnlyAdds(c, Run(c, calls + init), more[|more| - 1], x);
    }
  }

  /**
   * However a run goes on, the queues registered so far keep their places at the
   * front of registeredQueues and a code registration is never replaced.
   */
  lemma RegistrationsAreStable(c: Config, calls: seq<Call>, more: seq<Call>, x: string)
    ensures var g, h := Run(c, calls).reg, Run(c, calls + more).reg;
      && Dedup.Firsts(g.order) <= Dedup.Firsts(h.order)
      && (Claimed(g, x) ==> x in h.entries && h.entries[x] == g.entries[x])
  {
    RunOnlyAdds(c, calls, more, x);
    var a, b := Run(c, calls).reg.order, Run(c, calls + more).reg.order;
    assert b == a + b[|a|..];
    Dedup.FirstsGrows(a, b[|a|..]);
  }

  /** registeredQueues lists each registered queue once, in the order of first registration. */
  lemma RegisteredQueuesExact(c: Config, calls: seq<Call>)
    ensures var g := Run(c, calls).reg;
      var names := Dedup.Firsts(g.order);
      && Dedup.NoRepeats(names) && Dedup.InFirstOrder(names, g.order)
      && forall x :: x in names <==> x in g.entries
  {
    RegistryConsistent(c, calls);
    Dedup.FirstsIsFirsts(Run(c, calls).reg.order);
  }

  ghost predicate AcceptedAt(c: Config, calls: seq<Call>, i: nat, x: string) {
    && i < |calls| && calls[i].Handle? && calls[i].queue == x
    && Refusal(Run(c, calls[..i]).reg, Run(c, calls[..i]).started, Registration(x, calls[i].tune, true)).None?
  }

  lemma StepClaims(c: Config, s: State, call: Call, x: string)
    ensures Claimed(Step(c, s, call).reg, x) <==>
      || Claimed(s.reg, x)
      || (call.Handle? && call.queue == x && Refusal(s.reg, s.started, Registration(x, call.tune, true)).None?)
  {
    StepRegistry(c, s, call);
    var g := Step(c, s, call).reg;
    if !call.Handle? && g != s.reg {
      var m: nat :| m <= |c.queues| && g == Configured(s.reg, c.queues[..m]);
      ConfiguredIs(s.reg, c.queues[..m], x);
    }
  }

  /** A queue is claimed exactly when some Handle call for it was accepted. */
  lemma {:induction false} ClaimedIff(c: Config, calls: seq<Call>, x: string)
    ensures Claimed(Run(c, calls).reg, x) <==> exists i: nat :: AcceptedAt(c, calls, i, x)
  {
    if calls != [] {
      var init, last := calls[..|calls| - 1], calls[|calls| - 1];
      ClaimedIff(c, init, x);
      StepClaims(c, Run(c, init), last, x);
      forall i: nat | i < |init|
        ensures AcceptedAt(c, calls, i, x) <==> AcceptedAt(c, init, i, x)
      {
        assert calls[..i] == init[..i];
      }
      assert AcceptedAt(c, calls, |init|, x) <==>
        last.Handle? && last.queue == x && Refusal(Run(c, init).reg, Run(c, init).started, Registration(x, last.tune, true)).None?;
      if i: nat :| AcceptedAt(c, calls, i, x) {
        assert i < |init| ==> AcceptedAt(c, init, i, x);
      }
      if i: nat :| AcceptedAt(c, init, i, x) {
        assert AcceptedAt(c, calls, i, x);
      }
    }
  }

  /** Handle is accepted exactly for a named queue that is not registered yet, before the first Start; otherwise nothing changes. */
  lemma HandleAcceptedIff(c: Config, calls: seq<Call>, queue: string, tune: Tuning)
    ensures var s, r := Run(c, calls), Registration(queue, tune, true);
      var t := Step(c, s, Handle(queue, tune));
      && (Refusal(s.reg, s.started, r).None? <==> queue != "" && !HasStart(calls) && queue !in s.reg.entries)
      && (Refusal(s.reg, s.started, r).Some? ==> t == s)
      && (Refusal(s.reg, s.started, r).None? ==>
            t.reg.order == s.reg.order + [queue] && t.reg.entries == s.reg.entries[queue := r])
  {
    FlagsRecordCalls(c, calls);
  }

  /** After any run a build succeeds exactly when every declared queue is claimed by code or has an executor that builds. */
  lemma BuildsIff(c: Config, calls: seq<Call>, factory: Factory)
    ensures BuildQueues(Run(c, calls).reg, c.queues, factory).error.None? <==>
      forall i :: 0 <= i < |c.queues| ==>
        || (exists j: nat :: AcceptedAt(c, calls, j, c.queues[i].name))
        || (c.queues[i].executor.Some? && factory(c.queues[i]) == Built)
  {
    forall i | 0 <= i < |c.queues|
      ensures Claimed(Run(c, calls).reg, c.queues[i].name) <==> exists j: nat :: AcceptedAt(c, calls, j, c.queues[i].name)
    {
      ClaimedIff(c, calls, c.queues[i].name);
    }
    BuildErrorIs(Run(c, calls).reg, c.queues, factory);
  }

  // ----- the workers -----

  /** Every worker launched so far is in `handed` or in `running`, once, in launch order. */
  ghost predicate Accounted(f: Fleet) {
    && |f.handed| + |f.running| == f.spawned
    && (forall i :: 0 <= i < |f.handed| ==> f.handed[i].id == i)
    && (forall i :: 0 <= i < |f.running| ==> f.running[i].id == |f.handed| + i)
  }

  lemma TakeKeepsAccounted(f: Fleet)
    requires Accounted(f)
    ensures Accounted(Take(f))
  {
  }

  lemma {:induction false} LaunchKeepsAccounted(f: Fleet, names: seq<string>)
    requires Accounted(f)
    ensures var g := LaunchAll(f, names);
      && Accounted(g) && g.handed == f.handed && g.spawned == f.spawned + |names|
      && |g.running| == |f.running| + |names| && g.running[..|f.running|] == f.running
      && forall i :: 0 <= i < |names| ==> g.running[|f.running| + i].name == names[i]
  {
    if names != [] {
      LaunchKeepsAccounted(f, names[..|names| - 1]);
    }
  }

  /** Before the first Start nothing was launched; a Start that failed holds nothing; and the books balance. */
  ghost predicate FleetOk(s: State) {
    Accounted(s.fleet) && (!s.started ==> s.fleet.spawned == 0)
  }

  lemma StartFleet(f: Fleet, names: seq<string>, w: Launch, r: StartResult)
    requires Accounted(f)
    ensures var g := FleetAfterStart(f, names, w, r);
      && Accounted(g)
      && (r != Started && f.running == [] ==> g.running == [] && |g.handed| == g.spawned)
      && (r == NotListening ==> g.spawned == f.spawned + |names|)
      && (r.NotLaunched? ==> g.spawned == f.spawned + LaunchedUpTo(names, w.process))
  {
    LaunchKeepsAccounted(f, names);
    LaunchKeepsAccounted(f, names[..LaunchedUpTo(names, w.process)]);
  }

  lemma StepKeepsFleetOk(c: Config, s: State, call: Call)
    requires FleetOk(s)
    ensures FleetOk(Step(c, s, call))
  {
    if call.Start? {
      var b := BuildQueues(s.reg, c.queues, call.launch.factory);
      var names := Dedup.Firsts(b.registry.order);
      StartFleet(s.fleet, names, call.launch, LaunchOutcome(c, names, call.launch));
    } else if call.Shutdown? {
      TakeKeepsAccounted(s.fleet);
    }
  }

  lemma {:induction false} FleetAccounted(c: Config, calls: seq<Call>)
    ensures FleetOk(Run(c, calls))
  {
    if calls != [] {
      FleetAccounted(c, calls[..|calls| - 1]);
      StepKeepsFleetOk(c, Run(c, calls[..|calls| - 1]), calls[|calls| - 1]);
    }
  }

  /** In every run each launched worker is either still held or was handed over, exactly once. */
  lemma HandedOverAtMostOnce(c: Config, calls: seq<Call>, id: nat)
    ensures var f := Run(c, calls).fleet;
      var all := f.handed + f.running;
      && |all| == f.spawned
      && (id < f.spawned ==> all[id].id == id)
      && (forall i, j :: 0 <= i < j < |all| ==> all[i].id != all[j].id)
  {
    FleetAccounted(c, calls);
    var f := Run(c, calls).fleet;
    assert forall i :: 0 <= i < f.spawned ==> (f.handed + f.running)[i].id == i;
  }

  /** A Start that fails after any run leaves no worker held, and all it launched were handed over to be stopped. */
  lemma FailedStartHoldsNothing(c: Config, calls: seq<Call>, w: Launch)
    requires !Run(c, calls).started && StartOutcome(c, Run(c, calls), w) != Started
    ensures var s := Step(c, Run(c, calls), Start(w));
      && s.started && s.fleet.running == [] && |s.fleet.handed| == s.fleet.spawned
  {
    FleetAccounted(c, calls);
    var s := Run(c, calls);
    var b := BuildQueues(s.reg, c.queues, w.factory);
    var names := Dedup.Firsts(b.registry.order);
    StartFleet(s.fleet, names, w, LaunchOutcome(c, names, w));
  }

  function QueueNames(ws: seq<Worker>): (r: seq<string>)
    ensures |r| == |ws| && forall i :: 0 <= i < |r| ==> r[i] == ws[i].name
  {
    seq(|ws|, i requires 0 <= i < |ws| => ws[i].name)
  }

  lemma StartedFleet(f: Fleet, names: seq<string>)
    requires Accounted(f) && f.running == []
    ensures QueueNames(LaunchAll(f, names).running) == names
  {
    LaunchKeepsAccounted(f, names);
  }

  /** A successful Start holds exactly one worker per queue that code claimed or the configuration declares. */
  lemma OneWorkerPerQueue(c: Config, calls: seq<Call>, w: Launch)
    requires StartOutcome(c, Run(c, calls), w) == Started
    ensures var s, t := Run(c, calls), Step(c, Run(c, calls), Start(w));
      var names := QueueNames(t.fleet.running);
      && names == Dedup.Firsts(t.reg.order) && names != [] && Dedup.NoRepeats(names)
      && forall x :: x in names <==> Claimed(s.reg, x) || x in Names(c.queues)
  {
    var s, t := Run(c, calls), Step(c, Run(c, calls), Start(w));
    RegistryConsistent(c, calls);
    StepKeepsRegistryOk(c, s, Start(w));
    FleetAccounted(c, calls);
    Dedup.FirstsIsFirsts(t.reg.order);
    StartedFleet(s.fleet, Dedup.Firsts(t.reg.order));
    forall x
      ensures x in t.reg.entries <==> Claimed(s.reg, x) || x in Names(c.queues)
    {
      BuiltRegistry(s.reg, c.queues, w.factory, x);
    }
  }

  /** Start succeeds after a run exactly when none was called before, every queue is built, there is one, all launch, and the listener, if wanted, listens. */
  lemma StartSucceedsIff(c: Config, calls: seq<Call>, w: Launch)
    ensures var s := Run(c, calls);
      var b := BuildQueues(s.reg, c.queues, w.factory);
      StartOutcome(c, s, w) == Started <==>
        && !HasStart(calls) && b.error.None? && b.registry.order != []
        && (forall x :: x in b.registry.order ==> w.process(x))
        && (c.serverAddr == "" || c.serverAddr == "off" || w.listen)
  {
    FlagsRecordCalls(c, calls);
    var b := BuildQueues(Run(c, calls).reg, c.queues, w.factory);
    var names := Dedup.Firsts(b.registry.order);
    Dedup.FirstsIsFirsts(b.registry.order);
    assert names == [] <==> b.registry.order == [] by {
      assert names != [] ==> names[0] in b.registry.order;
      assert b.registry.order != [] ==> b.registry.order[0] in names;
    }
    LaunchesAllIff(names, w.process);
  }

  lemma LaunchesAllIff(names: seq<string>, process: string -> bool)
    ensures LaunchedUpTo(names, process) == |names| <==> forall x :: x in names ==> process(x)
  {
    var m := LaunchedUpTo(names, process);
    assert m < |names| ==> names[m] in names;
  }

  /** With the defaults applied, the listener is wanted unless the address is "off". */
  lemma ListenerIff(c: Config)
    ensures ServerEnabled(ApplyDefaults(c)) <==> c.serverAddr != "off"
  {
  }

  // ----- Shutdown -----

  ghost predicate HasShutdown(calls: seq<Call>) {
    exists j :: 0 <= j < |calls| && calls[j].Shutdown?
  }

  ghost predicate HasStart(calls: seq<Call>) {
    exists j :: 0 <= j < |calls| && calls[j].Start?
  }

  lemma HasShutdownSnoc(calls: seq<Call>, last: Call)
    ensures HasShutdown(calls + [last]) <==> HasShutdown(calls) || last.Shutdown?
  {
    var all := calls + [last];
    assert all[|calls|] == last && forall j :: 0 <= j < |calls| ==> all[j] == calls[j];
  }

  lemma HasStartSnoc(calls: seq<Call>, last: Call)
    ensures HasStart(calls + [last]) <==> HasStart(calls) || last.Start?
  {
    var all := calls + [last];
    assert all[|calls|] == last && forall j :: 0 <= j < |calls| ==> all[j] == calls[j];
  }

  /** Redis is closed at most once, and exactly when Shutdown was called; `started` and `stopped` record the calls. */
  lemma {:induction false} FlagsRecordCalls(c: Config, calls: seq<Call>)
    ensures var s := Run(c, calls);
      && (s.stop.done <==> HasShutdown(calls)) && s.stop.stopped == s.stop.done
      && s.stop.closes == (if HasShutdown(calls) then 1 else 0)
      && (s.started <==> HasStart(calls))
  {
    if calls != [] {
      var init := calls[..|calls| - 1];
      FlagsRecordCalls(c, init);
      assert calls == init + [calls[|calls| - 1]];
      HasShutdownSnoc(init, calls[|calls| - 1]);
      HasStartSnoc(init, calls[|calls| - 1]);
    }
  }

  /** The first Shutdown takes every worker; any later one changes nothing and returns the same result. */
  lemma {:induction false} ShutdownOnce(c: Config, calls: seq<Call>, w: Closing, more: seq<Call>)
    requires !HasShutdown(calls)
    ensures var s, t := Run(c, calls), Run(c, calls + [Shutdown(w)]);
      && t.fleet.running == [] && t.fleet.handed == s.fleet.handed + s.fleet.running
      && t.stop.error == StopErrors(s, w)
      && Run(c, calls + [Shutdown(w)] + more).stop == t.stop
    decreases |more|
  {
    FlagsRecordCalls(c, calls);
    var first := calls + [Shutdown(w)];
    assert first[..|first| - 1] == calls;
    if more == [] {
      assert first + more == first;
    } else {
      var init := more[..|more| - 1];
      assert (first + more)[..|first + more| - 1] == first + init;
      ShutdownOnce(c, calls, w, init);
    }
  }

  /** A queue is reported exactly when one of its workers failed to drain. */
  lemma {:induction false} UndrainedIff(workers: seq<Worker>, drain: Worker -> bool, x: string)
    ensures x in Undrained(workers, drain) <==> exists i :: 0 <= i < |workers| && workers[i].name == x && !drain(workers[i])
  {
    if workers != [] {
      UndrainedIff(workers[..|workers| - 1], drain, x);
    }
  }

  /** The reports of two groups follow one another, so each failure is reported once and in order. */
  lemma {:induction false} UndrainedConcat(a: seq<Worker>, b: seq<Worker>, drain: Worker -> bool)
    ensures Undrained(a + b, drain) == Undrained(a, drain) + Undrained(b, drain)
    decreases |b|
  {
    if b == [] {
      assert a + b == a;
    } else {
      var init := b[..|b| - 1];
      assert (a + b)[..|a + b| - 1] == a + init;
      UndrainedConcat(a, init, drain);
    }
  }

  /** What the first Shutdown after any run reports: nothing exactly when every phase went well, and which queues otherwise. */
  lemma ShutdownReports(c: Config, calls: seq<Call>, w: Closing, x: string)
    requires !HasShutdown(calls)
    ensures var s, e := Run(c, calls), Run(c, calls + [Shutdown(w)]).stop.error;
      && (e == NO_ERROR <==> (s.srv ==> w.server) && w.client && w.redis && forall i :: 0 <= i < |s.fleet.running| ==> w.drain(s.fleet.running[i]))
      && (x in e.queues <==> exists i :: 0 <= i < |s.fleet.running| && s.fleet.running[i].name == x && !w.drain(s.fleet.running[i]))
      && (e.server <==> s.srv && !w.server) && (e.client <==> !w.client) && (e.redis <==> !w.redis)
  {
    ShutdownOnce(c, calls, w, []);
    var running := Run(c, calls).fleet.running;
    UndrainedIff(running, w.drain, x);
    NoneUndrainedIff(running, w.drain);
  }

  lemma NoneUndrainedIff(workers: seq<Worker>, drain: Worker -> bool)
    ensures Undrained(workers, drain) == [] <==> forall i :: 0 <= i < |workers| ==> drain(workers[i])
  {
    if i :| 0 <= i < |workers| && !drain(workers[i]) {
      UndrainedIff(workers, drain, workers[i].name);
    } else if Undrained(workers, drain) != [] {
      UndrainedIff(workers, drain, Undrained(workers, drain)[0]);
    }
  }

  ghost predicate StartsAt(c: Config, calls: seq<Call>, i: nat) {
    i < |calls| && calls[i].Start? && StartOutcome(c, Run(c, calls[..i]), calls[i].launch) == Started
  }

  /** The Start at `i` is not followed by the Shutdown that does the work. */
  ghost predicate Unpaired(calls: seq<Call>, i: nat)
    requires i < |calls|
  {
    HasShutdown(calls[..i]) || !HasShutdown(calls[i + 1..])
  }

  ghost predicate LeftAt(c: Config, calls: seq<Call>, i: nat) {
    StartsAt(c, calls, i) && Unpaired(calls, i)
  }

  ghost predicate Leaves(c: Config, calls: seq<Call>) {
    exists i: nat :: LeftAt(c, calls, i)
  }

  lemma StartsAtInit(c: Config, calls: seq<Call>, i: nat)
    requires i < |calls| - 1
    ensures StartsAt(c, calls, i) <==> StartsAt(c, calls[..|calls| - 1], i)
  {
    assert calls[..|calls| - 1][..i] == calls[..i];
  }

  lemma HasShutdownParts(calls: seq<Call>, i: nat)
    requires i < |calls|
    ensures HasShutdown(calls) <==> HasShutdown(calls[..i]) || calls[i].Shutdown? || HasShutdown(calls[i + 1..])
  {
    assert forall j :: 0 <= j < i ==> calls[j] == calls[..i][j];
    assert forall j :: i < j < |calls| ==> calls[j] == calls[i + 1..][j - i - 1];
  }

  /** What one more call does to an unpaired Start: a Shutdown pairs it unless one came before it. */
  lemma UnpairedInit(calls: seq<Call>, i: nat)
    requires i < |calls| - 1 && !calls[i].Shutdown?
    ensures var init, last := calls[..|calls| - 1], calls[|calls| - 1];
      Unpaired(calls, i) <==> Unpaired(init, i) && (last.Shutdown? ==> HasShutdown(init))
  {
    var init, last := calls[..|calls| - 1], calls[|calls| - 1];
    assert init[..i] == calls[..i];
    assert calls[i + 1..] == init[i + 1..] + [last];
    HasShutdownSnoc(init[i + 1..], last);
    HasShutdownParts(init, i);
  }

  lemma LeftAtInit(c: Config, calls: seq<Call>, i: nat)
    requires i < |calls| - 1
    ensures var init, last := calls[..|calls| - 1], calls[|calls| - 1];
      LeftAt(c, calls, i) <==> LeftAt(c, init, i) && (last.Shutdown? ==> HasShutdown(init))
  {
    StartsAtInit(c, calls, i);
    if !calls[i].Shutdown? {
      UnpairedInit(calls, i);
    }
  }

  lemma LeftAtLast(c: Config, calls: seq<Call>)
    requires calls != []
    ensures LeftAt(c, calls, |calls| - 1) <==> StartsAt(c, calls, |calls| - 1)
  {
    assert calls[|calls|..] == [];
  }

  lemma LeavesBackward(c: Config, calls: seq<Call>, i: nat)
    requires LeftAt(c, calls, i)
    ensures var init, last := calls[..|calls| - 1], calls[|calls| - 1];
      StartsAt(c, calls, |init|) || (Leaves(c, init) && (last.Shutdown? ==> HasShutdown(init)))
  {
    if i < |calls| - 1 {
      LeftAtInit(c, calls, i);
      assert LeftAt(c, calls[..|calls| - 1], i);
    }
  }

  lemma LeavesForward(c: Config, calls: seq<Call>)
    requires calls != []
    requires var init, last := calls[..|calls| - 1], calls[|calls| - 1];
      Leaves(c, init) && (last.Shutdown? ==> HasShutdown(init))
    ensures Leaves(c, calls)
  {
    var i: nat :| LeftAt(c, calls[..|calls| - 1], i);
    LeftAtInit(c, calls, i);
  }

  /** Carrying the exact condition over one more call. */
  lemma LeavesInit(c: Config, calls: seq<Call>)
    requires calls != []
    ensures var init, last := calls[..|calls| - 1], calls[|calls| - 1];
      Leaves(c, calls) <==> StartsAt(c, calls, |init|) || (Leaves(c, init) && (last.Shutdown? ==> HasShutdown(init)))
  {
    var init, last := calls[..|calls| - 1], calls[|calls| - 1];
    if i: nat :| LeftAt(c, calls, i) {
      LeavesBackward(c, calls, i);
    } else {
      LeftAtLast(c, calls);
      if Leaves(c, init) && (last.Shutdown? ==> HasShutdown(init)) {
        LeavesForward(c, calls);
      }
    }
  }

  /**
   * Shutdown is meant to stop every worker. After any run a worker is still held
   * exactly when a Start succeeded and no Shutdown has followed it, or one had
   * already been called before it.
   */
  lemma {:induction false} WorkersHeldIff(c: Config, calls: seq<Call>)
    ensures Run(c, calls).fleet.running != [] <==> Leaves(c, calls)
  {
    if calls != [] {
      var init, last := calls[..|calls| - 1], calls[|calls| - 1];
      WorkersHeldIff(c, init);
      FlagsRecordCalls(c, init);
      FleetAccounted(c, init);
      LeavesInit(c, calls);
      if last.Start? {
        HeldAfterStart(c, init, last.launch);
      }
    }
  }

  lemma HeldAfterStart(c: Config, calls: seq<Call>, w: Launch)
    ensures Step(c, Run(c, calls), Start(w)).fleet.running != [] <==>
      Run(c, calls).fleet.running != [] || StartOutcome(c, Run(c, calls), w) == Started
  {
    FleetAccounted(c, calls);
    if StartOutcome(c, Run(c, calls), w) == Started {
      OneWorkerPerQueue(c, calls, w);
    } else if !Run(c, calls).started {
      FailedStartHoldsNothing(c, calls, w);
    }
  }

  /** A Start that succeeds after a Shutdown holds workers that no later call will ever take. */
  lemma StartAfterShutdownIsNeverStopped(c: Config, calls: seq<Call>, w: Launch, more: seq<Call>)
    requires HasShutdown(calls) && StartOutcome(c, Run(c, calls), w) == Started
    ensures Run(c, calls + [Start(w)] + more).fleet.running != []
  {
    var all, i := calls + [Start(w)] + more, |calls|;
    assert all[..i] == calls;
    assert LeftAt(c, all, i);
    WorkersHeldIff(c, all);
  }

  /** Such a run exists: a runtime with one configured queue, shut down before it was started. */
  lemma StartAfterShutdownExample(c: Config, q: QueueConfig, closing: Closing, w: Launch)
    requires c.queues == [q] && q.executor.Some? && w.factory(q) == Built && w.process(q.name) && (ServerEnabled(c) ==> w.listen)
    ensures HasShutdown([Shutdown(closing)]) && StartOutcome(c, Run(c, [Shutdown(closing)]), w) == Started
  {
    var calls := [Shutdown(closing)];
    assert calls[0].Shutdown?;
    assert calls[..0] == [];
    assert Run(c, calls) == Step(c, INITIAL, calls[0]);
    OneQueueStarts(c, q, Run(c, calls), w);
  }

  lemma OneQueueStarts(c: Config, q: QueueConfig, s: State, w: Launch)
    requires !s.started && s.reg == EMPTY
    requires c.queues == [q] && q.executor.Some? && w.factory(q) == Built && w.process(q.name) && (ServerEnabled(c) ==> w.listen)
    ensures StartOutcome(c, s, w) == Started
  {
    BuiltUpToIs(EMPTY, c.queues, w.factory, 1);
    assert c.queues[..1] == [q];
    OneBlock(q);
    Dedup.FirstsOfDistinct([q.name]);
    LaunchesAll([q.name], w.process);
  }

  lemma OneBlock(q: QueueConfig)
    ensures Configured(EMPTY, [q]).order == [q.name]
  {
    assert [q][..0] == [];
    assert Configured(EMPTY, [q]) == AddBlock(EMPTY, q);
    assert EMPTY.order + [q.name] == [q.name];
  }

  lemma LaunchesAll(names: seq<string>, process: string -> bool)
    requires forall i :: 0 <= i < |names| ==> process(names[i])
    ensures LaunchedUpTo(names, process) == |names|
  {
  }

  /** Between calls, isServing says yes without any worker exactly when every Start failed and Shutdown was not called. */
  lemma ServingWithoutWorkersIff(c: Config, calls: seq<Call>)
    ensures Serving(Run(c, calls)) <==> HasStart(calls) && !HasShutdown(calls)
    ensures Serving(Run(c, calls)) && Run(c, calls).fleet.running == [] <==>
      HasStart(calls) && !HasShutdown(calls) && forall i: nat :: !StartsAt(c, calls, i)
  {
    FlagsRecordCalls(c, calls);
    WorkersHeldIff(c, calls);
    if i: nat :| StartsAt(c, calls, i) && !HasShutdown(calls) {
      HasShutdownParts(calls, i);
      assert LeftAt(c, calls, i);
    }
  }

  // ----- the pool -----

  /**
   * An auto-sized pool draws the warning exactly when the code registrations ask for
   * more than the configuration reckons with; queues built from it never add to that.
   */
  lemma PoolWarning(c: Config, calls: seq<Call>, factory: Factory)
    requires ValidConfig(c) && c.poolSize == 0 && BuildQueues(Run(c, calls).reg, c.queues, factory).error.None?
    ensures var g := BuildQueues(Run(c, calls).reg, c.queues, factory).registry;
      var names := Dedup.Firsts(g.order);
      && (forall x :: x in names <==> x in g.entries)
      && TotalSlots(c, g, names) == Shares(c, c.queues) + Sum(x => Excess(c, g, x), names)
      && (Fits(c, TotalSlots(c, g, names)) ==>
            (PoolTooSmall(c, g, names) <==> Sum(x => Excess(c, g, x), names) > if c.queues == [] then c.defaults.concurrency else 0))
      && (forall x :: x in names && !Claimed(Run(c, calls).reg, x) ==> Excess(c, g, x) == 0)
  {
    var before := Run(c, calls).reg;
    var g := BuildQueues(before, c.queues, factory).registry;
    var names := Dedup.Firsts(g.order);
    BuiltIsOk(c, calls, factory);
    Dedup.FirstsIsFirsts(g.order);
    forall x
      ensures x in g.entries <==> Claimed(before, x) || x in Names(c.queues)
      ensures x in names && !Claimed(before, x) ==> Excess(c, g, x) == 0
    {
      BuiltRegistry(before, c.queues, factory, x);
      ConfiguredIs(before, c.queues[..|c.queues|], x);
      if x in names && !Claimed(before, x) {
        ConfiguredHasNoExcess(c, g, x);
      }
    }
    PoolWarningIff(c, g, names);
    TotalOfReckoned(c, g, names);
  }

  lemma BuiltIsOk(c: Config, calls: seq<Call>, factory: Factory)
    ensures RegistryOk(c, Run(c, calls).reg)
    ensures RegistryOk(c, BuildQueues(Run(c, calls).reg, c.queues, factory).registry)
  {
    RegistryConsistent(c, calls);
    StepKeepsRegistryOk(c, Run(c, calls), Check(true, factory));
  }

  lemma NoHandleNoClaim(c: Config, calls: seq<Call>, x: string)
    requires forall i :: 0 <= i < |calls| ==> !calls[i].Handle?
    ensures !Claimed(Run(c, calls).reg, x)
  {
    ClaimedIff(c, calls, x);
  }

  lemma SlotsOfConfigAlone(c: Config, calls: seq<Call>, factory: Factory)
    requires ValidConfig(c) && c.poolSize == 0
    requires forall i :: 0 <= i < |calls| ==> !calls[i].Handle?
    requires BuildQueues(Run(c, calls).reg, c.queues, factory).error.None?
    ensures var g := BuildQueues(Run(c, calls).reg, c.queues, factory).registry;
      var names := Dedup.Firsts(g.order);
      (forall x :: x in names <==> x in g.entries) && TotalSlots(c, g, names) == Shares(c, c.queues)
  {
    var g := BuildQueues(Run(c, calls).reg, c.queues, factory).registry;
    var names := Dedup.Firsts(g.order);
    PoolWarning(c, calls, factory);
    forall x | x in names
      ensures Excess(c, g, x) == 0
    {
      NoHandleNoClaim(c, calls, x);
    }
    SumOfZeros(x => Excess(c, g, x), names);
  }

  /**
   * Without code registrations the slots add up to what the pool was sized for. The
   * auto-sized pool is then meant never to warn, and does so exactly when the sum
   * wraps round to zero and the default used instead has no room for the headroom;
   * never when the sum fits.
   */
  lemma WarningFromConfigAloneIff(c: Config, calls: seq<Call>, factory: Factory)
    requires ValidConfig(c) && c.poolSize == 0 && c.queues != [] && IsInt64(c.defaults.concurrency)
    requires forall i :: 0 <= i < |calls| ==> !calls[i].Handle?
    requires BuildQueues(Run(c, calls).reg, c.queues, factory).error.None?
    ensures var g := BuildQueues(Run(c, calls).reg, c.queues, factory).registry;
      var names := Dedup.Firsts(g.order);
      && (forall x :: x in names <==> x in g.entries)
      && TotalSlots(c, g, names) == Shares(c, c.queues)
      && (PoolTooSmall(c, g, names) <==> Wrap64(Shares(c, c.queues)) == 0 && c.defaults.concurrency > MAX_INT64 - POOL_HEADROOM)
      && (IsInt64(Shares(c, c.queues)) ==> TotalSlots(c, g, names) == DeclaredConcurrency(c) && !PoolTooSmall(c, g, names))
  {
    var g := BuildQueues(Run(c, calls).reg, c.queues, factory).registry;
    var names := Dedup.Firsts(g.order);
    SlotsOfConfigAlone(c, calls, factory);
    PoolOfItsOwnSize(c, g, names);
  }

  /** Such a configuration is valid: three queues whose concurrencies add up to 2^64. */
  lemma WrappedSumExample(c: Config)
    requires HeaderOk(c) && c.defaults.concurrency == MAX_INT64
    requires |c.queues| == 3 && DistinctNames(c.queues) && forall i :: 0 <= i < 3 ==> QueueOk(c.queues[i])
    requires c.queues[0].tune.concurrency == Some(MAX_INT64) && c.queues[1].tune.concurrency == Some(MAX_INT64)
    requires c.queues[2].tune.concurrency == Some(2)
    ensures ValidConfig(c) && Wrap64(Shares(c, c.queues)) == 0 && c.defaults.concurrency > MAX_INT64 - POOL_HEADROOM
  {
    var q := c.queues;
    assert q[..1][..0] == [] && q[..2][..1] == q[..1];
    assert Shares(c, q[..1]) == MAX_INT64;
    assert Shares(c, q[..2]) == MAX_INT64 + MAX_INT64;
    assert Shares(c, q) == Shares(c, q[..2]) + 2;
  }
}
