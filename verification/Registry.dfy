/** Which queues a runtime consumes: registrations from code and from the configuration. */
module Registry {
  import opened Prelude
  import opened Config
  import Dedup

  datatype Registration = Registration(queue: string, tune: Tuning, fromCode: bool)

  /** rt.registry and rt.order. */
  datatype Registry = Registry(entries: map<string, Registration>, order: seq<string>)

  const EMPTY := Registry(map[], [])

  /** The names in `order` are exactly the registry's keys, and every entry sits under its own name. */
  ghost predicate Consistent(g: Registry) {
    && (forall x :: x in g.order <==> x in g.entries)
    && (forall x :: x in g.entries ==> g.entries[x].queue == x)
  }

  predicate Claimed(g: Registry, name: string) {
    name in g.entries && g.entries[name].fromCode
  }

  // ----- register -----

  datatype RegisterError = EmptyName | AfterStart | AlreadyRegistered

  function Refusal(g: Registry, started: bool, r: Registration): Option<RegisterError> {
    if r.queue == "" then Some(EmptyName)
    else if started then Some(AfterStart)
    else if r.queue in g.entries then Some(AlreadyRegistered)
    else None
  }

  function Registered(g: Registry, started: bool, r: Registration): Registry {
    if Refusal(g, started, r).Some? then g else Registry(g.entries[r.queue := r], g.order + [r.queue])
  }

  // ----- buildConfiguredQueues -----

  /** What the executor registry and the factory do for a queue block that has an executor. */
  datatype FactoryResult = UnknownType | FactoryFailed | Built

  type Factory = QueueConfig -> FactoryResult

  datatype BuildError = NoExecutor(queue: string) | UnknownExecutor(queue: string) | ExecutorFailed(queue: string)

  function QueueError(g: Registry, q: QueueConfig, factory: Factory): Option<BuildError> {
    if Claimed(g, q.name) then None
    else if q.executor.None? then Some(NoExecutor(q.name))
    else
      match factory(q)
      case UnknownType => Some(UnknownExecutor(q.name))
      case FactoryFailed => Some(ExecutorFailed(q.name))
      case Built => None
  }

  /** What the loop body does to the registry it finds. */
  function AddBlock(g: Registry, q: QueueConfig): Registry {
    if Claimed(g, q.name) then g
    else Registry(g.entries[q.name := Registration(q.name, UNSET, false)], g.order + [q.name])
  }

  /** The registry after the blocks of `queues`. */
  function Configured(g: Registry, queues: seq<QueueConfig>): Registry {
    if queues == [] then g else AddBlock(Configured(g, queues[..|queues| - 1]), queues[|queues| - 1])
  }

  /** How many blocks build before the first that does not. */
  function BuiltUpTo(g: Registry, queues: seq<QueueConfig>, factory: Factory): (m: nat)
    ensures m <= |queues|
    ensures forall i :: 0 <= i < m ==> QueueError(g, queues[i], factory).None?
    ensures m < |queues| ==> QueueError(g, queues[m], factory).Some?
  {
    if queues == [] || QueueError(g, queues[0], factory).Some? then 0
    else 1 + BuiltUpTo(g, queues[1..], factory)
  }

  datatype Build = Build(registry: Registry, error: Option<BuildError>)

  /** buildConfiguredQueues as one step: every block judged against the registry as it was before the call. */
  function BuildQueues(g: Registry, queues: seq<QueueConfig>, factory: Factory): Build {
    var m := BuiltUpTo(g, queues, factory);
    Build(Configured(g, queues[..m]), if m < |queues| then QueueError(g, queues[m], factory) else None)
  }

  /** The names of the blocks that code has not claimed. */
  function Unclaimed(g: Registry, queues: seq<QueueConfig>): seq<string> {
    if queues == [] then []
    else
      var init, last := queues[..|queues| - 1], queues[|queues| - 1].name;
      if Claimed(g, last) then Unclaimed(g, init) else Unclaimed(g, init) + [last]
  }

  lemma {:induction false} UnclaimedIff(g: Registry, queues: seq<QueueConfig>, name: string)
    ensures name in Unclaimed(g, queues) <==> !Claimed(g, name) && exists i :: 0 <= i < |queues| && queues[i].name == name
  {
    if queues != [] {
      UnclaimedIff(g, queues[..|queues| - 1], name);
    }
  }

  /** Configuring replaces no claim of code, adds none, and registers exactly the unclaimed blocks, in their order. */
  lemma {:induction false} ConfiguredIs(g: Registry, queues: seq<QueueConfig>, name: string)
    ensures var after := Configured(g, queues);
      && after.order == g.order + Unclaimed(g, queues)
      && (name in after.entries <==> name in g.entries || name in Unclaimed(g, queues))
      && (name in after.entries ==> after.entries[name] == if name in Unclaimed(g, queues) then Registration(name, UNSET, false) else g.entries[name])
      && (Claimed(after, name) <==> Claimed(g, name))
    decreases |queues|
  {
    if queues != [] {
      var init, last := queues[..|queues| - 1], queues[|queues| - 1].name;
      ConfiguredIs(g, init, name);
      ConfiguredIs(g, init, last);
      UnclaimedIff(g, init, name);
    }
  }

  /** A block fares the same against the registry as it was and as the loop has filled it so far. */
  lemma SameVerdict(g: Registry, queues: seq<QueueConfig>, q: QueueConfig, factory: Factory)
    ensures QueueError(Configured(g, queues), q, factory) == QueueError(g, q, factory)
  {
    ConfiguredIs(g, queues, q.name);
  }

  lemma ConfiguredSnoc(g: Registry, queues: seq<QueueConfig>, n: nat)
    requires n < |queues|
    ensures Configured(g, queues[..n + 1]) == AddBlock(Configured(g, queues[..n]), queues[n])
  {
    assert queues[..n + 1][..n] == queues[..n];
  }

  /** The loop's first failing block is where BuiltUpTo stops. */
  lemma BuiltUpToIs(g: Registry, queues: seq<QueueConfig>, factory: Factory, m: nat)
    requires m <= |queues| && forall i :: 0 <= i < m ==> QueueError(g, queues[i], factory).None?
    requires m < |queues| ==> QueueError(g, queues[m], factory).Some?
    ensures BuiltUpTo(g, queues, factory) == m
  {
  }

  /** The error is that of the first block that is neither claimed nor built, and says why. */
  lemma BuildErrorIs(g: Registry, queues: seq<QueueConfig>, factory: Factory)
    ensures var e := BuildQueues(g, queues, factory).error;
      && (e.None? <==> forall i :: 0 <= i < |queues| ==> Claimed(g, queues[i].name) || (queues[i].executor.Some? && factory(queues[i]) == Built))
      && (e.Some? ==> exists i ::
            && 0 <= i < |queues| && !Claimed(g, queues[i].name) && e.value.queue == queues[i].name
            && (forall j :: 0 <= j < i ==> Claimed(g, queues[j].name) || (queues[j].executor.Some? && factory(queues[j]) == Built))
            && (e.value.NoExecutor? <==> queues[i].executor.None?)
            && (e.value.UnknownExecutor? <==> queues[i].executor.Some? && factory(queues[i]) == UnknownType)
            && (e.value.ExecutorFailed? <==> queues[i].executor.Some? && factory(queues[i]) == FactoryFailed))
  {
    var m := BuiltUpTo(g, queues, factory);
    forall i | 0 <= i < |queues|
      ensures QueueError(g, queues[i], factory).None? <==> Claimed(g, queues[i].name) || (queues[i].executor.Some? && factory(queues[i]) == Built)
    {
    }
    if m < |queues| {
      assert QueueError(g, queues[m], factory).Some?;
    }
  }

  lemma RegisterKeepsConsistent(g: Registry, started: bool, r: Registration)
    requires Consistent(g)
    ensures Consistent(Registered(g, started, r))
  {
  }

  lemma ConfiguredKeepsConsistent(g: Registry, queues: seq<QueueConfig>)
    requires Consistent(g)
    ensures Consistent(Configured(g, queues))
  {
    var after := Configured(g, queues);
    forall x
      ensures x in after.order <==> x in after.entries
      ensures x in after.entries ==> after.entries[x].queue == x
    {
      ConfiguredIs(g, queues, x);
    }
  }

  // ----- what a successful build leaves -----

  function Names(queues: seq<QueueConfig>): (r: seq<string>)
    ensures |r| == |queues| && forall i :: 0 <= i < |r| ==> r[i] == queues[i].name
  {
    seq(|queues|, i requires 0 <= i < |queues| => queues[i].name)
  }

  /** Every registration that is not from code is for a declared queue and tunes nothing itself. */
  ghost predicate Declared(g: Registry, queues: seq<QueueConfig>) {
    forall x :: x in g.entries ==> g.entries[x].fromCode || (x in Names(queues) && g.entries[x] == Registration(x, UNSET, false))
  }

  lemma ConfiguredKeepsDeclared(g: Registry, queues: seq<QueueConfig>, m: nat)
    requires m <= |queues| && Declared(g, queues)
    ensures Declared(Configured(g, queues[..m]), queues)
  {
    var after := Configured(g, queues[..m]);
    forall x | x in after.entries
      ensures after.entries[x].fromCode || (x in Names(queues) && after.entries[x] == Registration(x, UNSET, false))
    {
      ConfiguredIs(g, queues[..m], x);
      UnclaimedIff(g, queues[..m], x);
      if i :| 0 <= i < m && queues[i].name == x {
        assert Names(queues)[i] == x;
      }
    }
  }

  /** After a build without error the registered queues are the code queues and the declared ones. */
  lemma BuiltRegistry(g: Registry, queues: seq<QueueConfig>, factory: Factory, x: string)
    requires Consistent(g) && Declared(g, queues) && BuildQueues(g, queues, factory).error.None?
    ensures var after := BuildQueues(g, queues, factory).registry;
      x in after.entries <==> Claimed(g, x) || x in Names(queues)
  {
    assert queues[..|queues|] == queues;
    ConfiguredIs(g, queues, x);
    UnclaimedIff(g, queues, x);
    assert x in Names(queues) <==> exists i :: 0 <= i < |queues| && queues[i].name == x by {
      if i :| 0 <= i < |queues| && queues[i].name == x {
        assert Names(queues)[i] == x;
      }
    }
  }

  // ----- the pool warning -----

  /** The concurrency of a registered queue. */
  function Slots(c: Config, g: Registry, name: string): int
    requires name in g.entries
  {
    ResolveTuning(c, g.entries[name].queue, g.entries[name].tune).concurrency
  }

  function TotalSlots(c: Config, g: Registry, names: seq<string>): int
    requires forall x :: x in names ==> x in g.entries
  {
    if names == [] then 0
    else TotalSlots(c, g, names[..|names| - 1]) + Slots(c, g, names[|names| - 1])
  }

  /** warnPoolSize's verdict. */
  method WarnPoolSize(c: Config, g: Registry, names: seq<string>) returns (warn: bool)
    requires forall x :: x in names ==> x in g.entries
    ensures warn <==> PoolTooSmall(c, g, names)
  {
    var total := 0;
    for i := 0 to |names|
      invariant total == Wrap64(TotalSlots(c, g, names[..i]))
    {
      assert names[..i + 1][..i] == names[..i];
      WrapOnce(TotalSlots(c, g, names[..i]), Slots(c, g, names[i]));
      total := Wrap64(total + Slots(c, g, names[i]));
    }
    assert names[..|names|] == names;
    var pool := c.poolSize;
    if pool == 0 {
      var declared := SumDeclared(c);
      pool := Wrap64(declared + POOL_HEADROOM);
    }
    WrapOnce(TotalSlots(c, g, names), POOL_HEADROOM);
    return pool < Wrap64(total + POOL_HEADROOM);
  }

  predicate PoolTooSmall(c: Config, g: Registry, names: seq<string>)
    requires forall x :: x in names ==> x in g.entries
  {
    (if c.poolSize == 0 then AutoPoolSize(c) else c.poolSize) < Wrap64(TotalSlots(c, g, names) + POOL_HEADROOM)
  }

  function Sum(f: string -> int, names: seq<string>): int {
    if names == [] then 0 else Sum(f, names[..|names| - 1]) + f(names[|names| - 1])
  }

  /** A sum over distinct names does not change when names of value zero are left out or the order changes. */
  lemma {:induction false} SumOver(f: string -> int, r: seq<string>, q: seq<string>)
    requires Dedup.NoRepeats(r) && Dedup.NoRepeats(q)
    requires forall x :: x in q ==> x in r
    requires forall x :: x in r && x !in q ==> f(x) == 0
    ensures Sum(f, r) == Sum(f, q)
    decreases |r|
  {
    assert q == [] || q[0] in r;
    if r != [] {
      var init, last := r[..|r| - 1], r[|r| - 1];
      Initial(r);
      if last in q {
        var a :| 0 <= a < |q| && q[a] == last;
        SumWithout(f, q, a);
        var rest := q[..a] + q[a + 1..];
        Without(q, a);
        SumOver(f, init, rest);
      } else {
        SumOver(f, init, q);
      }
    }
  }

  lemma Initial(r: seq<string>)
    requires Dedup.NoRepeats(r) && r != []
    ensures var init, last := r[..|r| - 1], r[|r| - 1];
      Dedup.NoRepeats(init) && last !in init && forall x :: x in r <==> x in init || x == last
  {
    assert r == r[..|r| - 1] + [r[|r| - 1]];
  }

  lemma Without(q: seq<string>, a: nat)
    requires Dedup.NoRepeats(q) && a < |q|
    ensures var rest := q[..a] + q[a + 1..]; Dedup.NoRepeats(rest) && forall x :: x in rest <==> x in q && x != q[a]
  {
    var rest := q[..a] + q[a + 1..];
    assert q == q[..a] + [q[a]] + q[a + 1..];
    assert forall i :: 0 <= i < |rest| ==> rest[i] == if i < a then q[i] else q[i + 1];
  }

  lemma {:induction false} SumWithout(f: string -> int, q: seq<string>, a: nat)
    requires a < |q|
    ensures Sum(f, q) == Sum(f, q[..a] + q[a + 1..]) + f(q[a])
  {
    var rest := q[..a] + q[a + 1..];
    if a == |q| - 1 {
      assert rest == q[..a];
    } else {
      var init := q[..|q| - 1];
      SumWithout(f, init, a);
      assert rest[..|rest| - 1] == init[..a] + init[a + 1..];
    }
  }

  /** What the configuration alone reckons for `name`: its block's share, or nothing. */
  function Reckoned(c: Config, name: string): int {
    var q := Lookup(c.queues, name);
    if q.Some? then Share(c, q.value) else 0
  }

  /** How far a registered queue goes beyond what the configuration reckons with. */
  function Excess(c: Config, g: Registry, name: string): int {
    if name in g.entries then Slots(c, g, name) - Reckoned(c, name) else 0
  }

  lemma {:induction false} TotalIsReckonedPlusExcess(c: Config, g: Registry, names: seq<string>)
    requires forall x :: x in names ==> x in g.entries
    ensures TotalSlots(c, g, names) == Sum(x => Reckoned(c, x), names) + Sum(x => Excess(c, g, x), names)
  {
    if names != [] {
      TotalIsReckonedPlusExcess(c, g, names[..|names| - 1]);
    }
  }

  lemma {:induction false} SharesAreReckoned(c: Config, n: nat)
    requires DistinctNames(c.queues) && n <= |c.queues|
    ensures Sum(x => Reckoned(c, x), Names(c.queues)[..n]) == Shares(c, c.queues[..n])
  {
    if n > 0 {
      SharesAreReckoned(c, n - 1);
      var names := Names(c.queues);
      assert names[..n][..n - 1] == names[..n - 1];
      assert c.queues[..n][..n - 1] == c.queues[..n - 1];
      LookupFinds(c.queues, names[n - 1]);
    }
  }

  /** A queue built from the configuration gets exactly the share the pool was sized for. */
  lemma ConfiguredHasNoExcess(c: Config, g: Registry, name: string)
    requires name in Names(c.queues) && name in g.entries && g.entries[name] == Registration(name, UNSET, false)
    ensures Excess(c, g, name) == 0
  {
    LookupFinds(c.queues, name);
  }

  /** The slots of all registered queues, in terms of what the pool was sized for. */
  lemma TotalOfReckoned(c: Config, g: Registry, names: seq<string>)
    requires ValidConfig(c)
    requires Dedup.NoRepeats(names) && forall x :: x in names <==> x in g.entries
    requires forall x :: x in Names(c.queues) ==> x in g.entries
    ensures TotalSlots(c, g, names) == Shares(c, c.queues) + Sum(x => Excess(c, g, x), names)
  {
    TotalIsReckonedPlusExcess(c, g, names);
    var declared := Names(c.queues);
    forall x | x in names && x !in declared
      ensures Reckoned(c, x) == 0
    {
      LookupFinds(c.queues, x);
      assert forall i :: 0 <= i < |declared| ==> declared[i] != x;
    }
    SumOver(x => Reckoned(c, x), names, declared);
    SharesAreReckoned(c, |c.queues|);
    assert declared[..|c.queues|] == declared && c.queues[..|c.queues|] == c.queues;
  }

  /** The sums that decide the warning do not leave 64 bits. */
  predicate Fits(c: Config, total: int) {
    IsInt64(Shares(c, c.queues) + POOL_HEADROOM) && IsInt64(c.defaults.concurrency + POOL_HEADROOM) && IsInt64(total + POOL_HEADROOM)
  }

  /**
   * For an auto-sized pool: as long as nothing overflows, the warning is given exactly
   * when the code registrations ask for more than the configuration reckons with,
   * which is the default concurrency when it declares no queue at all.
   */
  lemma PoolWarningIff(c: Config, g: Registry, names: seq<string>)
    requires ValidConfig(c) && c.poolSize == 0
    requires Dedup.NoRepeats(names) && forall x :: x in names <==> x in g.entries
    requires forall x :: x in Names(c.queues) ==> x in g.entries
    ensures var excess := Sum(x => Excess(c, g, x), names);
      && (PoolTooSmall(c, g, names) <==> AutoPoolSize(c) < Wrap64(Shares(c, c.queues) + excess + POOL_HEADROOM))
      && (Fits(c, TotalSlots(c, g, names)) ==>
            (PoolTooSmall(c, g, names) <==> excess > if c.queues == [] then c.defaults.concurrency else 0))
  {
    TotalOfReckoned(c, g, names);
    if Fits(c, TotalSlots(c, g, names)) {
      FittingPool(c, g, names, Sum(x => Excess(c, g, x), names));
    }
  }

  lemma FittingPool(c: Config, g: Registry, names: seq<string>, excess: int)
    requires ValidConfig(c) && c.poolSize == 0 && forall x :: x in names ==> x in g.entries
    requires TotalSlots(c, g, names) == Shares(c, c.queues) + excess && Fits(c, TotalSlots(c, g, names))
    ensures PoolTooSmall(c, g, names) <==> excess > if c.queues == [] then c.defaults.concurrency else 0
  {
    SharesAtLeastOneEach(c, c.queues);
    FittingSums(Shares(c, c.queues), c.defaults.concurrency, TotalSlots(c, g, names));
  }

  /** With exactly the slots the pool was sized for, only a sum that wraps round to zero can draw the warning. */
  lemma PoolOfItsOwnSize(c: Config, g: Registry, names: seq<string>)
    requires ValidConfig(c) && c.poolSize == 0 && c.queues != [] && IsInt64(c.defaults.concurrency)
    requires (forall x :: x in names ==> x in g.entries) && TotalSlots(c, g, names) == Shares(c, c.queues)
    ensures PoolTooSmall(c, g, names) <==> Wrap64(Shares(c, c.queues)) == 0 && c.defaults.concurrency > MAX_INT64 - POOL_HEADROOM
    ensures IsInt64(Shares(c, c.queues)) ==> TotalSlots(c, g, names) == DeclaredConcurrency(c) && !PoolTooSmall(c, g, names)
  {
    SameSums(Shares(c, c.queues), c.defaults.concurrency);
    SharesAtLeastOneEach(c, c.queues);
    if IsInt64(Shares(c, c.queues)) {
      WrapFits(Shares(c, c.queues));
    }
  }

  lemma {:induction false} SumOfZeros(f: string -> int, names: seq<string>)
    requires forall x :: x in names ==> f(x) == 0
    ensures Sum(f, names) == 0
  {
    if names != [] {
      SumOfZeros(f, names[..|names| - 1]);
    }
  }
}
