/** The decoded configuration: defaults, validation, pool sizing and the precedence of tuning knobs. */
module Config {
  import opened Prelude

  datatype RateLimit = RateLimit(max: int, duration: int)

  datatype Executor = Executor(kind: string)

  datatype QueueConfig = QueueConfig(name: string, tune: Tuning, executor: Option<Executor>)

  datatype QueueDefaults = QueueDefaults(concurrency: int, lockDuration: int, stalledInterval: int, maxStalledCount: int, jobMetrics: int)

  datatype Log = Log(level: string, format: string)

  datatype Config = Config(
    addrs: seq<string>, poolSize: int, log: Log, serverAddr: string, shutdownTimeout: int, defaults: QueueDefaults, queues: seq<QueueConfig>)

  const POOL_HEADROOM := 8

  /** c, or `d` when c is the zero value. */
  function OrElse(c: int, d: int): int {
    if c == 0 then d else c
  }

  function OrElseText(c: string, d: string): string {
    if c == "" then d else c
  }

  function ApplyDefaults(c: Config): Config {
    c.(
      log := Log(OrElseText(c.log.level, "info"), OrElseText(c.log.format, "text")),
      serverAddr := OrElseText(c.serverAddr, "127.0.0.1:9464"),
      shutdownTimeout := OrElse(c.shutdownTimeout, 30 * SECOND),
      defaults := QueueDefaults(
        OrElse(c.defaults.concurrency, 16),
        OrElse(c.defaults.lockDuration, 30 * SECOND),
        OrElse(c.defaults.stalledInterval, 30 * SECOND),
        OrElse(c.defaults.maxStalledCount, 1),
        c.defaults.jobMetrics))
  }

  // ----- validation -----

  datatype ConfigError =
    | AddrsRequired
    | BadLevel
    | BadFormat
    | BadDefaultConcurrency
    | NegativeTimeout
    | InQueue(i: nat, fault: QueueFault)

  datatype QueueFault = NameRequired | Duplicate | BadConcurrency | BadRateMax | BadRateDuration | ExecutorTypeRequired

  predicate LevelOk(s: string) {
    s == "debug" || s == "info" || s == "warn" || s == "error"
  }

  predicate FormatOk(s: string) {
    s == "text" || s == "json"
  }

  predicate HeaderOk(c: Config) {
    c.addrs != [] && LevelOk(c.log.level) && FormatOk(c.log.format) && c.defaults.concurrency >= 1 && c.shutdownTimeout >= 0
  }

  /** A queue block that is fine on its own. */
  predicate QueueOk(q: QueueConfig) {
    && q.name != ""
    && (q.tune.concurrency.Some? ==> q.tune.concurrency.value >= 1)
    && (q.tune.rateLimit.Some? ==> q.tune.rateLimit.value.max >= 1 && q.tune.rateLimit.value.duration > 0)
    && (q.executor.Some? ==> q.executor.value.kind != "")
  }

  predicate DistinctNames(queues: seq<QueueConfig>) {
    forall i, j :: 0 <= i < j < |queues| ==> queues[i].name != queues[j].name
  }

  ghost predicate ValidConfig(c: Config) {
    HeaderOk(c) && DistinctNames(c.queues) && forall i :: 0 <= i < |c.queues| ==> QueueOk(c.queues[i])
  }

  /** What is wrong with `q`, if anything, when `dup` says that its name was declared before. */
  function FaultOf(q: QueueConfig, dup: bool): (f: Option<QueueFault>)
    ensures f.None? <==> QueueOk(q) && !dup
  {
    if q.name == "" then Some(NameRequired)
    else if dup then Some(Duplicate)
    else if q.tune.concurrency.Some? && q.tune.concurrency.value < 1 then Some(BadConcurrency)
    else if q.tune.rateLimit.Some? && q.tune.rateLimit.value.max < 1 then Some(BadRateMax)
    else if q.tune.rateLimit.Some? && q.tune.rateLimit.value.duration <= 0 then Some(BadRateDuration)
    else if q.executor.Some? && q.executor.value.kind == "" then Some(ExecutorTypeRequired)
    else None
  }

  /** Which fault is named: the checks in their order. */
  lemma FaultIs(q: QueueConfig, dup: bool)
    ensures var f := FaultOf(q, dup);
      && (f == Some(NameRequired) <==> q.name == "")
      && (f == Some(Duplicate) <==> q.name != "" && dup)
      && (f == Some(BadConcurrency) <==> q.name != "" && !dup && q.tune.concurrency.Some? && q.tune.concurrency.value <= 0)
      && (f == Some(BadRateMax) ==> q.tune.rateLimit.Some? && q.tune.rateLimit.value.max <= 0)
      && (f == Some(BadRateDuration) ==> q.tune.rateLimit.Some? && q.tune.rateLimit.value.max > 0 && q.tune.rateLimit.value.duration <= 0)
      && (f == Some(ExecutorTypeRequired) ==> q.executor == Some(Executor("")))
  {
  }

  /** The valid configurations, written out. */
  lemma ValidIff(c: Config)
    ensures ValidConfig(c) <==>
      && |c.addrs| > 0 && c.log.level in ["debug", "info", "warn", "error"] && c.log.format in ["text", "json"]
      && c.defaults.concurrency > 0 && c.shutdownTimeout >= 0
      && (forall i, j :: 0 <= i < j < |c.queues| ==> c.queues[i].name != c.queues[j].name)
      && (forall i :: 0 <= i < |c.queues| ==>
            var q := c.queues[i];
            && q.name != "" && q.executor != Some(Executor(""))
            && (q.tune.concurrency.None? || q.tune.concurrency.value > 0)
            && (q.tune.rateLimit.None? || (q.tune.rateLimit.value.max > 0 && q.tune.rateLimit.value.duration > 0)))
  {
    var levels, formats := ["debug", "info", "warn", "error"], ["text", "json"];
    assert levels[0] == "debug" && levels[1] == "info" && levels[2] == "warn" && levels[3] == "error";
    assert formats[0] == "text" && formats[1] == "json";
  }

  predicate DeclaredBefore(queues: seq<QueueConfig>, i: nat)
    requires i < |queues|
  {
    exists j :: 0 <= j < i && queues[j].name == queues[i].name
  }

  predicate FaultyAt(queues: seq<QueueConfig>, i: nat)
    requires i < |queues|
  {
    !QueueOk(queues[i]) || DeclaredBefore(queues, i)
  }

  /** Validate: no error exactly on the valid configurations, otherwise the first fault. */
  method Validate(c: Config) returns (e: Option<ConfigError>)
    ensures e.None? <==> ValidConfig(c)
    ensures e.Some? && e.value.InQueue? ==>
      var i := e.value.i;
      && HeaderOk(c) && i < |c.queues| && FaultOf(c.queues[i], DeclaredBefore(c.queues, i)) == Some(e.value.fault)
      && (forall j :: 0 <= j < i ==> !FaultyAt(c.queues, j))
    ensures e == Some(AddrsRequired) <==> c.addrs == []
    ensures e == Some(BadLevel) <==> c.addrs != [] && !LevelOk(c.log.level)
    ensures e == Some(BadFormat) <==> c.addrs != [] && LevelOk(c.log.level) && !FormatOk(c.log.format)
    ensures e == Some(BadDefaultConcurrency) ==> c.defaults.concurrency < 1
    ensures e == Some(NegativeTimeout) ==> c.defaults.concurrency >= 1 && c.shutdownTimeout < 0
  {
    if |c.addrs| == 0 { return Some(AddrsRequired); }
    if !LevelOk(c.log.level) { return Some(BadLevel); }
    if !FormatOk(c.log.format) { return Some(BadFormat); }
    if c.defaults.concurrency < 1 { return Some(BadDefaultConcurrency); }
    if c.shutdownTimeout < 0 { return Some(NegativeTimeout); }
    var seen: set<string> := {};
    for i := 0 to |c.queues|
      invariant forall x :: x in seen <==> exists j :: 0 <= j < i && c.queues[j].name == x
      invariant forall j :: 0 <= j < i ==> !FaultyAt(c.queues, j)
    {
      var q := c.queues[i];
      var f := FaultOf(q, q.name in seen);
      assert q.name in seen <==> DeclaredBefore(c.queues, i);
      if f.Some? {
        assert FaultyAt(c.queues, i);
        FaultyIsInvalid(c, i);
        return Some(InQueue(i, f.value));
      }
      seen := seen + {q.name};
    }
    FaultlessIsValid(c);
    return None;
  }

  lemma FaultyIsInvalid(c: Config, i: nat)
    requires i < |c.queues| && FaultyAt(c.queues, i)
    ensures !ValidConfig(c)
  {
  }

  lemma FaultlessIsValid(c: Config)
    requires HeaderOk(c) && forall j :: 0 <= j < |c.queues| ==> !FaultyAt(c.queues, j)
    ensures ValidConfig(c)
  {
    forall i, j | 0 <= i < j < |c.queues|
      ensures c.queues[i].name != c.queues[j].name
    {
      assert !FaultyAt(c.queues, j);
    }
    forall i | 0 <= i < |c.queues|
      ensures QueueOk(c.queues[i])
    {
      assert !FaultyAt(c.queues, i);
    }
  }

  /** A field that is set is kept; one left at zero gets its built-in default; the rest is untouched. */
  lemma DefaultsKeepWhatIsSet(c: Config)
    ensures var d := ApplyDefaults(c);
      && d.log.level == (if c.log.level == "" then "info" else c.log.level)
      && d.log.format == (if c.log.format == "" then "text" else c.log.format)
      && d.serverAddr == (if c.serverAddr == "" then "127.0.0.1:9464" else c.serverAddr)
      && d.shutdownTimeout == (if c.shutdownTimeout == 0 then 30_000_000_000 else c.shutdownTimeout)
      && d.defaults.concurrency == (if c.defaults.concurrency == 0 then 16 else c.defaults.concurrency)
      && d.defaults.lockDuration == (if c.defaults.lockDuration == 0 then 30_000_000_000 else c.defaults.lockDuration)
      && d.defaults.stalledInterval == (if c.defaults.stalledInterval == 0 then 30_000_000_000 else c.defaults.stalledInterval)
      && d.defaults.maxStalledCount == (if c.defaults.maxStalledCount == 0 then 1 else c.defaults.maxStalledCount)
      && d.defaults.jobMetrics == c.defaults.jobMetrics
      && d.addrs == c.addrs && d.poolSize == c.poolSize && d.queues == c.queues
  {
  }

  /** Defaults fill only what was left at zero, and an applied configuration is a fixed point. */
  lemma DefaultsSettle(c: Config)
    ensures ApplyDefaults(ApplyDefaults(c)) == ApplyDefaults(c)
    ensures c.defaults == QueueDefaults(0, 0, 0, 0, 0) ==> ApplyDefaults(c).defaults == QueueDefaults(16, 30 * SECOND, 30 * SECOND, 1, 0)
    ensures ValidConfig(ApplyDefaults(c)) <==>
      && c.addrs != [] && (c.log.level == "" || LevelOk(c.log.level)) && (c.log.format == "" || FormatOk(c.log.format))
      && c.defaults.concurrency >= 0 && c.shutdownTimeout >= 0
      && DistinctNames(c.queues) && (forall i :: 0 <= i < |c.queues| ==> QueueOk(c.queues[i]))
  {
    assert LevelOk("info") && FormatOk("text");
    assert ApplyDefaults(c).log.level != "" && ApplyDefaults(c).log.format != "" && ApplyDefaults(c).serverAddr != "";
  }

  // ----- pool sizing -----

  /** The concurrency a queue block stands for. */
  function Share(c: Config, q: QueueConfig): int {
    if q.tune.concurrency.Some? then q.tune.concurrency.value else c.defaults.concurrency
  }

  function Shares(c: Config, queues: seq<QueueConfig>): int {
    if queues == [] then 0 else Shares(c, queues[..|queues| - 1]) + Share(c, queues[|queues| - 1])
  }

  /** The sum in 64-bit arithmetic, or the default concurrency when that is zero. */
  function DeclaredConcurrency(c: Config): int {
    var total := Wrap64(Shares(c, c.queues));
    if total == 0 then c.defaults.concurrency else total
  }

  /** Wrapping after every addition is wrapping the exact sum once. */
  lemma WrapOnce(a: int, b: int)
    ensures Wrap64(Wrap64(a) + b) == Wrap64(a + b)
  {
  }

  /** The comparison of warnPoolSize for an auto-sized pool, when nothing overflows. */
  lemma FittingSums(shares: int, d: int, total: int)
    requires 0 <= shares && 1 <= d
    requires IsInt64(shares + POOL_HEADROOM) && IsInt64(d + POOL_HEADROOM) && IsInt64(total + POOL_HEADROOM)
    ensures var declared := if Wrap64(shares) == 0 then d else Wrap64(shares);
      Wrap64(declared + POOL_HEADROOM) < Wrap64(total + POOL_HEADROOM) <==> total - shares > if shares == 0 then d else 0
  {
    WrapFits(shares);
    WrapFits(shares + POOL_HEADROOM);
    WrapFits(d + POOL_HEADROOM);
    WrapFits(total + POOL_HEADROOM);
  }

  /** And in general, against the very sum the pool was sized from. */
  lemma SameSums(shares: int, d: int)
    requires 1 <= d && IsInt64(d)
    ensures var declared := if Wrap64(shares) == 0 then d else Wrap64(shares);
      Wrap64(declared + POOL_HEADROOM) < Wrap64(shares + POOL_HEADROOM) <==> Wrap64(shares) == 0 && d > MAX_INT64 - POOL_HEADROOM
  {
    WrapOnce(shares, POOL_HEADROOM);
    WrapFits(POOL_HEADROOM);
    if d <= MAX_INT64 - POOL_HEADROOM {
      WrapFits(d + POOL_HEADROOM);
    }
  }

  /** declaredConcurrency's loop. */
  method SumDeclared(c: Config) returns (total: int)
    ensures total == DeclaredConcurrency(c)
  {
    total := 0;
    for i := 0 to |c.queues|
      invariant total == Wrap64(Shares(c, c.queues[..i]))
    {
      assert c.queues[..i + 1][..i] == c.queues[..i];
      WrapOnce(Shares(c, c.queues[..i]), Share(c, c.queues[i]));
      total := Wrap64(total + Share(c, c.queues[i]));
    }
    assert c.queues[..|c.queues|] == c.queues;
    if total == 0 {
      total := c.defaults.concurrency;
    }
  }

  function AutoPoolSize(c: Config): int {
    Wrap64(DeclaredConcurrency(c) + POOL_HEADROOM)
  }

  /** As long as it fits, the auto-sized pool is what mkq asks for: one connection a declared slot, and eight more. */
  lemma AutoPoolSizeIs(c: Config)
    requires ValidConfig(c) && c.queues != [] && IsInt64(Shares(c, c.queues) + 8)
    ensures AutoPoolSize(c) == Shares(c, c.queues) + 8
  {
    SharesAtLeastOneEach(c, c.queues);
    WrapFits(Shares(c, c.queues));
    WrapFits(Shares(c, c.queues) + 8);
  }

  /** Every declared queue adds at least one, so the exact sum is zero only without queues. */
  lemma {:induction false} SharesAtLeastOneEach(c: Config, queues: seq<QueueConfig>)
    requires c.defaults.concurrency >= 1 && forall i :: 0 <= i < |queues| ==> QueueOk(queues[i])
    ensures Shares(c, queues) >= |queues|
  {
    if queues != [] {
      SharesAtLeastOneEach(c, queues[..|queues| - 1]);
    }
  }

  /** queueConfig: the first block of that name. */
  method FindQueue(c: Config, name: string) returns (q: Option<QueueConfig>)
    ensures q == Lookup(c.queues, name)
  {
    for i := 0 to |c.queues|
      invariant Lookup(c.queues, name) == Lookup(c.queues[i..], name)
    {
      if c.queues[i].name == name {
        return Some(c.queues[i]);
      }
      assert c.queues[i..][1..] == c.queues[i + 1..];
    }
    return None;
  }

  function Lookup(queues: seq<QueueConfig>, name: string): Option<QueueConfig> {
    if queues == [] then None else if queues[0].name == name then Some(queues[0]) else Lookup(queues[1..], name)
  }

  /** With distinct names the block found is the block declared. */
  lemma {:induction false} LookupFinds(queues: seq<QueueConfig>, name: string)
    ensures Lookup(queues, name).Some? <==> exists i :: 0 <= i < |queues| && queues[i].name == name
    ensures DistinctNames(queues) ==> forall i :: 0 <= i < |queues| && queues[i].name == name ==> Lookup(queues, name) == Some(queues[i])
  {
    if queues != [] {
      var rest := queues[1..];
      LookupFinds(rest, name);
      assert forall i :: 1 <= i < |queues| ==> queues[i] == rest[i - 1];
      assert DistinctNames(queues) ==> DistinctNames(rest);
    }
  }

  // ----- tuning -----

  /** Every knob, set or unset. */
  datatype Tuning = Tuning(
    concurrency: Option<int>,
    lockDuration: Option<int>,
    stalledInterval: Option<int>,
    maxStalledCount: Option<int>,
    jobMetrics: Option<int>,
    rateLimit: Option<RateLimit>)

  const UNSET := Tuning(None, None, None, None, None, None)

  datatype QueueOption =
    | NilOption
    | WithConcurrency(n: int)
    | WithLockDuration(d: int)
    | WithStalledInterval(d: int)
    | WithMaxStalledCount(n: int)
    | WithJobMetrics(n: int)
    | WithRateLimit(limit: RateLimit)

  /** The option called on the tuning it changes. */
  function Apply(o: QueueOption, t: Tuning): Tuning {
    match o
    case NilOption => t
    case WithConcurrency(n) => t.(concurrency := Some(n))
    case WithLockDuration(d) => t.(lockDuration := Some(d))
    case WithStalledInterval(d) => t.(stalledInterval := Some(d))
    case WithMaxStalledCount(n) => t.(maxStalledCount := Some(n))
    case WithJobMetrics(n) => t.(jobMetrics := Some(n))
    case WithRateLimit(limit) => t.(rateLimit := Some(limit))
  }

  function Concurrency(o: QueueOption): Option<int> {
    if o.WithConcurrency? then Some(o.n) else None
  }

  function LockDuration(o: QueueOption): Option<int> {
    if o.WithLockDuration? then Some(o.d) else None
  }

  function StalledInterval(o: QueueOption): Option<int> {
    if o.WithStalledInterval? then Some(o.d) else None
  }

  function MaxStalledCount(o: QueueOption): Option<int> {
    if o.WithMaxStalledCount? then Some(o.n) else None
  }

  function JobMetrics(o: QueueOption): Option<int> {
    if o.WithJobMetrics? then Some(o.n) else None
  }

  function Limit(o: QueueOption): Option<RateLimit> {
    if o.WithRateLimit? then Some(o.limit) else None
  }

  /** What the last of the options that say something about `k` says. */
  function Last<T>(opts: seq<QueueOption>, k: QueueOption -> Option<T>): Option<T> {
    if opts == [] then None
    else if k(opts[|opts| - 1]).Some? then k(opts[|opts| - 1])
    else Last(opts[..|opts| - 1], k)
  }

  /** tuningFromOptions: per knob, the last option given wins. */
  method TuningFromOptions(opts: seq<QueueOption>) returns (t: Tuning)
    ensures t == FromOptions(opts)
  {
    t := UNSET;
    for i := 0 to |opts|
      invariant t == FromOptions(opts[..i])
    {
      assert opts[..i + 1][..i] == opts[..i];
      t := Apply(opts[i], t);
    }
    assert opts[..|opts|] == opts;
  }

  function FromOptions(opts: seq<QueueOption>): Tuning {
    Tuning(
      Last(opts, Concurrency),
      Last(opts, LockDuration),
      Last(opts, StalledInterval),
      Last(opts, MaxStalledCount),
      Last(opts, JobMetrics),
      Last(opts, Limit))
  }

  function Or<T>(a: Option<T>, b: Option<T>): Option<T> {
    if a.Some? then a else b
  }

  function Overlay(t: Tuning, over: Tuning): Tuning {
    Tuning(
      Or(over.concurrency, t.concurrency),
      Or(over.lockDuration, t.lockDuration),
      Or(over.stalledInterval, t.stalledInterval),
      Or(over.maxStalledCount, t.maxStalledCount),
      Or(over.jobMetrics, t.jobMetrics),
      Or(over.rateLimit, t.rateLimit))
  }

  datatype Resolved = Resolved(
    concurrency: int, lockDuration: int, stalledInterval: int, maxStalledCount: int, jobMetrics: int, rateLimit: Option<RateLimit>)

  function Get<T>(o: Option<T>, d: T): T {
    if o.Some? then o.value else d
  }

  function Resolve(t: Tuning, d: QueueDefaults): Resolved {
    Resolved(
      Get(t.concurrency, d.concurrency),
      Get(t.lockDuration, d.lockDuration),
      Get(t.stalledInterval, d.stalledInterval),
      Get(t.maxStalledCount, d.maxStalledCount),
      Get(t.jobMetrics, d.jobMetrics),
      t.rateLimit)
  }

  function ResolveTuning(c: Config, queue: string, tune: Tuning): Resolved {
    var q := Lookup(c.queues, queue);
    Resolve(if q.Some? then Overlay(tune, q.value.tune) else tune, c.defaults)
  }

  /** One knob by precedence: the YAML block, then the last Go option, then the default. */
  function Picked<T>(yaml: Option<T>, opts: seq<QueueOption>, k: QueueOption -> Option<T>, d: T): T {
    if yaml.Some? then yaml.value else if Last(opts, k).Some? then Last(opts, k).value else d
  }

  /** Every knob of a declared queue is picked by precedence, each independently of the others. */
  lemma Precedence(c: Config, i: nat, opts: seq<QueueOption>)
    requires ValidConfig(c) && i < |c.queues|
    ensures var q, r := c.queues[i], ResolveTuning(c, c.queues[i].name, FromOptions(opts));
      && r.concurrency == Picked(q.tune.concurrency, opts, Concurrency, c.defaults.concurrency)
      && r.lockDuration == Picked(q.tune.lockDuration, opts, LockDuration, c.defaults.lockDuration)
      && r.stalledInterval == Picked(q.tune.stalledInterval, opts, StalledInterval, c.defaults.stalledInterval)
      && r.maxStalledCount == Picked(q.tune.maxStalledCount, opts, MaxStalledCount, c.defaults.maxStalledCount)
      && r.jobMetrics == Picked(q.tune.jobMetrics, opts, JobMetrics, c.defaults.jobMetrics)
      && r.rateLimit == (if q.tune.rateLimit.Some? then q.tune.rateLimit else Last(opts, Limit))
  {
    LookupFinds(c.queues, c.queues[i].name);
  }

  /** A queue the configuration does not declare is tuned by its options and the defaults alone. */
  lemma PrecedenceUndeclared(c: Config, queue: string, opts: seq<QueueOption>)
    requires forall i :: 0 <= i < |c.queues| ==> c.queues[i].name != queue
    ensures var r := ResolveTuning(c, queue, FromOptions(opts));
      && r.concurrency == Picked(None, opts, Concurrency, c.defaults.concurrency)
      && r.lockDuration == Picked(None, opts, LockDuration, c.defaults.lockDuration)
      && r.stalledInterval == Picked(None, opts, StalledInterval, c.defaults.stalledInterval)
      && r.maxStalledCount == Picked(None, opts, MaxStalledCount, c.defaults.maxStalledCount)
      && r.jobMetrics == Picked(None, opts, JobMetrics, c.defaults.jobMetrics)
      && r.rateLimit == Last(opts, Limit)
  {
    LookupFinds(c.queues, queue);
  }

  /** `Last` is the option after which none sets the knob again. */
  lemma {:induction false} LastIs<T>(opts: seq<QueueOption>, k: QueueOption -> Option<T>, j: nat)
    requires j < |opts| && k(opts[j]).Some?
    requires forall l :: j < l < |opts| ==> k(opts[l]).None?
    ensures Last(opts, k) == k(opts[j])
  {
    if j < |opts| - 1 {
      LastIs(opts[..|opts| - 1], k, j);
    }
  }

  /** Validation bounds YAML and the defaults but not Go options: a worker gets no slot exactly when an unoverridden option says so. */
  lemma SlotsIff(c: Config, queue: string, tune: Tuning)
    requires ValidConfig(c)
    ensures ResolveTuning(c, queue, tune).concurrency < 1 <==>
      && tune.concurrency.Some? && tune.concurrency.value < 1
      && forall i :: 0 <= i < |c.queues| && c.queues[i].name == queue ==> c.queues[i].tune.concurrency.None?
  {
    LookupFinds(c.queues, queue);
  }

  /** Layering is associative: overlaying twice and overlaying the overlay agree, and the unset tuning is neutral on both sides. */
  lemma OverlayIsAMonoid(a: Tuning, b: Tuning, c: Tuning)
    ensures Overlay(Overlay(a, b), c) == Overlay(a, Overlay(b, c))
    ensures Overlay(a, UNSET) == a == Overlay(UNSET, a)
  {
  }

  /** Options given in two batches are the second batch laid over the first. */
  lemma {:induction false} OptionsConcat(a: seq<QueueOption>, b: seq<QueueOption>)
    ensures FromOptions(a + b) == Overlay(FromOptions(a), FromOptions(b))
    decreases |b|
  {
    if b == [] {
      assert a + b == a;
    } else {
      var init := b[..|b| - 1];
      assert (a + b)[..|a + b| - 1] == a + init;
      OptionsConcat(a, init);
    }
  }
}
