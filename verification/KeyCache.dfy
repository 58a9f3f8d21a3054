/**
 * The directory signer's key cache: `load` stats the key file, looks the cache up,
 * and on a miss reads, parses and stores. Any number of loads interleave with each
 * other and with the key files being written, rotated or deleted. Each stat, cache
 * access and read is one atomic step.
 */
module KeyCache {
  import opened Prelude

  type KeyId = string
  type CallId = nat

  datatype PrivateKey = PrivateKey(material: nat)

  /** What os.Stat tells two versions of a file apart by. */
  datatype Stamp = Stamp(modTime: int, size: nat)

  /** A key file at one moment; `key` is None when its content does not parse. */
  datatype FileState = Absent | Present(stamp: Stamp, key: Option<PrivateKey>)

  datatype CachedKey = CachedKey(key: PrivateKey, stamp: Stamp)

  type Cache = map<KeyId, CachedKey>

  /** UnknownKey is permanent; Failed covers stat, read and parse failures. */
  datatype LoadError = UnknownKey | Failed

  type LoadResult = Result<PrivateKey, LoadError>

  /** The cache lookup: an entry counts only under the stamp just seen. */
  function Hit(cached: Cache, keyID: KeyId, stamp: Stamp): Option<PrivateKey> {
    if keyID in cached && cached[keyID].stamp == stamp then Some(cached[keyID].key) else None
  }

  function StatOf(f: FileState): Result<Stamp, LoadError> {
    if f.Absent? then Err(UnknownKey) else Ok(f.stamp)
  }

  function ReadOf(f: FileState): LoadResult {
    if f.Absent? then Err(UnknownKey) else if f.key.None? then Err(Failed) else Ok(f.key.value)
  }

  /** One whole load: `stat` and `read` are what the file system answered at the two moments it was asked. */
  function LoadOnce(cached: Cache, keyID: KeyId, stat: Result<Stamp, LoadError>, read: LoadResult): (LoadResult, Cache) {
    if stat.Err? then (Err(stat.error), cached)
    else
      var hit := Hit(cached, keyID, stat.value);
      if hit.Some? then (Ok(hit.value), cached)
      else if read.Err? then (read, cached)
      else (read, cached[keyID := CachedKey(read.value, stat.value)])
  }

  /** The signer object, as one goroutine uses it. */
  class DirSigner {
    var cached: Cache

    constructor ()
      ensures cached == map[]
    {
      cached := map[];
    }

    method Load(keyID: KeyId, stat: Result<Stamp, LoadError>, read: LoadResult) returns (r: LoadResult)
      modifies this
      ensures (r, cached) == LoadOnce(old(cached), keyID, stat, read)
    {
      if stat.Err? {
        return Err(stat.error);
      }
      if keyID in cached {
        var hit := cached[keyID];
        if hit.stamp == stat.value {
          return Ok(hit.key);
        }
      }
      if read.Err? {
        return read;
      }
      cached := cached[keyID := CachedKey(read.value, stat.value)];
      return read;
    }
  }

  // ----- the interleaved system -----

  datatype Progress =
    | Started
    | Statted(stamp: Stamp)
    | Missed(stamp: Stamp)
    | Parsed(stamp: Stamp, key: PrivateKey)
    | Returned(result: LoadResult, until: nat)  // `until`: the file state current at the return

  /** `since` is the index of the file state current when the call began; `broken`: a stat or read failed on it. */
  datatype Call = Call(keyID: KeyId, since: nat, broken: bool, progress: Progress)

  datatype System = System(files: map<KeyId, seq<FileState>>, cached: Cache, calls: map<CallId, Call>)

  /** One atomic step of a load. */
  datatype Op = Stat | StatError | Lookup | Read | ReadError | Store

  datatype Event =
    | SetFile(keyID: KeyId, file: FileState)
    | Begin(call: CallId, keyID: KeyId)
    | On(call: CallId, op: Op)

  /** Every state the key's file has been in, the current one last. */
  function History(s: System, k: KeyId): seq<FileState> {
    if k in s.files && s.files[k] != [] then s.files[k] else [Absent]
  }

  function Current(s: System, k: KeyId): FileState {
    History(s, k)[|History(s, k)| - 1]
  }

  /** The file system answers with an error other than "does not exist". */
  predicate IsFault(op: Op) {
    op.StatError? || op.ReadError?
  }

  predicate CanAdvance(p: Progress, op: Op) {
    match op
    case Stat => p.Started?
    case StatError => p.Started?
    case Lookup => p.Statted?
    case Read => p.Missed?
    case ReadError => p.Missed?
    case Store => p.Parsed?
  }

  function Advanced(cached: Cache, k: KeyId, h: seq<FileState>, p: Progress, op: Op): Progress
    requires h != [] && CanAdvance(p, op)
  {
    var last := |h| - 1;
    match op
    case Stat =>
      var stat := StatOf(h[last]);
      if stat.Err? then Returned(Err(stat.error), last) else Statted(stat.value)
    case StatError => Returned(Err(Failed), last)
    case Lookup =>
      var hit := Hit(cached, k, p.stamp);
      if hit.Some? then Returned(Ok(hit.value), last) else Missed(p.stamp)
    case Read =>
      var read := ReadOf(h[last]);
      if read.Err? then Returned(read, last) else Parsed(p.stamp, read.value)
    case ReadError => Returned(Err(Failed), last)
    case Store => Returned(Ok(p.key), last)
  }

  predicate Enabled(s: System, e: Event) {
    match e
    case SetFile(_, _) => true
    case Begin(c, _) => c !in s.calls
    case On(c, op) => c in s.calls && CanAdvance(s.calls[c].progress, op)
  }

  function Apply(s: System, e: Event): System
    requires Enabled(s, e)
  {
    match e
    case SetFile(k, f) => s.(files := s.files[k := History(s, k) + [f]])
    case Begin(c, k) => s.(calls := s.calls[c := Call(k, |History(s, k)| - 1, false, Started)])
    case On(c, op) =>
      var Call(k, _, broken, p) := s.calls[c];
      System(s.files,
             if op.Store? then s.cached[k := CachedKey(p.key, p.stamp)] else s.cached,
             s.calls[c := s.calls[c].(broken := broken || IsFault(op), progress := Advanced(s.cached, k, History(s, k), p, op))])
  }

  ghost predicate Next(s: System, t: System) {
    exists e :: Enabled(s, e) && t == Apply(s, e)
  }

  /** An execution, state by state. */
  ghost predicate IsRun(run: seq<System>) {
    run != [] && forall i :: 0 <= i < |run| - 1 ==> StepAt(run, i)
  }

  ghost predicate StepAt(run: seq<System>, i: nat)
    requires i < |run| - 1
  {
    Next(run[i], run[i + 1])
  }

  /** Some interleaving of calls and file changes takes `s` to `t`. */
  ghost predicate Leads(s: System, t: System) {
    exists run :: IsRun(run) && run[0] == s && run[|run| - 1] == t
  }

  ghost predicate Init(s: System) {
    s.cached == map[] && s.calls == map[]
  }

  // ----- what a load may answer -----

  predicate Holds(h: seq<FileState>, m: nat, key: PrivateKey) {
    m < |h| && h[m].Present? && h[m].key == Some(key)
  }

  predicate HasStamp(h: seq<FileState>, m: nat, stamp: Stamp) {
    m < |h| && h[m].Present? && h[m].stamp == stamp
  }

  /** `h[m]` is there but holds no key that parses. */
  predicate Unparseable(h: seq<FileState>, m: nat) {
    m < |h| && h[m].Present? && h[m].key.None?
  }

  /**
   * A returned key was the file's key, "unknown key" its absence, and any other
   * failure its not parsing, at a moment of the call, unless the file system failed.
   */
  ghost predicate Faithful(h: seq<FileState>, call: Call) {
    call.progress.Returned? ==>
      match call.progress.result
      case Ok(key) => exists m :: call.since <= m <= call.progress.until && Holds(h, m, key)
      case Err(UnknownKey) => exists m :: call.since <= m <= call.progress.until < |h| && h[m].Absent?
      case Err(Failed) => call.broken || exists m :: call.since <= m <= call.progress.until && Unparseable(h, m)
  }

  ghost predicate AllFaithful(s: System, k: KeyId) {
    forall c :: c in s.calls && s.calls[c].keyID == k ==> Faithful(History(s, k), s.calls[c])
  }

  /**
   * A stamp seen again means the key did not change in between: whatever key the
   * file held after carrying a stamp is the key it holds when the stamp is back.
   */
  ghost predicate StampsIdentifyKeys(h: seq<FileState>) {
    forall i, j, k, stamp, key ::
      i <= j <= k && HasStamp(h, i, stamp) && Holds(h, j, key) && HasStamp(h, k, stamp) ==> Holds(h, k, key)
  }

  /** No two file states share a stamp. */
  ghost predicate StampsDistinct(h: seq<FileState>) {
    forall i, k, stamp :: HasStamp(h, i, stamp) && HasStamp(h, k, stamp) ==> i == k
  }

  lemma DistinctStampsIdentifyKeys(h: seq<FileState>)
    requires StampsDistinct(h)
    ensures StampsIdentifyKeys(h)
  {
  }

  // ----- invariant for one key -----

  ghost predicate CallInv(h: seq<FileState>, call: Call) {
    && call.since < |h|
    && Faithful(h, call)
    && match call.progress
       case Started => true
       case Statted(stamp) => exists i :: call.since <= i && HasStamp(h, i, stamp)
       case Missed(stamp) => exists i :: call.since <= i && HasStamp(h, i, stamp)
       case Parsed(stamp, key) =>
         exists i, j :: call.since <= i <= j && HasStamp(h, i, stamp) && Holds(h, j, key)
       case Returned(_, until) => call.since <= until < |h|
  }

  ghost predicate CacheInv(h: seq<FileState>, entry: CachedKey) {
    exists i, j :: i <= j && HasStamp(h, i, entry.stamp) && Holds(h, j, entry.key)
  }

  ghost predicate Inv(s: System, k: KeyId) {
    && (k in s.cached ==> CacheInv(History(s, k), s.cached[k]))
    && forall c :: c in s.calls && s.calls[c].keyID == k ==> CallInv(History(s, k), s.calls[c])
  }

  lemma GrowKeepsCallInv(h: seq<FileState>, f: FileState, call: Call)
    requires CallInv(h, call)
    ensures CallInv(h + [f], call)
  {
    var h' := h + [f];
    assert forall m: nat, key :: Holds(h, m, key) ==> Holds(h', m, key);
    assert forall m: nat, stamp :: HasStamp(h, m, stamp) ==> HasStamp(h', m, stamp);
    assert forall m: nat :: m < |h| ==> h'[m] == h[m];
    assert forall m: nat :: Unparseable(h, m) ==> Unparseable(h', m);
  }

  lemma StepKeepsInv(s: System, e: Event, k: KeyId)
    requires Enabled(s, e) && Inv(s, k) && StampsIdentifyKeys(History(s, k))
    ensures Inv(Apply(s, e), k)
  {
    var h := History(s, k);
    if e.SetFile? {
      if e.keyID == k {
        forall c | c in s.calls && s.calls[c].keyID == k
          ensures CallInv(h + [e.file], s.calls[c])
        {
          GrowKeepsCallInv(h, e.file, s.calls[c]);
        }
        if k in s.cached {
          var i, j :| i <= j && HasStamp(h, i, s.cached[k].stamp) && Holds(h, j, s.cached[k].key);
          assert HasStamp(h + [e.file], i, s.cached[k].stamp) && Holds(h + [e.file], j, s.cached[k].key);
        }
      }
    } else if e.On? && s.calls[e.call].keyID == k {
      AdvanceKeepsInv(s.cached, k, h, s.calls[e.call], e.op);
    }
  }

  lemma AdvanceKeepsInv(cached: Cache, k: KeyId, h: seq<FileState>, call: Call, op: Op)
    requires h != [] && CallInv(h, call) && CanAdvance(call.progress, op)
    requires k in cached ==> CacheInv(h, cached[k])
    requires StampsIdentifyKeys(h)
    ensures CallInv(h, call.(broken := call.broken || IsFault(op), progress := Advanced(cached, k, h, call.progress, op)))
    ensures op.Store? ==> CacheInv(h, CachedKey(call.progress.key, call.progress.stamp))
  {
    var last := |h| - 1;
    match op
    case Stat =>
      if h[last].Present? { assert HasStamp(h, last, h[last].stamp); }
    case Lookup =>
      if Hit(cached, k, call.progress.stamp).Some? {
        LookupIsFaithful(cached[k], h, call);
      }
    case Read =>
      var i :| call.since <= i && HasStamp(h, i, call.progress.stamp);
      if ReadOf(h[last]).Ok? { assert i <= last && Holds(h, last, h[last].key.value); }
      if h[last].Present? && h[last].key.None? { assert Unparseable(h, last); }
    case _ =>
  }

  /** A hit is either what the file held when stat'ed, or newer material stored by a racing load. */
  lemma LookupIsFaithful(entry: CachedKey, h: seq<FileState>, call: Call)
    requires CacheInv(h, entry) && CallInv(h, call) && StampsIdentifyKeys(h)
    requires call.progress == Statted(entry.stamp)
    ensures exists m :: call.since <= m < |h| && Holds(h, m, entry.key)
  {
    var i, j :| i <= j && HasStamp(h, i, entry.stamp) && Holds(h, j, entry.key);
    var m :| call.since <= m && HasStamp(h, m, entry.stamp);
    assert if call.since <= j then Holds(h, j, entry.key) else Holds(h, m, entry.key);
  }

  lemma {:induction false} HistoryGrows(run: seq<System>, i: nat, k: KeyId)
    requires IsRun(run) && i < |run|
    ensures History(run[i], k) <= History(run[|run| - 1], k)
    decreases |run| - i
  {
    if i < |run| - 1 {
      assert StepAt(run, i);
      HistoryGrows(run, i + 1, k);
    }
  }

  lemma PrefixIdentifies(g: seq<FileState>, h: seq<FileState>)
    requires g <= h && StampsIdentifyKeys(h)
    ensures StampsIdentifyKeys(g)
  {
    forall i, j, k, stamp, key |
      i <= j <= k && HasStamp(g, i, stamp) && Holds(g, j, key) && HasStamp(g, k, stamp)
      ensures Holds(g, k, key)
    {
      assert HasStamp(h, i, stamp) && Holds(h, j, key) && HasStamp(h, k, stamp);
    }
  }

  lemma {:induction false} RunKeepsInv(run: seq<System>, i: nat, k: KeyId)
    requires IsRun(run) && i < |run| && Inv(run[0], k) && StampsIdentifyKeys(History(run[|run| - 1], k))
    ensures Inv(run[i], k)
  {
    if i > 0 {
      RunKeepsInv(run, i - 1, k);
      HistoryGrows(run, i - 1, k);
      PrefixIdentifies(History(run[i - 1], k), History(run[|run| - 1], k));
      assert StepAt(run, i - 1);
      var e :| Enabled(run[i - 1], e) && run[i] == Apply(run[i - 1], e);
      StepKeepsInv(run[i - 1], e, k);
    }
  }

  /**
   * In every interleaving, as long as stamps identify keys, each load answers with
   * the file as it was at some moment between its call and its return. In
   * particular it never returns a key older than the one current at the call.
   */
  lemma LoadsAreFaithful(s: System, t: System, k: KeyId)
    requires Init(s) && Leads(s, t) && StampsIdentifyKeys(History(t, k))
    ensures AllFaithful(t, k)
  {
    var run :| IsRun(run) && run[0] == s && run[|run| - 1] == t;
    RunKeepsInv(run, |run| - 1, k);
  }

  // ----- and only then -----

  lemma Then(s: System, t: System, u: System)
    requires Leads(s, t) && Leads(t, u)
    ensures Leads(s, u)
  {
    var a :| IsRun(a) && a[0] == s && a[|a| - 1] == t;
    var b :| IsRun(b) && b[0] == t && b[|b| - 1] == u;
    var run := a + b[1..];
    forall i | 0 <= i < |run| - 1
      ensures StepAt(run, i)
    {
      if i < |a| - 1 {
        assert StepAt(a, i);
      } else {
        assert StepAt(b, i - (|a| - 1));
      }
    }
    assert IsRun(run) && run[0] == s && run[|run| - 1] == u;
  }

  lemma Stay(s: System)
    ensures Leads(s, s)
  {
    assert IsRun([s]) && [s][0] == s;
  }

  lemma Once(s: System, e: Event)
    requires Enabled(s, e)
    ensures Leads(s, Apply(s, e))
  {
    var run := [s, Apply(s, e)];
    assert StepAt(run, 0);
    assert IsRun(run) && run[0] == s;
  }

  /** The file goes on to the history `h`; nothing else moves. */
  lemma {:induction false} Rewrite(s: System, k: KeyId, h: seq<FileState>) returns (t: System)
    requires History(s, k) <= h
    ensures Leads(s, t) && History(t, k) == h && t.cached == s.cached && t.calls == s.calls
    decreases |h| - |History(s, k)|
  {
    var n := |History(s, k)|;
    if n == |h| {
      t := s;
      Stay(s);
    } else {
      var next := Apply(s, SetFile(k, h[n]));
      Once(s, SetFile(k, h[n]));
      t := Rewrite(next, k, h);
      Then(s, next, t);
    }
  }

  /** A call that begins now and stats a file which is there. */
  lemma StatPresent(s: System, k: KeyId, c: CallId) returns (t: System)
    requires c !in s.calls && Current(s, k).Present?
    ensures Leads(s, t)
    ensures t == s.(calls := s.calls[c := Call(k, |History(s, k)| - 1, false, Statted(Current(s, k).stamp))])
  {
    var begun := Apply(s, Begin(c, k));
    Once(s, Begin(c, k));
    Once(begun, On(c, Stat));
    t := Apply(begun, On(c, Stat));
    Then(s, begun, t);
  }

  /** The rest of a call that missed: read what is there now, and cache it. */
  lemma ReadAndStore(s: System, k: KeyId, c: CallId) returns (t: System)
    requires c in s.calls && s.calls[c].keyID == k && s.calls[c].progress.Missed?
    requires ReadOf(Current(s, k)).Ok?
    ensures Leads(s, t) && t.files == s.files && t.calls.Keys == s.calls.Keys && t.calls[c].broken == s.calls[c].broken
    ensures t.cached == s.cached[k := CachedKey(ReadOf(Current(s, k)).value, s.calls[c].progress.stamp)]
    ensures t.calls[c].progress == Returned(ReadOf(Current(s, k)), |History(s, k)| - 1)
  {
    var parsed := Apply(s, On(c, Read));
    Once(s, On(c, Read));
    Once(parsed, On(c, Store));
    t := Apply(parsed, On(c, Store));
    Then(s, parsed, t);
  }

  /** Load `c` stats the file, whose history goes on to `h` before the load reads and caches it. */
  lemma CacheUnderOldStamp(s: System, k: KeyId, c: CallId, h: seq<FileState>) returns (t: System)
    requires c !in s.calls && k !in s.cached && Current(s, k).Present?
    requires History(s, k) <= h && ReadOf(h[|h| - 1]).Ok?
    ensures Leads(s, t) && History(t, k) == h && t.calls.Keys == s.calls.Keys + {c}
    ensures k in t.cached && t.cached[k] == CachedKey(ReadOf(h[|h| - 1]).value, Current(s, k).stamp)
  {
    var s1 := StatPresent(s, k, c);
    var s2 := Apply(s1, On(c, Lookup));
    Once(s1, On(c, Lookup));
    Then(s, s1, s2);
    var s3 := Rewrite(s2, k, h);
    Then(s, s2, s3);
    t := ReadAndStore(s3, k, c);
    Then(s, s3, t);
  }

  /** A later load that stats the cached stamp is handed the cached key. */
  lemma HitReturnsCachedKey(s: System, k: KeyId, c: CallId) returns (t: System)
    requires c !in s.calls && k in s.cached && StatOf(Current(s, k)) == Ok(s.cached[k].stamp)
    ensures Leads(s, t) && t.files == s.files && t.cached == s.cached
    ensures var last := |History(s, k)| - 1;
      c in t.calls && t.calls[c] == Call(k, last, false, Returned(Ok(s.cached[k].key), last))
  {
    var statted := StatPresent(s, k, c);
    Once(statted, On(c, Lookup));
    t := Apply(statted, On(c, Lookup));
    Then(s, statted, t);
  }

  /** From a file with a stamp: read it later, as `h[j]`, and load it once it carries that stamp again. */
  lemma StaleAfter(s: System, k: KeyId, h: seq<FileState>, j: nat) returns (t: System)
    requires s.calls == map[] && k !in s.cached && Current(s, k).Present?
    requires History(s, k) <= h && |History(s, k)| - 1 <= j < |h| && ReadOf(h[j]).Ok?
    requires StatOf(h[|h| - 1]) == StatOf(Current(s, k))
    ensures Leads(s, t) && History(t, k) == h
    ensures 1 in t.calls && t.calls[1] == Call(k, |h| - 1, false, Returned(ReadOf(h[j]), |h| - 1))
  {
    var s1 := CacheUnderOldStamp(s, k, 0, h[..j + 1]);
    var s2 := Rewrite(s1, k, h);
    Then(s, s1, s2);
    t := HitReturnsCachedKey(s2, k, 1);
    Then(s, s2, t);
  }

  /**
   * A reused stamp does break the cache: load 0 stats the file at `i` and reads it
   * at `j`; load 1 begins at `last`, sees the old stamp again, and is handed the
   * key of `j` although the file does not hold it any more.
   */
  lemma ReusedStampServesStaleKey(k: KeyId, h: seq<FileState>, i: nat, j: nat, last: nat, stamp: Stamp, key: PrivateKey)
    returns (s: System, t: System)
    requires i <= j <= last && HasStamp(h, i, stamp) && Holds(h, j, key) && HasStamp(h, last, stamp)
    requires !Holds(h, last, key)
    ensures RunAlong(s, t, k, h) && !AllFaithful(t, k)
  {
    s := System(map[k := [h[0]]], map[], map[]);
    var s1 := Rewrite(s, k, h[..i + 1]);
    t := StaleAfter(s1, k, h[..last + 1], j);
    Then(s, s1, t);
    assert !Faithful(History(t, k), t.calls[1]);
  }

  /** A run during which the file of `k` takes the states of `h` in turn, up to some point. */
  ghost predicate RunAlong(s: System, t: System, k: KeyId, h: seq<FileState>)
    requires h != []
  {
    Init(s) && Leads(s, t) && History(s, k) == [h[0]] && History(t, k) <= h
  }

  /** Exactly the file histories in which stamps identify keys are safe in every interleaving. */
  lemma FaithfulIffStampsIdentifyKeys(k: KeyId, h: seq<FileState>)
    requires h != []
    ensures StampsIdentifyKeys(h) <==> forall s, t :: RunAlong(s, t, k, h) ==> AllFaithful(t, k)
  {
    if StampsIdentifyKeys(h) {
      forall s, t | RunAlong(s, t, k, h)
        ensures AllFaithful(t, k)
      {
        PrefixIdentifies(History(t, k), h);
        LoadsAreFaithful(s, t, k);
      }
    } else {
      var i, j, last, stamp, key :|
        i <= j <= last && HasStamp(h, i, stamp) && Holds(h, j, key) && HasStamp(h, last, stamp) && !Holds(h, last, key);
      var s, t := ReusedStampServesStaleKey(k, h, i, j, last, stamp, key);
    }
  }

  /** Restoring an old key file with its old modification time is such a history. */
  lemma RestoredFileIsUnsafe(stamp: Stamp, other: Stamp, old1: PrivateKey, new2: PrivateKey)
    requires old1 != new2
    ensures !StampsIdentifyKeys([Present(stamp, Some(old1)), Present(other, Some(new2)), Present(stamp, Some(old1))])
  {
    var h := [Present(stamp, Some(old1)), Present(other, Some(new2)), Present(stamp, Some(old1))];
    assert HasStamp(h, 0, stamp) && Holds(h, 1, new2) && HasStamp(h, 2, stamp) && !Holds(h, 2, new2);
  }

  /** Left alone, a call's steps compute what the signer's Load computes on the current file, spelled out case by case. */
  lemma UninterruptedLoad(s: System, c: CallId, k: KeyId) returns (t: System)
    requires c !in s.calls
    ensures Leads(s, t) && t.files == s.files
    ensures c in t.calls && t.calls[c].progress.Returned? && !t.calls[c].broken
    ensures (t.calls[c].progress.result, t.cached)
         == LoadOnce(s.cached, k, StatOf(Current(s, k)), ReadOf(Current(s, k)))
    ensures var file, r := Current(s, k), t.calls[c].progress.result;
      && (file.Absent? ==> r == Err(UnknownKey) && t.cached == s.cached)
      && (file.Present? && k in s.cached && s.cached[k].stamp == file.stamp ==> r == Ok(s.cached[k].key) && t.cached == s.cached)
      && (file.Present? && !(k in s.cached && s.cached[k].stamp == file.stamp) ==>
            if file.key.None? then r == Err(Failed) && t.cached == s.cached
            else r == Ok(file.key.value) && t.cached == s.cached[k := CachedKey(file.key.value, file.stamp)])
  {
    var file := Current(s, k);
    if file.Absent? {
      var begun := Apply(s, Begin(c, k));
      Once(s, Begin(c, k));
      Once(begun, On(c, Stat));
      t := Apply(begun, On(c, Stat));
      Then(s, begun, t);
    } else if Hit(s.cached, k, file.stamp).Some? {
      t := HitReturnsCachedKey(s, k, c);
    } else {
      var s1 := StatPresent(s, k, c);
      var s2 := Apply(s1, On(c, Lookup));
      Once(s1, On(c, Lookup));
      Then(s, s1, s2);
      if file.key.Some? {
        t := ReadAndStore(s2, k, c);
      } else {
        Once(s2, On(c, Read));
        t := Apply(s2, On(c, Read));
      }
      Then(s, s2, t);
    }
  }

  // ----- absent files, whatever the stamps -----

  predicate Exists(h: seq<FileState>, m: nat) {
    m < |h| && h[m].Present?
  }

  /** A call past its stat, or answered otherwise than "unknown key" with no fault, found the file there. */
  ghost predicate SawFile(h: seq<FileState>, call: Call) {
    && call.since < |h|
    && match call.progress
       case Started => true
       case Returned(result, until) =>
         until < |h| && (result == Err(UnknownKey) || call.broken || exists m :: call.since <= m <= until && Exists(h, m))
       case _ => exists m :: call.since <= m && Exists(h, m)
  }

  ghost predicate AllSawFile(s: System, k: KeyId) {
    forall c :: c in s.calls && s.calls[c].keyID == k ==> SawFile(History(s, k), s.calls[c])
  }

  lemma GrowKeepsSawFile(h: seq<FileState>, f: FileState, call: Call)
    requires SawFile(h, call)
    ensures SawFile(h + [f], call)
  {
    assert forall m: nat :: Exists(h, m) ==> Exists(h + [f], m);
  }

  lemma AdvanceKeepsSawFile(cached: Cache, k: KeyId, h: seq<FileState>, call: Call, op: Op)
    requires h != [] && SawFile(h, call) && CanAdvance(call.progress, op)
    ensures SawFile(h, call.(broken := call.broken || IsFault(op), progress := Advanced(cached, k, h, call.progress, op)))
  {
    assert h[|h| - 1].Present? ==> Exists(h, |h| - 1);
  }

  lemma StepKeepsSawFile(s: System, e: Event, k: KeyId)
    requires Enabled(s, e) && AllSawFile(s, k)
    ensures AllSawFile(Apply(s, e), k)
  {
    var h := History(s, k);
    if e.SetFile? && e.keyID == k {
      forall c | c in s.calls && s.calls[c].keyID == k
        ensures SawFile(h + [e.file], s.calls[c])
      {
        GrowKeepsSawFile(h, e.file, s.calls[c]);
      }
    } else if e.On? && s.calls[e.call].keyID == k {
      AdvanceKeepsSawFile(s.cached, k, h, s.calls[e.call], e.op);
    }
  }

  lemma {:induction false} RunKeepsSawFile(run: seq<System>, i: nat, k: KeyId)
    requires IsRun(run) && i < |run| && AllSawFile(run[0], k)
    ensures AllSawFile(run[i], k)
  {
    if i > 0 {
      RunKeepsSawFile(run, i - 1, k);
      assert StepAt(run, i - 1);
      var e :| Enabled(run[i - 1], e) && run[i] == Apply(run[i - 1], e);
      StepKeepsSawFile(run[i - 1], e, k);
    }
  }

  /**
   * In every interleaving, whatever the cache holds and the stamps are: a key file
   * that is absent throughout a call makes it an unknown key, unless the file system failed.
   */
  lemma AbsentThroughoutIsUnknown(s: System, t: System, c: CallId)
    requires Init(s) && Leads(s, t) && c in t.calls && t.calls[c].progress.Returned? && !t.calls[c].broken
    requires forall m :: t.calls[c].since <= m <= t.calls[c].progress.until ==> !Exists(History(t, t.calls[c].keyID), m)
    ensures t.calls[c].progress.result == Err(UnknownKey)
  {
    var run :| IsRun(run) && run[0] == s && run[|run| - 1] == t;
    RunKeepsSawFile(run, |run| - 1, t.calls[c].keyID);
  }
}
