/** Retry-After: from the header text to the delay the queue applies, in int64 nanoseconds. */
module Retry {
  import opened Prelude
  import opened Errors

  const MAX_RETRY_AFTER: int := 3600 * SECOND
  const MAX_UINT64: int := 0xffff_ffff_ffff_ffff
  const MAX_DELTA_SECONDS: int := MAX_INT64 / SECOND

  predicate IsDigit(c: char) {
    '0' <= c <= '9'
  }

  predicate IsDigits(s: string) {
    forall i :: 0 <= i < |s| ==> IsDigit(s[i])
  }

  function DigitOf(c: char): int
    requires IsDigit(c)
  {
    c as int - '0' as int
  }

  datatype NumError = Syntax | Range

  /** strconv.ParseUint's loop, in base 10: it gives up on overflow before it looks at what follows. */
  function ParseUint(s: string, n: int): Result<int, NumError>
    requires 0 <= n <= MAX_UINT64
  {
    if s == "" then Ok(n)
    else if !IsDigit(s[0]) then Err(Syntax)
    else
      var next := n * 10 + DigitOf(s[0]);
      if next > MAX_UINT64 then Err(Range) else ParseUint(s[1..], next)
  }

  /** strconv.ParseInt(v, 10, 64). */
  function ParseInt(v: string): Result<int, NumError> {
    if v == "" then Err(Syntax)
    else
      var negative := v[0] == '-';
      var digits := if v[0] == '-' || v[0] == '+' then v[1..] else v;
      if digits == "" then Err(Syntax)
      else
        match ParseUint(digits, 0)
        case Err(e) => Err(e)
        case Ok(n) =>
          if !negative && n > MAX_INT64 then Err(Range)
          else if negative && n > MAX_INT64 + 1 then Err(Range)
          else Ok(if negative then -n else n)
  }

  /** time.Time.Sub: the difference, saturated to a Duration. */
  function Sub(t: int, now: int): int {
    if t - now > MAX_INT64 then MAX_INT64 else if t - now < MIN_INT64 then MIN_INT64 else t - now
  }

  /** Reads an HTTP-date as nanoseconds, or refuses it. */
  type ParseTime = string -> Option<int>

  /** The delay a Retry-After value asks for, or None to leave the configured backoff alone. */
  function ParseRetryAfter(v: string, now: int, parseTime: ParseTime): Option<int> {
    if v == "" then None
    else
      var secs := ParseInt(v);
      if secs.Ok? && secs.value < 0 then None
      else if secs.Ok? && secs.value <= MAX_DELTA_SECONDS then Some(Wrap64(secs.value * SECOND))
      else if secs.Ok? || (secs.error == Range && v[0] != '-') then Some(MAX_INT64)
      else if parseTime(v).Some? then
        var d := Sub(parseTime(v).value, now);
        if d <= 0 then None else Some(d)
      else None
  }

  /** Wraps an error with a positive delay. */
  function RetryAfter(d: int, err: GoError): GoError {
    if d <= 0 then err else RetryAfterError(d, Some(err))
  }

  /** The tail both HTTP executors share: a retryable failure with the response's Retry-After. */
  function RetryableFailure(header: string, now: int, parseTime: ParseTime, err: GoError): GoError {
    var d := ParseRetryAfter(header, now, parseTime);
    if header != "" && d.Some? then RetryAfter(d.value, err) else err
  }

  /** The hook mkq asks for a delay; None declines. */
  function RetryDelay(err: GoError): Option<int> {
    match FirstRetryAfter(err)
    case None => None
    case Some(after) => if after < 0 then None else Some(Min(after, MAX_RETRY_AFTER))
  }

  // ----- what it computes -----

  /** The number a digit string denotes, read on from `n`, with no bound. */
  function ValueFrom(s: string, n: int): int
    requires IsDigits(s)
  {
    if s == "" then n else ValueFrom(s[1..], n * 10 + DigitOf(s[0]))
  }

  function Value(s: string): int
    requires IsDigits(s)
  {
    ValueFrom(s, 0)
  }

  lemma {:induction false} ValueGrows(s: string, n: int)
    requires IsDigits(s) && n >= 0
    ensures ValueFrom(s, n) >= n
    decreases |s|
  {
    if s != "" {
      ValueGrows(s[1..], n * 10 + DigitOf(s[0]));
    }
  }

  lemma {:induction false} ParseUintIsValue(s: string, n: int)
    requires IsDigits(s) && 0 <= n <= MAX_UINT64
    ensures ParseUint(s, n) == if ValueFrom(s, n) <= MAX_UINT64 then Ok(ValueFrom(s, n)) else Err(Range)
    decreases |s|
  {
    if s != "" {
      var next := n * 10 + DigitOf(s[0]);
      if next > MAX_UINT64 {
        ValueGrows(s[1..], next);
      } else {
        ParseUintIsValue(s[1..], next);
      }
    }
  }

  /** A delta-seconds header reads as its exact value, saturated: nothing wraps. */
  lemma ParseDeltaSeconds(v: string, now: int, parseTime: ParseTime)
    requires v != "" && IsDigits(v)
    ensures ParseRetryAfter(v, now, parseTime) ==
      Some(if Value(v) <= MAX_DELTA_SECONDS then Value(v) * SECOND else MAX_INT64)
    ensures Value(v) >= 0
  {
    ParseUintIsValue(v, 0);
    ValueGrows(v, 0);
    assert IsDigit(v[0]);
  }

  /**
   * End to end, for a delta-seconds header of any length: the applied delay is
   * min(n, 3600) seconds, and zero leaves the configured backoff.
   */
  lemma DeltaSecondsEndToEnd(v: string, now: int, parseTime: ParseTime, err: GoError)
    requires v != "" && IsDigits(v) && !HasRetryAfter(err)
    ensures RetryDelay(RetryableFailure(v, now, parseTime, err)) ==
      (if Value(v) == 0 then None else Some(Min(Value(v), 3600) * SECOND))
  {
    ParseDeltaSeconds(v, now, parseTime);
  }

  /** A negative number of seconds, of any length, leaves the configured backoff. */
  lemma NegativeSecondsDecline(digits: string, now: int, parseTime: ParseTime, err: GoError)
    requires digits != "" && IsDigits(digits) && !HasRetryAfter(err)
    requires parseTime("-" + digits).None?
    ensures RetryDelay(RetryableFailure("-" + digits, now, parseTime, err)) == None
  {
    var v := "-" + digits;
    assert v[1..] == digits;
    ParseUintIsValue(digits, 0);
    ValueGrows(digits, 0);
  }

  /** A date in the future gives the time left, at most one hour; a past one declines. */
  lemma DateEndToEnd(v: string, now: int, parseTime: ParseTime, err: GoError, t: int)
    requires ParseInt(v) == Err(Syntax) && parseTime(v) == Some(t) && v != "" && !HasRetryAfter(err)
    ensures ParseRetryAfter(v, now, parseTime) == if t <= now then None else Some(Min(t - now, MAX_INT64))
    ensures RetryDelay(RetryableFailure(v, now, parseTime, err)) ==
      (if t <= now then None else Some(Min(t - now, MAX_RETRY_AFTER)))
  {
  }

  /** Whatever the error chain, the hook declines or answers within [0, 1h]; wrapping changes nothing. */
  lemma DelayIsBounded(err: GoError)
    ensures var d := RetryDelay(err); d.None? || 0 <= d.value <= MAX_RETRY_AFTER
    ensures RetryDelay(Wrap(err)) == RetryDelay(err)
  {
  }

  // ----- which headers are honoured -----

  /** The text after the one sign a number may begin with, if that is a plus. */
  function Unsigned(v: string): string {
    if v != "" && v[0] == '+' then v[1..] else v
  }

  /** `s` begins with digits whose value, read on from `n`, is beyond 64 bits. */
  ghost predicate Overflows(s: string, n: int) {
    exists k :: 0 <= k <= |s| && IsDigits(s[..k]) && ValueFrom(s[..k], n) > MAX_UINT64
  }

  lemma ValueFromCons(s: string, k: nat, n: int)
    requires 0 < k <= |s| && IsDigit(s[0]) && IsDigits(s[1..][..k - 1])
    ensures IsDigits(s[..k]) && ValueFrom(s[..k], n) == ValueFrom(s[1..][..k - 1], n * 10 + DigitOf(s[0]))
  {
    assert s[..k][1..] == s[1..][..k - 1];
    assert forall i :: 0 < i < k ==> s[..k][i] == s[1..][..k - 1][i - 1];
  }

  lemma OverflowsCons(s: string, n: int)
    requires s != "" && IsDigit(s[0]) && 0 <= n <= MAX_UINT64
    ensures Overflows(s, n) <==> Overflows(s[1..], n * 10 + DigitOf(s[0]))
  {
    var next := n * 10 + DigitOf(s[0]);
    if k :| 0 <= k <= |s| && IsDigits(s[..k]) && ValueFrom(s[..k], n) > MAX_UINT64 {
      assert k > 0;
      assert s[1..][..k - 1] == s[1..k];
      assert forall i :: 0 <= i < k - 1 ==> s[1..k][i] == s[..k][i + 1];
      ValueFromCons(s, k, n);
    }
    if k :| 0 <= k <= |s| - 1 && IsDigits(s[1..][..k]) && ValueFrom(s[1..][..k], next) > MAX_UINT64 {
      ValueFromCons(s, k + 1, n);
    }
  }

  /** The number parser reports overflow exactly when some digit prefix overflows, whatever follows it. */
  lemma {:induction false} RangeIff(s: string, n: int)
    requires 0 <= n <= MAX_UINT64
    ensures ParseUint(s, n) == Err(Range) <==> Overflows(s, n)
    decreases |s|
  {
    if s == "" {
      assert ValueFrom(s[..0], n) == n;
    } else if !IsDigit(s[0]) {
      assert forall k :: 0 < k <= |s| ==> s[..k][0] == s[0];
      assert s[..0] == "";
    } else {
      var next := n * 10 + DigitOf(s[0]);
      OverflowsCons(s, n);
      if next > MAX_UINT64 {
        assert s[1..][..0] == "";
        assert Overflows(s[1..], next);
      } else {
        RangeIff(s[1..], next);
      }
    }
  }

  /** It reads a number exactly when all of the text is digits. */
  lemma {:induction false} OkIff(s: string, n: int)
    requires 0 <= n <= MAX_UINT64
    ensures ParseUint(s, n).Ok? <==> IsDigits(s) && ValueFrom(s, n) <= MAX_UINT64
    ensures ParseUint(s, n).Ok? ==> ParseUint(s, n).value == ValueFrom(s, n)
    decreases |s|
  {
    if IsDigits(s) {
      ParseUintIsValue(s, n);
    } else if s != "" && IsDigit(s[0]) && n * 10 + DigitOf(s[0]) <= MAX_UINT64 {
      assert !IsDigits(s[1..]) by {
        assert forall i :: 0 < i < |s| ==> s[i] == s[1..][i - 1];
      }
      OkIff(s[1..], n * 10 + DigitOf(s[0]));
    }
  }

  /** Every duration on the way is a genuine, non-negative int64. */
  lemma NoWrap(v: string, now: int, parseTime: ParseTime)
    ensures var d := ParseRetryAfter(v, now, parseTime); d.None? || (IsInt64(d.value) && d.value >= 0)
    ensures ParseInt(v).Ok? ==> IsInt64(ParseInt(v).value)
    ensures ParseInt(v).Ok? && 0 <= ParseInt(v).value <= MAX_DELTA_SECONDS ==>
      Wrap64(ParseInt(v).value * SECOND) == ParseInt(v).value * SECOND
  {
    if v != "" {
      var digits := if v[0] == '-' || v[0] == '+' then v[1..] else v;
      OkIff(digits, 0);
      if IsDigits(digits) {
        ValueGrows(digits, 0);
      }
    }
  }

  /** What a header that is not a date must look like to be honoured. */
  ghost predicate Honoured(v: string) {
    && v != "" && v[0] != '-'
    && var t := Unsigned(v);
       Overflows(t, 0) || (IsDigits(t) && Value(t) > 0)
  }

  /**
   * For every header that is no date: it asks for a delay exactly when, after one
   * optional plus, it is digits of positive value or begins with digits beyond 64 bits.
   */
  lemma HonouredIff(v: string, now: int, parseTime: ParseTime)
    requires parseTime(v).None?
    ensures var d := ParseRetryAfter(v, now, parseTime);
      && (d.Some? && d.value > 0 <==> Honoured(v))
      && (Honoured(v) ==> d == Some(if IsDigits(Unsigned(v)) && Value(Unsigned(v)) <= MAX_DELTA_SECONDS then Value(Unsigned(v)) * SECOND else MAX_INT64))
  {
    if v != "" && v[0] != '-' {
      var t := Unsigned(v);
      RangeIff(t, 0);
      OkIff(t, 0);
      if IsDigits(t) {
        ParseUintIsValue(t, 0);
      }
    } else if v != "" {
      OkIff(v[1..], 0);
      if IsDigits(v[1..]) {
        ValueGrows(v[1..], 0);
      }
    }
  }

  /** The same end to end, with the delay applied. */
  lemma HonouredEndToEnd(v: string, now: int, parseTime: ParseTime, err: GoError)
    requires parseTime(v).None? && !HasRetryAfter(err)
    ensures var d := RetryDelay(RetryableFailure(v, now, parseTime, err));
      && (d.Some? <==> Honoured(v))
      && (Honoured(v) ==> d == Some(if IsDigits(Unsigned(v)) then Min(Value(Unsigned(v)), 3600) * SECOND else MAX_RETRY_AFTER))
  {
    HonouredIff(v, now, parseTime);
    assert ParseRetryAfter(v, now, parseTime).Some? ==> ParseRetryAfter(v, now, parseTime).value >= 0 by {
      NoWrap(v, now, parseTime);
    }
  }

  /**
   * A header that is neither a date nor delta-seconds should leave the configured
   * backoff. It is honoured all the same exactly when it is a plus and digits of
   * positive value, or digits beyond 64 bits with anything after them.
   */
  lemma MalformedHonouredIff(v: string, now: int, parseTime: ParseTime, err: GoError)
    requires parseTime(v).None? && !HasRetryAfter(err) && !IsDigits(v)
    ensures RetryDelay(RetryableFailure(v, now, parseTime, err)).Some? <==>
      || (v[0] == '+' && IsDigits(v[1..]) && Value(v[1..]) > 0)
      || (v[0] != '-' && Overflows(Unsigned(v), 0))
  {
    HonouredEndToEnd(v, now, parseTime, err);
  }

  /** Such headers exist: any digits beyond 64 bits, any text after them, with or without a plus, wait the whole hour. */
  lemma OverflowHidesTrailingText(digits: string, junk: string, now: int, parseTime: ParseTime, err: GoError)
    requires IsDigits(digits) && Value(digits) > MAX_UINT64 && !HasRetryAfter(err)
    requires parseTime(digits + junk).None? && parseTime("+" + digits + junk).None?
    ensures RetryDelay(RetryableFailure(digits + junk, now, parseTime, err)) == Some(MAX_RETRY_AFTER)
    ensures RetryDelay(RetryableFailure("+" + digits + junk, now, parseTime, err)) == Some(MAX_RETRY_AFTER)
  {
    var t := digits + junk;
    assert t[..|digits|] == digits;
    assert Overflows(t, 0);
    assert digits != "" && t[0] == digits[0];
    assert ("+" + digits + junk)[1..] == t;
    LongValue(t, |digits|);
    HonouredEndToEnd(t, now, parseTime, err);
    HonouredEndToEnd("+" + digits + junk, now, parseTime, err);
  }

  lemma LongValue(t: string, k: nat)
    requires k <= |t| && IsDigits(t[..k]) && Value(t[..k]) > MAX_UINT64
    ensures IsDigits(t) ==> Value(t) > MAX_UINT64
  {
    if IsDigits(t) {
      RangeIff(t, 0);
      ParseUintIsValue(t, 0);
    }
  }

  // ----- the hook on an arbitrary error -----

  /** Every delay in an error, in the order in which errors.As visits its chain. */
  function Delays(e: GoError): seq<int> {
    match e
    case Leaf(_) => []
    case Wrap(inner) => Delays(inner)
    case Joined(errs) => DelaysOf(errs)
    case RetryAfterError(after, cause) => [after] + if cause.Some? then Delays(cause.value) else []
  }

  function DelaysOf(errs: seq<GoError>): seq<int> {
    if errs == [] then [] else Delays(errs[0]) + DelaysOf(errs[1..])
  }

  lemma {:induction false} FirstDelay(e: GoError)
    ensures FirstRetryAfter(e) == if Delays(e) == [] then None else Some(Delays(e)[0])
  {
    match e
    case Leaf(_) =>
    case Wrap(inner) => FirstDelay(inner);
    case Joined(errs) => FirstDelayOf(errs);
    case RetryAfterError(_, _) =>
  }

  lemma {:induction false} FirstDelayOf(errs: seq<GoError>)
    ensures FirstRetryAfterOf(errs) == if DelaysOf(errs) == [] then None else Some(DelaysOf(errs)[0])
  {
    if errs != [] {
      FirstDelay(errs[0]);
      FirstDelayOf(errs[1..]);
    }
  }

  /**
   * For every error: the hook declines exactly when no delay is in the chain or the
   * first one is negative, however many others follow; otherwise it answers with
   * that first one, capped.
   */
  lemma DeclinesIff(e: GoError)
    ensures RetryDelay(e).None? <==> Delays(e) == [] || Delays(e)[0] < 0
    ensures RetryDelay(e).Some? ==> RetryDelay(e).value == Min(Delays(e)[0], MAX_RETRY_AFTER)
  {
    FirstDelay(e);
  }

  /** Attaching a delay changes nothing about what kind of failure it is: an unrecoverable one stays so. */
  lemma DelayKeepsKind(d: int, err: GoError, header: string, now: int, parseTime: ParseTime, k: Kind)
    ensures Is(RetryAfter(d, err), k) <==> Is(err, k)
    ensures Is(RetryableFailure(header, now, parseTime, err), k) <==> Is(err, k)
  {
  }

  /** Every sentinel in an error's chain, as errors.Is visits them. */
  function Kinds(e: GoError): seq<Kind> {
    match e
    case Leaf(kind) => [kind]
    case Wrap(inner) => Kinds(inner)
    case Joined(errs) => KindsOf(errs)
    case RetryAfterError(_, cause) => if cause.Some? then Kinds(cause.value) else []
  }

  function KindsOf(errs: seq<GoError>): seq<Kind> {
    if errs == [] then [] else Kinds(errs[0]) + KindsOf(errs[1..])
  }

  /** errors.Is finds a sentinel exactly when it is somewhere in the chain. */
  lemma {:induction false} IsIff(e: GoError, k: Kind)
    ensures Is(e, k) <==> k in Kinds(e)
  {
    match e
    case Leaf(_) =>
    case Wrap(inner) => IsIff(inner, k);
    case Joined(errs) => IsIffOf(errs, k);
    case RetryAfterError(_, cause) =>
      if cause.Some? {
        IsIff(cause.value, k);
      }
  }

  lemma {:induction false} IsIffOf(errs: seq<GoError>, k: Kind)
    ensures (exists i :: 0 <= i < |errs| && Is(errs[i], k)) <==> k in KindsOf(errs)
  {
    if errs != [] {
      var rest := errs[1..];
      IsIff(errs[0], k);
      IsIffOf(rest, k);
      assert forall i :: 1 <= i < |errs| ==> errs[i] == rest[i - 1];
      assert forall i :: 0 <= i < |rest| ==> rest[i] == errs[i + 1];
    }
  }

  /** A negative delay is not treated as zero: the clamped value is what the hook answers exactly when it was not negative. */
  lemma ClampedIffNotNegative(after: int, cause: Option<GoError>)
    ensures RetryDelay(RetryAfterError(after, cause)) == Some(Min(Max(after, 0), MAX_RETRY_AFTER)) <==> after >= 0
    ensures after < 0 ==> RetryDelay(RetryAfterError(after, cause)) == None
  {
    DeclinesIff(RetryAfterError(after, cause));
  }
}
