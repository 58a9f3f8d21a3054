/** Go error chains as errors.Is and errors.As walk them. */
module Errors {
  import opened Prelude

  /** The sentinels the code tests for; Other stands for every remaining error. */
  datatype Kind = Unrecoverable | UnknownKey | Blocked | Other

  /** A sentinel, a `%w` wrapper, an errors.Join, or a *RetryAfterError (After in nanoseconds). */
  datatype GoError =
    | Leaf(kind: Kind)
    | Wrap(inner: GoError)
    | Joined(errs: seq<GoError>)
    | RetryAfterError(after: int, cause: Option<GoError>)

  /** errors.Is against a sentinel. */
  predicate Is(e: GoError, k: Kind) {
    match e
    case Leaf(kind) => kind == k
    case Wrap(inner) => Is(inner, k)
    case Joined(errs) => exists i :: 0 <= i < |errs| && Is(errs[i], k)
    case RetryAfterError(_, cause) => cause.Some? && Is(cause.value, k)
  }

  /** errors.As for *RetryAfterError: the first one, depth first. */
  function FirstRetryAfter(e: GoError): Option<int> {
    match e
    case Leaf(_) => None
    case Wrap(inner) => FirstRetryAfter(inner)
    case Joined(errs) => FirstRetryAfterOf(errs)
    case RetryAfterError(after, _) => Some(after)
  }

  function FirstRetryAfterOf(errs: seq<GoError>): Option<int> {
    if errs == [] then None
    else
      var first := FirstRetryAfter(errs[0]);
      if first.Some? then first else FirstRetryAfterOf(errs[1..])
  }

  predicate HasRetryAfter(e: GoError) {
    FirstRetryAfter(e).Some?
  }

  /** `permanent`: an error wrapping mkq.ErrUnrecoverable. */
  const PERMANENT: GoError := Wrap(Leaf(Unrecoverable))

  const PLAIN: GoError := Leaf(Other)
}
