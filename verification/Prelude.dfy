/** Result types and the byte type shared by the whole model. */
module Prelude {
  datatype Option<+T> = None | Some(value: T)

  datatype Result<+T, +E> = Ok(value: T) | Err(error: E)

  /** One octet of binary data. Text is a `string` whose characters stand for its bytes. */
  newtype byte = x: int | 0 <= x < 256

  /** Durations are in nanoseconds. */
  const SECOND: int := 1_000_000_000

  const MAX_INT64: int := 0x7fff_ffff_ffff_ffff
  const MIN_INT64: int := -0x8000_0000_0000_0000

  /** What an int64 holds after an operation whose exact result is `x`. */
  function Wrap64(x: int): int {
    (x + 0x8000_0000_0000_0000) % 0x1_0000_0000_0000_0000 - 0x8000_0000_0000_0000
  }

  predicate IsInt64(x: int) {
    MIN_INT64 <= x <= MAX_INT64
  }

  lemma WrapFits(x: int)
    requires IsInt64(x)
    ensures Wrap64(x) == x
  {
  }

  function Max(a: int, b: int): int {
    if a < b then b else a
  }

  function Min(a: int, b: int): int {
    if a < b then a else b
  }
}
