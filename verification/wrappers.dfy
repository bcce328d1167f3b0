/** Optional values and results used throughout the model. */
module Wrappers {
  /** A value that may be absent: the source's `number | null` and `T | undefined`. */
  datatype Option<+T> = None | Some(value: T)

  /** An operation that either succeeds with a value or fails with an error. */
  datatype Result<+T, +E> = Ok(value: T) | Err(error: E)
}
