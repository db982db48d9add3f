/** Optional values and success/failure results, used in place of Java's
    `Optional` and of thrown exceptions. */
module Wrappers {

  /** An entry that may be absent, never a sentinel value. */
  datatype Option<+T> = None | Some(value: T)

  /** The outcome of an operation that either yields a value or fails with an error. */
  datatype Result<+R, +E> = Success(value: R) | Failure(error: E)
}
