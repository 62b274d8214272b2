/** Optional values and success-or-error results, in the usual shape. */
module Wrappers {

  /** A value that may be absent (JavaScript's `undefined` / `null`). */
  datatype Option<+T> = None | Some(value: T)

  /** The outcome of an operation that may fail with an error. */
  datatype Result<+R, +E> = Success(value: R) | Failure(error: E)
}
