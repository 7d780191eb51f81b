/** Optional values and error-carrying results, used for `null` returns and thrown errors. */
module Wrappers {

  /** A value that may be absent (the source's `null`). */
  datatype Option<+T> = None | Some(value: T)

  /** The outcome of an operation that may fail with an error instead of returning. */
  datatype Result<+R, +E> = Success(value: R) | Failure(error: E)
}
