/** Optional and result values shared by the loaders and the argument checker. */
module Wrappers {

  /** A value that may be missing: a parse that did not succeed, a key that is absent. */
  datatype Option<+T> = None | Some(value: T)

  /** The outcome of an operation that either produces a value or stops with an error. */
  datatype Result<+T, +E> = Success(value: T) | Failure(error: E)
}
