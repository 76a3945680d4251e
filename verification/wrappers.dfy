/** Optional values and outcomes of operations that may raise, used by the plugin registry model. */
module Wrappers {

  /** An optional value: a type either has a plugin root or it does not. */
  datatype Option<+T> = None | Some(value: T)

  /** The outcome of an operation that may raise. */
  datatype Result<+T, +E> = Success(value: T) | Failure(error: E)
}
