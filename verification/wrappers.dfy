/** Optional values and task results. */
module Wrappers {

  /** An optional value: a search that may find nothing, a nullable timestamp. */
  datatype Option<+T> = None | Some(value: T)

  /** The outcome of a task that can stop with an error instead of a new state. */
  datatype Result<+T, +E> = Success(value: T) | Failure(error: E)
}
