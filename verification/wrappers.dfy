/** Optional values and results with an error channel, used where the modelled
    code throws or where a bounded search can come back empty. */
module Wrappers {

  datatype Option<T> = None | Some(value: T)

  datatype Result<T, E> = Success(value: T) | Failure(error: E)
}
