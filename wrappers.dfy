/** Optional values and results with an error, the shapes Python's `None` and
    raised exceptions take in this model. */
module Wrappers {

  datatype Option<T> = None | Some(value: T)

  datatype Result<T, E> = Success(value: T) | Failure(error: E)
}
