/** Optional values and results with an error, as the Java service's
    Optional<Todo> and its thrown "not found" exceptions are modelled. */
module Wrappers {

  datatype Option<+T> = None | Some(value: T)

  datatype Result<+R, +E> = Success(value: R) | Failure(error: E)
}
