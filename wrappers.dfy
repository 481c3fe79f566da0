/** Optional values and results with an error, used where the service either
    produces a value or gives up on a request. */
module Wrappers {

  datatype Option<+T> = None | Some(value: T)

  datatype Result<+R, +E> = Success(value: R) | Failure(error: E)
}
