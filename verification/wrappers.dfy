/** Optional values and results with an error, used wherever the service either
    finds something or reports that it did not. */
module Wrappers {

  datatype Option<+T> = None | Some(value: T)

  datatype Result<+T, +E> = Success(value: T) | Failure(error: E)
}
