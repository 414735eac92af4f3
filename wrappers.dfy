/** Optional values and results with an error, used wherever the bridge
    returns an error value or reads an optional field. */
module Wrappers {

  datatype Option<+T> = None | Some(value: T)

  datatype Result<+R, +E> = Success(value: R) | Failure(error: E)
}
