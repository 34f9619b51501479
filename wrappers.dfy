/** Optional values and results with an error, standing for Python's `None`
    and for a raised validation error. */
module Wrappers {

  datatype Option<+T> = None | Some(value: T)

  datatype Result<+T, +E> = Success(value: T) | Failure(error: E)
}
