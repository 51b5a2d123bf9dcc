/** Optional values and results, used for nullable columns and for the
    outcomes of external collaborators. */
module Wrappers {

  datatype Option<+T> = None | Some(value: T)

  datatype Result<+R, +E> = Success(value: R) | Failure(error: E)
}
