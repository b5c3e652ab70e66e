/** Optional values, used for JavaScript's null/undefined and for "no error", and results that may have thrown. */
module Wrappers {

  datatype Option<+T> = None | Some(value: T)

  datatype Result<+T, +E> = Success(value: T) | Failure(error: E)
}
