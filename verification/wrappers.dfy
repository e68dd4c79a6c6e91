/** Optional values and success/failure results, used for lookups and for the
    `(value, error)` pairs the Go code returns. */
module Wrappers {

  datatype Option<+T> = None | Some(value: T)

  datatype Result<+T, +E> = Success(value: T) | Failure(error: E)
}
