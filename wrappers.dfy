/** Optional values and error-or-value results, used for the collector's
    unreliable sources and for its error returns. */
module Wrappers {

  datatype Option<+T> = None | Some(value: T)

  datatype Result<+T, +E> = Success(value: T) | Failure(error: E)
}
