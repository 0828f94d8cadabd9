/** Optional values and results with an error, used for the script's
    missing fields, failed matches and swallowed exceptions. */
module Wrappers {

  datatype Option<+T> = None | Some(value: T)

  datatype Result<+T, +E> = Success(value: T) | Failure(error: E)
}
