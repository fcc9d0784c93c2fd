/** Optional values (a JSON field that may be absent, a prop that may be
    null) and results that are either a value or an error. */
module Wrappers {

  datatype Option<+T> = None | Some(value: T)

  datatype Result<+T, +E> = Success(value: T) | Failure(error: E)
}
