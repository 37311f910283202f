/** Optional values and outcomes that may fail, used for Go's `(value, ok)`
    and `(value, error)` returns and for the slice reads that panic. */
module Wrappers {

  datatype Option<+T> = None | Some(value: T)

  datatype Result<+R, +E> = Success(value: R) | Failure(error: E)
}
