/** Optional values and success-or-error results, used wherever the launcher
    either has no value (Python's `None`) or raises. */
module Wrappers {

  datatype Option<+T> = None | Some(value: T)

  datatype Result<+T, +E> = Success(value: T) | Failure(error: E)
}
