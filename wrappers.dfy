/** Optional values and results with an error, as the Go code expresses them with
    nil pointers and (value, error) pairs. */
module Wrappers {

  /** A possibly absent value: a nil pointer in the Go code is None. */
  datatype Option<+T> = None | Some(value: T)

  /** A value or the error that prevented computing it. */
  datatype Result<+R, +E> = Success(value: R) | Failure(error: E)
}
