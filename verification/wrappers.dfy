/** Failure-compatible wrappers used by the model: a Go value that may be nil
    becomes an Option, a (value, error) pair a Result, and a bare error return
    an Outcome. */
module Wrappers {

  /** A value that may be absent, as a nil Go slice is. */
  datatype Option<+T> = None | Some(value: T)

  /** Either a value or an error, as Go's (value, error) return pair. */
  datatype Result<+R, +E> = Success(value: R) | Failure(error: E)

  /** Either no error or an error, as a Go function returning only `error`. */
  datatype Outcome<+E> = Pass | Fail(error: E)
}
