/** Failure-carrying results used by the parsers of this model. */
module Wrappers {

  /** A value that may be missing: a Go `(v, err)` pair whose error carries no information. */
  datatype Option<+T> = None | Some(value: T)

  /** A value or a descriptive error, as a Go `(v, error)` pair. */
  datatype Result<+T, +E> = Success(value: T) | Failure(error: E)
}
