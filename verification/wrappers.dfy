/** Failure-compatible wrappers shared by the whole model. */
module Wrappers {

  /** A value that may be missing: a nullable column or a query that found no row. */
  datatype Option<+T> = None | Some(value: T)

  /** The outcome of a service call: the new state and answer, or the HTTP error it raises. */
  datatype Result<+T, +E> = Success(value: T) | Failure(error: E)
}
