/** Absence markers and error returns shared by the whole model. */
module Wrappers {

  /** Python's `Optional[T]`, and SQL NULL for a nullable column. */
  datatype Option<+T> = None | Some(value: T)

  /** The outcome of an operation that may raise: either a value or the error raised. */
  datatype Result<+T, +E> = Success(value: T) | Failure(error: E)
}
