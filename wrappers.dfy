/** Failure-carrying datatypes shared by the loader and the report functions. */
module Wrappers {

  /** A value that may be absent, e.g. the outcome of a numeric parse. */
  datatype Option<+T> = None | Some(value: T)

  /** The value a Java method returns, or the exception it throws instead. */
  datatype Result<+T, +E> = Success(value: T) | Failure(error: E)
}
