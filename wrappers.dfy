/** The failure-compatible result type used for the generator's exceptions. */
module Wrappers {

  /** Either a value, or the error that Python would raise instead. */
  datatype Result<+T, +E> = Success(value: T) | Failure(error: E)

  /** An optional value: the error a loop stopped with, if any. */
  datatype Option<+T> = None | Some(value: T)
}
