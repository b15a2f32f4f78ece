/** Option and Result for the filter's error paths. */
module Wrappers {

  /** A value that may be missing (an index outside the filter). */
  datatype Option<T> = None | Some(value: T)

  /** The outcome of an operation that can raise (construction of a filter). */
  datatype Result<T, E> = Success(value: T) | Failure(error: E)
}
