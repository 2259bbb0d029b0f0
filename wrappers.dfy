/** Optional values and results with an error, as the stream operations return them. */
module Wrappers {

  /** `java.util.Optional`: either a value or explicitly absent. */
  datatype Option<+T> = None | Some(value: T)

  /** The outcome of an operation that may fail with an error instead of a value. */
  datatype Result<+R, +E> = Success(value: R) | Failure(error: E)
}
