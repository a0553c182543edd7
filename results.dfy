/** Failure-compatible carriers for the source's thrown exceptions. */
module Results {

  /** A value, or nothing (PHP's `isset` failing). */
  datatype Option<+T> = None | Some(value: T)

  /** A computed value, or the exception that the PHP code throws instead. */
  datatype Result<+T, +E> = Success(value: T) | Failure(error: E)
}
