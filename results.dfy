/** Failure-carrying values: the model's stand-ins for Python's `None` and raised exceptions. */
module Results {

  /** A value that may be absent (a regex that did not match, a failed service call). */
  datatype Option<+T> = None | Some(value: T)

  /** The outcome of an operation that either returns a value or raises an error. */
  datatype Result<+T, +E> = Success(value: T) | Failure(error: E)
}
