/** Failure-carrying values used throughout the model: an optional value
    (a possibly-null reference), a value-or-error, and a pass-or-error. */
module Results {

  /** A reference that may be null. */
  datatype Option<+T> = None | Some(value: T)

  /** Either the computed value or the error that aborted the computation. */
  datatype Result<+T, +E> = Success(value: T) | Failure(error: E)

  /** The outcome of a check that either passes or throws. */
  datatype Outcome<+E> = Pass | Fail(error: E)
}
