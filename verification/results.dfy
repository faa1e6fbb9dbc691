/** Failure-carrying return values used throughout the model: the Go code returns
    `(value, error)` pairs and nil-able interface values, modelled here as sums. */
module Results {

  /** A value that may be absent (a nil `Stmt` slot, a failed `denest`). */
  datatype Option<+T> = None | Some(value: T)

  /** Either a value or the error that replaced it. */
  datatype Result<+T, +E> = Success(value: T) | Failure(error: E)
}
