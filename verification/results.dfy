/** Failure-carrying values shared by the generator and the build helper. */
module Results {

  /** An optional value: Go's "nil error" is `None`. */
  datatype Option<+T> = None | Some(value: T)

  /** A value or an error, for Go's `(T, error)` returns whose value is unused on error. */
  datatype Result<+T, +E> = Success(value: T) | Failure(error: E)
}
