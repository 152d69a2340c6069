/** The error-or-value shape of Go's `(T, error)` returns. */
module Results {

  datatype Result<+T, +E> = Success(value: T) | Failure(error: E)
}
