/** Failure-carrying datatypes shared by the model: Go's `(value, error)` pairs and
    "found / not found" searches are expressed with these instead of nil values. */
module Results {

  /** A value that may be absent (a search that found nothing, a nil func field). */
  datatype Option<+T> = None | Some(value: T)

  /** The value of a Go call returning `(T, error)`: exactly one side is present. */
  datatype Result<+T, +E> = Success(value: T) | Failure(error: E)
}
