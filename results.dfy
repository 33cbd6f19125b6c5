/** Failure-carrying values shared by every module of the model. */
module Results {

  datatype Option<+T> = None | Some(value: T)

  /** A Go `(value, error)` pair where exactly one side is meaningful. */
  datatype Result<+T, +E> = Success(value: T) | Failure(error: E)
}
