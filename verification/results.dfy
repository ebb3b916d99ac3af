/** Failure-carrying wrappers shared by the other modules. */
module Results {

  /** A value that may be missing. */
  datatype Option<+T> = None | Some(value: T)

  /** Either a value or the error that prevented computing it. */
  datatype Result<+T, +E> = Success(value: T) | Failure(error: E)
}
