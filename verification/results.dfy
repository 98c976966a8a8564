/** Success/failure carriers used in place of the services' null returns and exceptions. */
module Results {

  /** A value that may be absent: the model of a repository lookup that returns null. */
  datatype Option<+T> = None | Some(value: T)

  /** Either the value an operation produced or the exception it raised. */
  datatype Result<+T, +E> = Success(value: T) | Failure(error: E)

  /** The outcome of a validation step that produces nothing but may fail. */
  datatype Outcome<+E> = Pass | Fail(error: E)
}
