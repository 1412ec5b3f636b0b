/** Results of the codec's steps: a value or the error that stopped it. */
module Status {

  datatype Result<+T, +E> = Success(value: T) | Failure(error: E)

  /** A step that produces no value: it passes or fails with an error. */
  datatype Outcome<+E> = Pass | Fail(error: E)

  /** A value that may be missing, such as an optional command-line argument. */
  datatype Option<+T> = None | Some(value: T)
}
