/** Small failure-compatible wrappers shared by the modules of the model. */
module Options {

  /** A value that may be absent: Python's `Optional[...]`. */
  datatype Option<T> = None | Some(value: T)

  /** A computation that either produced a value or raised an error. */
  datatype Result<T, E> = Success(value: T) | Failure(error: E)
}
