/** Failure-carrying wrappers shared by every module of the model. */
module Results {

  /** A value that may be absent (Python's `Optional[...]`, `None` included). */
  datatype Option<+T> = None | Some(value: T)

  /** The outcome of an operation that may raise: `Err` stands for the exception. */
  datatype Result<+T, +E> = Ok(value: T) | Err(error: E)
}
