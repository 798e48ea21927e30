/** Failure-carrying wrappers shared by every module of the model. */
module Base {

  /** An optional value: a Python attribute that may be absent, or a lookup that may miss. */
  datatype Option<+T> = None | Some(value: T)

  /** The outcome of an operation that may raise: `Ok` carries the value, `Err` the exception. */
  datatype Result<+T, +E> = Ok(value: T) | Err(error: E)
}
