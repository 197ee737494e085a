/** Failure-carrying results shared by every module of the model. */
module Common {

  /** Python's `Optional[T]`: `None` or a value. */
  datatype Option<+T> = None | Some(value: T)

  /** The outcome of an operation that can raise: `Err` carries the exception's name and message. */
  datatype Result<+T> = Ok(value: T) | Err(error: string)
}
