/** Failure-carrying values shared by the other modules. */
module Common {

  /** A value that may be absent: Python's `None` versus a present value. */
  datatype Option<+T> = None | Some(value: T)

  /** The outcome of a command: a value, or the error the command raises. */
  datatype Result<+T, +E> = Ok(value: T) | Err(error: E)
}
