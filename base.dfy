/** Failure-carrying values shared by every module of the model. */
module Base {

  /** A value that may be absent (Go's nil). */
  datatype Option<+T> = None | Some(value: T)

  /** A value or an error; an error is represented by the text its Error() method returns. */
  datatype Result<+T> = Ok(value: T) | Err(error: string)
}
