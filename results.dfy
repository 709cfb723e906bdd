/** Failure-carrying wrappers shared by the model: `Option` stands for a
    Java reference that may be null, `Result` for a call that either
    returns a value or throws. */
module Results {

  datatype Option<+T> = None | Some(value: T)

  /** `Err` carries the message of the exception the Java code would throw. */
  datatype Result<+T> = Ok(value: T) | Err(error: string)
}
