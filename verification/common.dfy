/** Failure-carrying wrappers shared by every module of the model. */
module Common {

  datatype Option<+T> = None | Some(value: T)

  /** The outcome of an operation that can fail with an error of type E
      (a thrown exception, an `error` return, a failed parse). */
  datatype Result<+T, +E> = Ok(value: T) | Err(error: E)
}
