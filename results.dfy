/** Failure-carrying values standing in for the exceptions of the mailbox store. */
module Results {

  /** The only error the mailbox raises: an index past the end of the message list. */
  datatype Error = ValueError

  datatype Option<+T> = None | Some(value: T)

  /** A value, or the error the source raises instead of returning it. */
  datatype Result<+T> = Ok(value: T) | Err(error: Error)

  /** The outcome of an operation that returns nothing on success. */
  datatype Outcome = Pass | Fail(error: Error)
}
