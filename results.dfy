/** Optional values and results, standing in for Python's `None` and for
    exceptions that a caller catches. */
module Results {

  datatype Option<+T> = None | Some(value: T)

  /** The outcome of an operation that may raise: the value, or the message
      of the exception. */
  datatype Result<+T> = Ok(value: T) | Err(message: string)
}
