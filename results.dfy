/** Failure-carrying values used where the Python code raises or returns None. */
module Results {

  /** A value or nothing: Python's `None` for an omitted optional argument. */
  datatype Option<T> = None | Some(value: T)

  /** A value, or the reason the Python code would raise instead of returning. */
  datatype Result<T> = Ok(value: T) | Err(error: string)
}
