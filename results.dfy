/** Failure-carrying results, used where the script raises an exception. */
module Results {

  /** Either a value or the error the script would have raised. */
  datatype Result<+T, +E> = Ok(value: T) | Err(error: E)

  /** A value that may be absent. */
  datatype Option<+T> = None | Some(value: T)
}
