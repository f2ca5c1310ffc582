/** The `Option` and `Result` types used across the model: `Option` for
    Java's nullable values and `Result` for operations that can throw. */
module Results {

  /** A value that may be absent, as a Java reference that may be `null`. */
  datatype Option<+T> = None | Some(value: T)

  /** Either a normal return value or the exception that ended the call. */
  datatype Result<+T, +E> = Ok(value: T) | Err(error: E)
}
