/** The two small wrappers the model uses in place of C#'s `null` and exceptions. */
module Results {

  /** A value that may be absent (a C# reference that may be `null`). */
  datatype Option<+T> = None | Some(value: T)

  /** Either a value or the error the C# code would have thrown. */
  datatype Result<+T, +E> = Ok(value: T) | Err(error: E)
}
