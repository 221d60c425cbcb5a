/** Outcome types shared by the model. */
module Results {

  /** A value that may be absent (JavaScript `null`). */
  datatype Option<+T> = None | Some(value: T)

  /** A computation that either returns a value or throws an `Error` carrying a message. */
  datatype Result<+T> = Ok(value: T) | Err(message: string)
}
