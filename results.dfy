/** Option and Result values shared by the reminder model. */
module Results {

  datatype Option<+T> = None | Some(value: T)

  /** A computation that either yields a value or fails with an error, as a Python
      call that returns or raises. */
  datatype Result<+T, +E> = Ok(value: T) | Err(error: E)
}
