/** Optional values and results with an error, the two ways the program reports absence and failure. */
module Maybe {

  /** Python's `None` or a present value. */
  datatype Option<+T> = None | Some(value: T)

  /** A computed value, or the error that interrupted the computation. */
  datatype Result<+T, +E> = Ok(value: T) | Err(error: E)
}
