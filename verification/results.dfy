/** Failure-carrying wrappers used across the model. */
module Results {

  /** A value that may be absent: a missing file, a lookup with no match. */
  datatype Option<+T> = None | Some(value: T)

  /** Either a computed value or the reason the computation stopped. */
  datatype Result<+T, +E> = Ok(value: T) | Err(error: E)
}
