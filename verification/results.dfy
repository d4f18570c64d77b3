/** Option and result types used by every layer of the model. */
module Results {

  /** A value that may be missing: an absent request field, a lookup miss. */
  datatype Option<+T> = None | Some(value: T)

  /** Either a computed value or an error. */
  datatype Result<+T, +E> = Ok(value: T) | Err(error: E)
}
