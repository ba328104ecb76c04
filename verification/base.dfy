/** Failure-carrying wrappers shared by the other modules. */
module Base {

  /** A value that may be absent: the model's stand-in for `std::string::npos` and null. */
  datatype Option<+T> = None | Some(value: T)

  /** Either a computed value or the reason the computation aborted. */
  datatype Result<+T, +E> = Ok(value: T) | Err(error: E)
}
