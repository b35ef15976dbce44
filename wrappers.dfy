/** The Option and Result datatypes shared by both readers. */
module Wrappers {

  /** A value that may be absent (std::string::npos, a missing map entry). */
  datatype Option<+T> = None | Some(value: T)

  /** Either a computed value or the exception the source raises instead. */
  datatype Result<+T, +E> = Ok(value: T) | Err(error: E)
}
