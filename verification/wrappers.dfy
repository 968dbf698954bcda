/** Optional values and results with an error, used in place of Java's null and exceptions. */
module Wrappers {

  /** A value that may be absent (Java's null). */
  datatype Option<+T> = None | Some(value: T)

  /** Either a value or the reason the computation was abandoned (a thrown exception). */
  datatype Result<+T, +E> = Ok(value: T) | Err(error: E)
}
