/** Option and Result datatypes for nullable values and for the IllegalArgumentException paths. */
module Wrappers {

  /** A Java reference that may be null. */
  datatype Option<+T> = None | Some(value: T)

  /** Either a value or the error the Java code would have thrown. */
  datatype Result<+T, +E> = Ok(value: T) | Err(error: E)
}
