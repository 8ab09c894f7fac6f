/** Option and Result values used where the source returns null or throws. */
module Wrappers {

  /** A value that may be absent (a C# null reference or nullable value). */
  datatype Option<T> = None | Some(value: T)

  /** The outcome of an operation that either yields a value or fails with an error. */
  datatype Result<T, E> = Ok(value: T) | Err(error: E)
}
