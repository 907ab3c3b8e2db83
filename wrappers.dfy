/** Option and Result datatypes for the model's missing cells and error paths. */
module Wrappers {

  /** A value that may be missing (a pandas cell holding None). */
  datatype Option<+T> = None | Some(value: T)

  /** The outcome of an operation that may raise. */
  datatype Result<+T, +E> = Ok(value: T) | Err(error: E)
}
