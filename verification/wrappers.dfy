/** Option and Result, the failure-carrying values used throughout the model. */
module Wrappers {

  /** A value that may be absent: a missing cell of the table, or a failed read. */
  datatype Option<+T> = None | Some(value: T)

  /** The outcome of a lookup that raises instead of substituting a default. */
  datatype Result<+T, +E> = Ok(value: T) | Err(error: E)
}
