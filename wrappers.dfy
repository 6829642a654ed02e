/** Failure-compatible result types shared by the modules of this model. */
module Wrappers {

  /** A value that may be absent; stands for a Java reference that may be null. */
  datatype Option<+T> = None | Some(value: T)

  /** Normal completion with no value, or an exception described by `error`. */
  datatype Outcome<+E> = Pass | Fail(error: E)

  /** Normal completion with a value, or an exception described by `error`. */
  datatype Result<+T, +E> = Ok(value: T) | Err(error: E)
}
