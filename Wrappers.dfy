/** Outcomes that may be missing or may be a raised Python exception. */
module Wrappers {
  datatype Option<T> = None | Some(value: T)

  /** Success carries the value; Failure names the exception the Python code would raise. */
  datatype Result<T> = Success(value: T) | Failure(error: string)
}
