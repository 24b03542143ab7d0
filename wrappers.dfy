/** Absent values and outcomes that may fail, shared by the other modules. */
module Wrappers {

  /** `None` stands for JavaScript's `undefined` (a field that was not supplied, a row that was not found). */
  datatype Option<+T> = None | Some(value: T)

  /** The settled state of a service promise: resolved with a value or rejected with an error. */
  datatype Result<+T, +E> = Ok(value: T) | Err(error: E)
}
