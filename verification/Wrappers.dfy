/** Result types shared by the modules of this project. */
module Wrappers {

  /** A value that may be absent: a null pointer, a missing map entry, a Python None. */
  datatype Option<+T> = None | Some(value: T)

  /** The outcome of an operation that can raise. */
  datatype Result<+T, +E> = Ok(value: T) | Err(error: E)
}
