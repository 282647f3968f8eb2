/** Optional values and results with an error, shared by the modules of this model. */
module Wrappers {

  /** A value that may be absent; `None` also stands for any falsy JavaScript value. */
  datatype Option<+T> = None | Some(value: T)

  /** The outcome of an operation that may throw: `Err` carries what was thrown. */
  datatype Result<+T, +E> = Ok(value: T) | Err(error: E)
}
