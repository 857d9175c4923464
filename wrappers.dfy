/** Option and Result, the failure-carrying values used across the model. */
module Wrappers {

  datatype Option<T> = None | Some(value: T)

  /** A JavaScript `throw` on the modelled path becomes `Err`. */
  datatype Result<T, E> = Ok(value: T) | Err(error: E)
}
