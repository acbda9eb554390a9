/** Option and the outcome of a call that may raise, used across the model. */
module Wrappers {

  datatype Option<+T> = None | Some(value: T)

  /** The result of a Python call that either returns a value or raises ValueError. */
  datatype Outcome<+T> = Ok(value: T) | ValueError
}
