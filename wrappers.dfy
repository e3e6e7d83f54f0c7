/** Option and Result, the two failure-carrying shapes the model uses. */
module Wrappers {

  datatype Option<+T> = None | Some(value: T)

  /** The Python exceptions that escape the modelled code. */
  datatype PyError = TypeError | ValueError | AttributeError | OverflowError

  /** A value, or the exception a Python call raised instead of returning one. */
  datatype Result<+T> = Ok(value: T) | Err(error: PyError)
}
