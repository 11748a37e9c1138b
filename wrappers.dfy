/** Option and result types for the Python behaviour the model keeps:
    a missing value, and the three exceptions the modelled code can raise. */
module Wrappers {

  datatype Option<+T> = None | Some(value: T)

  /** The Python exceptions that escape the modelled functions. */
  datatype PyError = KeyError | ValueError | IndexError

  /** The value of a Python call that either returns or raises. */
  datatype Result<+T> = Ok(value: T) | Err(error: PyError)

  /** A Python call that returns None or raises. */
  datatype Outcome = Pass | Fail(error: PyError)
}
