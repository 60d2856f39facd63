/** Option and the Python exceptions the contact book raises, as values. */
module Wrappers {

  datatype Option<+T> = None | Some(value: T)

  /** The three exception classes the command layer catches (main.py:23-28). */
  datatype Error =
    | ValueError(message: string)
    | IndexError(message: string)
    | KeyError(message: string)

  /** The outcome of a call that either returns a value or raises. */
  datatype Result<+T> = Ok(value: T) | Err(error: Error)
}
