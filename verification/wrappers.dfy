/** Option and Result values, standing in for Python's `None` and for the
    exceptions that the application turns into strings. */
module Wrappers {

  datatype Option<+T> = None | Some(value: T)

  /** The outcome of a foreign call: a value, or the text of the exception it raised. */
  datatype Result<+R> = Success(value: R) | Failure(message: string)
}
