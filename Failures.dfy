/** Error results used in place of the exceptions and `null` values of the
    modelled Java code. */
module Failures {

  /** A Java reference that may be `null`. */
  datatype Option<T> = None | Some(value: T)

  /** The kinds of exception the modelled code throws. */
  datatype Error =
    | InvalidKey                  // insert of a null or empty word
    | InvalidSymbol(symbol: char) // a character outside 'a'..'z'
    | NullValue                   // addVertex(null)
    | IndexOutOfRange(index: int) // list or vertex index outside [0, size)

  /** The value of a call that returns normally, or the exception it throws. */
  datatype Result<T> = Ok(value: T) | Err(error: Error)

  /** The outcome of a `void` call: it returns normally or throws. */
  datatype Outcome = Pass | Fail(error: Error)
}
