// Shared result types: the exceptions the modelled code throws become error
// values, so every operation that can fail returns a Result.
module Wrappers {

  datatype Option<T> = None | Some(value: T)

  /** The exception classes raised by the modelled code. */
  datatype Exception =
    | ArgumentException
    | ArgumentNullException
    | FormatException
    | ArithmeticException
    | NotImplementedException
    | NullReferenceException
    | IndexOutOfRangeException
    | CryptographicException
    | InvalidUProveArtifactException
    | SerializationException
    | UProveSerializationException
    // not an exception of the source: the finite stand-in for a random
    // source ran out before the search ended
    | OutOfDraws

  datatype Result<T> = Ok(value: T) | Err(error: Exception)

  /** Outcome of an operation that only changes state. */
  datatype Status = Done | Raised(error: Exception)
}
