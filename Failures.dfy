/** The exceptions the library raises, as values. */
module Failures {

  /** The exceptions a modelled member can throw. */
  datatype Error =
    | OutOfRange            // ArgumentOutOfRangeException
    | Overflow              // OverflowException from a checked narrowing
    | Misaligned(addr: int) // DataMisalignedException carrying the offending address

  /** The result of a member that returns a value or throws. */
  datatype Result<T> = Success(value: T) | Failure(error: Error)

  /** The result of a `void` member that returns normally or throws. */
  datatype Outcome = Pass | Fail(error: Error)
}
