/** The failures the ticket core can report, as values instead of Java exceptions. */
module Exceptions {

  datatype Error =
    | NoTicketsAvailable   // Exceptions.NoTicketsAvailableException: every ticket is already sold
    | NegativeArraySize    // the JVM's NegativeArraySizeException for a negative ticket count

  datatype Result<T> = Success(value: T) | Failure(error: Error)
}
