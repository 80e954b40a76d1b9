/** Failure-compatible result types used throughout the model. */
module Wrappers {

  datatype Option<+T> = None | Some(value: T)

  /** The outcome of an operation that returns a value or raises an exception. */
  datatype Result<+R, +E> = Success(value: R) | Failure(error: E) {
    predicate IsFailure() { Failure? }

    function PropagateFailure<U>(): Result<U, E>
      requires Failure?
    {
      Failure(error)
    }

    function Extract(): R
      requires Success?
    {
      value
    }
  }

  /** The outcome of an operation that returns nothing or raises an exception. */
  datatype Outcome<+E> = Pass | Fail(error: E) {
    predicate IsFailure() { Fail? }

    function PropagateFailure(): Outcome<E>
      requires Fail?
    {
      this
    }
  }
}

/** The exceptions (and fatal errors) the modelled PHP code can raise. */
module Errors {

  datatype Error =
    | BadIpAddress        // GeoLocator\BadIpAddressException
    | BadCountryCode      // GeoLocator\BadCountryCodeException
    | BadCountryName      // GeoLocator\BadCountryNameException
    | NotSupportedFormat  // GeoLocator\NotSupportedFormatException
    | IOException         // GeoLocator\IOException
    | NullRecord          // PHP Error: a member function called on a NULL slot
    | UndefinedFunction   // PHP Error: call to a function that is not defined
}
