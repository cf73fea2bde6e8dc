/**
 * The exceptions the containers throw, as values. Messages are not modelled,
 * only which standard exception type is raised.
 */
module Failures {

  datatype Error =
    | InvalidArgument  // std::invalid_argument: absent key in a read-only lookup, ++ past the end
    | LengthError      // std::length_error: key and value vectors of different lengths
    | InvalidKey       // Dictionary's InvalidKey (a std::invalid_argument)

  datatype Option<+T> = None | Some(value: T)

  datatype Result<+T> = Success(value: T) | Failure(error: Error)

  /** The outcome of an operation that returns nothing but may throw. */
  datatype Outcome = Pass | Fail(error: Error)
}
