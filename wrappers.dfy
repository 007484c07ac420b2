/** Failure-carrying wrappers shared by every module of the model. */
module Wrappers {

  /** A value or nothing: stands for a Java reference that may be null. */
  datatype Option<T> = None | Some(value: T)

  /** The unchecked Java exceptions that the modelled code lets escape. */
  datatype Error =
    | IllegalState      // IllegalStateException
    | IllegalArgument   // IllegalArgumentException (also Enum.valueOf on an unknown name)
    | NumberFormat      // NumberFormatException from Long.parseLong / Integer.parseInt
    | NullPointer       // NullPointerException

  /** The outcome of a Java call that either returns a value or throws. */
  datatype Result<T> = Success(value: T) | Failure(error: Error)
}
