/** Option and Result: the model's stand-ins for Java's null / Optional and for thrown exceptions. */
module Wrappers {

  datatype Option<+T> = None | Some(value: T)

  datatype Result<+T, +E> = Success(value: T) | Failure(error: E) {
    predicate IsFailure() { Failure? }
  }
}

/** The Java exceptions the modelled code can throw, as values. */
module Errors {

  datatype JavaError =
    | NullPointer
    | IllegalArgument
    | IllegalState
    | NoSuchElement
    | IndexOutOfBounds
    | UnsupportedOperation
    | AssertionFailed
}
