/** The exceptions a match callback of the normaliser can raise, and a
    failure-compatible result type that carries them out of a pass. */
module Wrappers {

  /** ValueError: `int()` was given a string that is not an integer literal.
      KeyError: a currency symbol with no entry in the inflection table. */
  datatype Error = ValueError(literal: string) | KeyError(key: char)

  datatype Result<+T> = Success(value: T) | Failure(error: Error) {

    predicate IsFailure() {
      Failure?
    }

    function PropagateFailure<U>(): Result<U>
      requires Failure?
    {
      Failure(error)
    }

    function Extract(): T
      requires Success?
    {
      value
    }
  }
}
