/** Option for values a lookup may not find, Result for an operation that either
    produces a value or fails with a message, and Outcome for a Python call that
    either returns a value or raises. */
module Wrappers {

  datatype Option<+T> = None | Some(value: T) {

    /** Returns the value held in Some, or `default` for None. */
    function GetOr(default: T): T {
      match this
      case Some(v) => v
      case None => default
    }
  }

  datatype Result<+R, +E> = Success(value: R) | Failure(error: E)

  /** The result of a call that may raise. The exception itself carries no
      information the model needs: every caller in the core either swallows it
      or (for the parser) turns it into a message. */
  datatype Outcome<+T> = Value(value: T) | Raised {

    predicate IsFailure() {
      Raised?
    }

    function PropagateFailure<U>(): Outcome<U>
      requires Raised?
    {
      Raised
    }

    function Extract(): T
      requires Value?
    {
      value
    }
  }
}
