/**
 * Failure-carrying results for the modelled Kotlin code. The exceptions the
 * widget can throw become `Failure` values instead of preconditions.
 */
module Outcomes {

  datatype Option<+T> = None | Some(value: T) {
    function GetOr(default: T): T {
      match this
      case Some(v) => v
      case None => default
    }
  }

  /** The exceptions the modelled code can raise. */
  datatype Fault =
    | IndexOutOfBounds  // list or vector access outside its bounds
    | ArithmeticError   // Long division by zero
    | IllegalArgument   // an explicit IllegalArgumentException
    | NumberFormat      // String.toInt on text that is not an Int

  datatype Result<+T> = Success(value: T) | Failure(error: Fault) {
    predicate IsFailure() {
      Failure?
    }

    function PropagateFailure<U>(): Result<U>
      requires Failure?
    {
      Failure(error)
    }

    function Extract(): T
      requires Success?
    {
      value
    }
  }
}
