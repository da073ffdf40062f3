/**
 * Failure-compatible wrappers used throughout the model: `Option` stands for a
 * Java reference that may be null, `Result` for a computation that may end in
 * an exception.
 */
module Wrappers {

  datatype Option<+T> = None | Some(value: T) {
    predicate IsFailure() { None? }

    function PropagateFailure<U>(): Option<U>
      requires None?
    {
      None
    }

    function Extract(): T
      requires Some?
    {
      value
    }

    function GetOr(default: T): T {
      match this
      case Some(v) => v
      case None => default
    }
  }

  /** The exceptions the modelled code can raise. */
  datatype Error =
    | NullPointer
    | IndexOutOfBounds
    | NumberFormat
    | NoSuchElement
    | Arithmetic
    | IOError
    | IllegalState
    | Runtime

  datatype Result<+R> = Success(value: R) | Failure(error: Error) {
    predicate IsFailure() { Failure? }

    function PropagateFailure<U>(): Result<U>
      requires Failure?
    {
      Failure(error)
    }

    function Extract(): R
      requires Success?
    {
      value
    }
  }
}
