/**
 * Error taxonomy of the engine (error.hpp): every failure is a value, never a
 * trap. `Result<T>` carries either a computed value or the error code that
 * stopped the computation.
 */
module Errors {

  datatype ErrorCode =
    | Ok
    | FeatureDisabled
    | InvalidDimension
    | DimensionMismatch
    | NotSquare
    | Singular
    | DivisionByZero
    | Overflow
    | BufferTooSmall
    | IndexOutOfRange
    | StepOutOfRange
    | Internal

  /** Matrix shape as recorded in an error report. */
  datatype Dim = Dim(rows: nat, cols: nat)

  const NoDim := Dim(0, 0)

  /** Structured error: the code plus the dimensions and indices involved. */
  datatype Error = Error(code: ErrorCode, a: Dim, b: Dim, i: nat, j: nat)
  {
    predicate IsOk() { code == Ok }
  }

  function ErrCode(code: ErrorCode): Error { Error(code, NoDim, NoDim, 0, 0) }
  function ErrA(code: ErrorCode, a: Dim): Error { Error(code, a, NoDim, 0, 0) }
  function ErrAB(code: ErrorCode, a: Dim, b: Dim): Error { Error(code, a, b, 0, 0) }

  const NoError := ErrCode(Ok)

  datatype Result<T> = Success(value: T) | Failure(code: ErrorCode)
  {
    predicate IsFailure() { Failure? }

    function PropagateFailure<U>(): Result<U>
      requires Failure?
    {
      Failure(code)
    }

    function Extract(): T
      requires Success?
    {
      value
    }
  }

  datatype Option<T> = None | Some(value: T)
}
