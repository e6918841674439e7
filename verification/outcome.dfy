/** Failure values shared by every matrix representation.

    The original code never returns errors: a violated expectation is a
    panic that aborts the call. Here each kind of panic is a value, so that
    a contract can say exactly when an operation fails. */
module Outcome {

  /** Why an operation aborted. */
  datatype MatrixError =
    | EmptyInput         // `data[0]` taken of a matrix or input with no rows
    | DimensionMismatch  // the explicit shape checks of the naive matrix
    | IndexOutOfBounds   // a buffer read or write past the end of the buffer
    | ZeroChunkSize      // `chunks(0)`: a slice split into chunks of length 0
    | NotTransposed      // a transposed-view product whose right operand has no transposed copy

  /** Either the value an operation computes, or the reason it aborted. */
  datatype Result<+T> = Ok(value: T) | Err(error: MatrixError) {

    predicate IsFailure() {
      Err?
    }

    function PropagateFailure<U>(): Result<U>
      requires Err?
    {
      Err(error)
    }

    function Extract(): T
      requires Ok?
    {
      value
    }
  }
}
