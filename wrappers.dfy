/** Failure-carrying result types shared by the sparse-matrix modules. */
module Wrappers {

  datatype Option<+T> = None | Some(value: T)

  /** The two ways an operation of the matrix can fail.
      DimensionMismatch: the operands of add, subtract or multiply do not fit.
      FormatError: a line of the textual form cannot be parsed. */
  datatype MatrixError = DimensionMismatch | FormatError

  datatype Result<+T> = Ok(value: T) | Err(error: MatrixError)
}
