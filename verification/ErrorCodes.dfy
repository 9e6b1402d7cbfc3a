/** The error codes of the C++ sources; a function that is passed a failure does nothing. */
module ErrorCodes {
  datatype ErrorCode =
    | ZeroError
    | IllegalArgumentError
    | IndexOutOfBoundsError
    | UnsupportedError
    | NoWritePermissionError
  {
    predicate Failure() {
      !ZeroError?
    }
  }
}
