/** The error codes of the core's operations. */
module CoreErrors {
  datatype CoreError =
    | Cancelled
    | InvalidArgument
    | DeadlineExceeded
    | NotFound
    | ResourceExhausted
    | FailedPrecondition
    | OutOfRange
    | Internal
    | Busy
    | ShouldWait
}
