/** Failure-compatible carriers shared by every module of the model, and the
    error cases the client can raise. */
module Wrappers {

  datatype Option<+T> = None | Some(value: T)

  /** A value or an error; usable with `:-`. */
  datatype Result<+T, +E> = Success(value: T) | Failure(error: E) {

    predicate IsFailure() {
      Failure?
    }

    function PropagateFailure<U>(): Result<U, E>
      requires Failure?
    {
      Failure(error)
    }

    function Extract(): T
      requires Success?
    {
      value
    }
  }

  /** The client's error cases, one per case of the library's error enum.
      `FailedToCreateSerialClient` and `PortClosed` belong to the serial
      transport and are never raised by the protocol layer. */
  datatype DalyError =
    | FailedToCreateSerialClient
    | PortClosed
    | InvalidResponseLength
    | CrcMismatch
    | HeaderMismatch
    | IncompleteFrames
    | FailedToTransmitRequest
}
