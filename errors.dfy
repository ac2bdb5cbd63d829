/** Error values and the result wrappers the client returns in place of Go's `error`. */
module Errors {

  /** The failures a client operation can report. */
  datatype Error =
    | ConnClosed            // an operation on a connection that was already closed
    | WriteFailed           // the peer no longer accepts bytes
    | ShortRead             // the stream ended before the requested number of bytes arrived
    | NegativePayload       // a header size in [MinInt32 + 8, 7], for which the int32 `size - 8` is negative (Go's make panics on it)
    | AuthenticationFailed  // the server echoed request id -1 to the authentication packet
    | DialFailed            // the TCP dial did not produce a connection

  /** A value or the error that prevented it (Go's `(T, error)` pair). */
  datatype Result<T> = Success(value: T) | Failure(error: Error)

  /** Success without a value, or an error (Go's lone `error` return). */
  datatype Outcome = Pass | Fail(error: Error)
}
