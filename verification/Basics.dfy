/** Vocabulary shared by every layer: optional values, results, bytes and the
    subsystem's error types (srp/errors.py). */
module Basics {

  datatype Option<+T> = None | Some(value: T)

  /** A value, or the exception raised instead of it.  Usable with `:-`. */
  datatype Result<+T, +E> = Success(value: T) | Failure(error: E) {

    predicate IsFailure() {
      Failure?
    }

    function PropagateFailure<U>(): Result<U, E>
      requires Failure?
    {
      Failure(error)
    }

    function Extract(): T
      requires Success?
    {
      value
    }
  }

  type byte = b: nat | b < 256

  type Bytes = seq<byte>

  /** The exception classes of srp/errors.py, and the three built-in ones that
      the modelled code can let through: `struct.error`, IndexError, ValueError. */
  datatype SrpError =
    | ConfigurationError
    | NonceExhaustedError
    | AuthenticationFailure
    | MalformedRecordError
    | StructError
    | IndexError
    | ValueError

  datatype RecordStatus = ACCEPTED | REJECTED

  datatype RejectReason =
    | MALFORMED
    | SUITE_MISMATCH
    | SESSION_MISMATCH
    | REPLAY_DETECTED
    | STALE_RECORD
    | AUTH_FAILED

  function Min(x: int, y: int): int {
    if x <= y then x else y
  }

  function Max(x: int, y: int): int {
    if x >= y then x else y
  }
}
