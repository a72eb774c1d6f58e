/** Error codes and the option/result types shared by every part of the transport. */
module Outcomes {

  datatype Option<+T> = None | Some(value: T)

  datatype ErrorCode =
    | VersionMismatch
    | MalformedFrame
    | ChecksumFailed
    | UnsupportedMessageType
    | UnsupportedExtension
    | ReplayUnavailable
    | ReplayRangeInvalid
    | FrameTooLarge
    | Backpressure

  /** The detail strings of the original errors are dropped; the codes are kept. */
  datatype RtdpError =
    | Protocol(code: ErrorCode)
    | UnrecoverableGap(from: nat, to: nat)
    | Io

  datatype Result<+T> = Ok(value: T) | Err(error: RtdpError) {
    predicate IsFailure() { Err? }

    function PropagateFailure<U>(): Result<U>
      requires Err?
    {
      Err(error)
    }

    function Extract(): T
      requires Ok?
    {
      value
    }
  }

  function Malformed(): RtdpError { Protocol(MalformedFrame) }
}
