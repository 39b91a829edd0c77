/** Result types and machine integers shared by every module. */
module Outcomes {

  datatype Option<+T> = None | Some(value: T)

  datatype Result<+T, +E> = Success(value: T) | Failure(error: E)

  /** The FF-A status codes. */
  datatype ErrorCode =
    | Ok
    | NotSupported
    | InvalidParameters
    | NoMemory
    | Busy
    | Interrupted
    | Denied
    | Retry
    | Aborted
    | NoData
    | NotReady

  type U8 = x: nat | x < 0x100
  type U16 = x: nat | x < 0x1_0000
  type U32 = x: nat | x < 0x1_0000_0000
  type U64 = x: nat | x < 0x1_0000_0000_0000_0000
  type U128 = x: nat | x < 0x1_0000_0000_0000_0000_0000_0000_0000_0000
}
