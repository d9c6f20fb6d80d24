/** Option and Result, shared by every component. */
module Wrappers {
  datatype Option<+T> = None | Some(value: T)

  datatype Result<+T, +E> = Ok(value: T) | Err(error: E)

  /** The `io::ErrorKind`s the modelled code distinguishes. */
  datatype ErrorKind =
    | UnexpectedEof
    | InvalidData
    | InvalidInput
    | Unsupported
    | TimedOut
    | BrokenPipe
    | WriteZero
    | AddrNotAvailable
    | PermissionDenied
    | Other
}
