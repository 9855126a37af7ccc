/** Failure-carrying datatypes shared by the whole model. */
module Base {

  datatype Option<+T> = None | Some(value: T)

  datatype Unit = Unit

  /** The error classes of `DaemonError` that callers can tell apart. */
  datatype Error =
    | Conflict(expected: nat, actual: nat)
    | InvalidInput(message: string)
    | PreconditionRequired
    | Io(message: string)
    | Internal(message: string)

  datatype Result<+T> = Ok(value: T) | Err(error: Error)

  function UnwrapOr<T>(o: Option<T>, default: T): T
  {
    if o.Some? then o.value else default
  }

  const MAX_U64: nat := 0xFFFF_FFFF_FFFF_FFFF
  const MAX_U16: nat := 0xFFFF

  type U64 = n: nat | n <= MAX_U64 witness 0
  type U16 = n: nat | n <= MAX_U16 witness 0
}
