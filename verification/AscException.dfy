// The error codes of the library and the two shapes a call that may throw returns.

module AscException {

  datatype Error =
    | DataTooLong
    | ChecksumProblem
    | InvalidFrame
    | InvalidFramePeriod
    | NotHexChar
    | CommandNotImplemented
    | UnexpectedCommand
    | DataTooShort
    | RegBlockNull
    | RegnumOob
    | RegvalLen
    | CbOob
    | CbPopEmpty
    | CbBadCapacity
  {
    /** The numeric code sent in error replies. */
    function Code(): bv8 {
      match this
      case DataTooLong => 0x10
      case ChecksumProblem => 0x11
      case InvalidFrame => 0x12
      case InvalidFramePeriod => 0x13
      case NotHexChar => 0x14
      case CommandNotImplemented => 0x15
      case UnexpectedCommand => 0x16
      case DataTooShort => 0x17
      case RegBlockNull => 0x20
      case RegnumOob => 0x21
      case RegvalLen => 0x22
      case CbOob => 0x30
      case CbPopEmpty => 0x31
      case CbBadCapacity => 0x32
    }
  }

  /** A call that returns a value or throws; `:-` propagates the throw, with the state left as it was at the throw. */
  datatype Result<+T> = Ok(value: T) | Throw(error: Error) {
    predicate IsFailure() {
      Throw?
    }

    function PropagateFailure(): Status
      requires Throw?
    {
      Threw(error)
    }

    function Extract(): T
      requires Ok?
    {
      value
    }
  }

  /** A call that returns nothing or throws. */
  datatype Status = Done | Threw(error: Error) {
    predicate IsFailure() {
      Threw?
    }

    function PropagateFailure(): Status
      requires Threw?
    {
      this
    }
  }

  datatype Option<+T> = None | Some(value: T)
}
