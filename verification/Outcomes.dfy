/** Typed collection outcomes: a value, an expected unavailability, or an internal defect. */
module Outcomes {
  import opened Text

  /** An error value, seen only through the sentinels the service asks about with `errors.Is`. */
  datatype Failure = Failure(permission: bool, missing: bool, tooManyLinks: bool)

  /** What reading a platform source gives. */
  datatype Read<+T> = Got(value: T) | ReadError(err: Failure)

  const UNSUPPORTED: byte := 1
  const PERMISSION_DENIED: byte := 2
  const TEMPORARILY_UNAVAILABLE: byte := 3

  const STATE_UNAVAILABLE: byte := 2
  const STATE_DEFECT: byte := 3

  /** The outcome record. `Present` is the record in the present state, the only one whose value is ever read;
      `Absent` is a record with any other state byte. Both can carry any metadata. */
  datatype Outcome<+T> =
    | Present(value: T, reason: byte, cause: Option<Failure>)
    | Absent(state: byte, reason: byte, cause: Option<Failure>)

  const OTHER_FAILURE := Failure(false, false, false)

  function Good<T>(value: T): Outcome<T> {
    Present(value, 0, None)
  }

  function Defect<T>(cause: Option<Failure>): Outcome<T> {
    Absent(STATE_DEFECT, 0, if cause.None? then Some(OTHER_FAILURE) else cause)
  }

  predicate IsReason(reason: byte) {
    UNSUPPORTED <= reason <= TEMPORARILY_UNAVAILABLE
  }

  function Unavailable<T>(reason: byte, cause: Option<Failure>): Outcome<T> {
    if !IsReason(reason) || cause.None? then Defect(Some(OTHER_FAILURE))
    else Absent(STATE_UNAVAILABLE, reason, cause)
  }

  function Temporary<T>(): Outcome<T> {
    Unavailable(TEMPORARILY_UNAVAILABLE, Some(OTHER_FAILURE))
  }

  function AcquisitionFailure<T>(err: Option<Failure>, missing: byte): Outcome<T> {
    if err.None? then Defect(Some(OTHER_FAILURE))
    else if err.value.permission then Unavailable(PERMISSION_DENIED, err)
    else if err.value.missing then Unavailable(missing, err)
    else Unavailable(TEMPORARILY_UNAVAILABLE, err)
  }

  /** The check every collector outcome must pass before it may contribute to a snapshot. */
  predicate ValidOutcome<T>(o: Outcome<T>) {
    match o
    case Present(_, reason, cause) => reason == 0 && cause.None?
    case Absent(state, reason, cause) => state == STATE_UNAVAILABLE && IsReason(reason) && cause.Some?
  }
}
