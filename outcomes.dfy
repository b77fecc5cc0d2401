/** Failure-carrying values used where the engine returns "nothing" or throws. */
module Outcomes {

  /** A value that may be absent: the engine's `null` for value types. */
  datatype Option<+T> = None | Some(value: T)

  /** A computation that either yields a value or raises the named exception. */
  datatype Result<+T> = Ok(value: T) | Error(message: string)
}
