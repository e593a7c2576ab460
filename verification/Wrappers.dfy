/** Optional values and results, for the nil pointers and error returns of the services, and what becomes
of a call to another system. */
module Wrappers {
  datatype Option<+T> = None | Some(value: T)

  datatype Result<+T, +E> = Ok(value: T) | Err(error: E)

  /** What a remote call did and whether the caller learned of it. */
  datatype CallOutcome = Acknowledged | AppliedUnacknowledged | NotApplied
}
