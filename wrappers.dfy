/** Failure-carrying results: a Java `null` becomes `None`, a thrown
    `IndexOutOfBoundsException` becomes `Err(IndexOutOfBounds)` / `Fail(IndexOutOfBounds)`. */
module Wrappers {

  datatype Option<+T> = None | Some(value: T)

  /** The only exception the modelled code throws on purpose. */
  datatype Error = IndexOutOfBounds

  datatype Result<+T> = Ok(value: T) | Err(error: Error)

  datatype Outcome = Pass | Fail(error: Error)
}
