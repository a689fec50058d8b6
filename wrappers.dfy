/** Option, Result and Outcome values for the ledger's error paths. */
module Wrappers {

  datatype Option<+T> = None | Some(value: T)

  /** The value of an operation that returns or raises. */
  datatype Result<+T, +E> = Ok(value: T) | Err(error: E)

  /** The value of a check that either passes or raises. */
  datatype Outcome<+E> = Pass | Fail(error: E)
}
