/** Outcome types for the operations that raise in the original program. */
module Wrappers {

  /** The exception kinds the modelled code raises. */
  datatype Error =
    | ValueError(msg: string)   // explicit `raise ValueError(...)` and a failing `int(...)`
    | KeyError                  // a missing dictionary key
    | IndexError                // a list index past the end

  datatype Option<+T> = None | Some(value: T)

  /** A computation that either returns a value or raises. */
  datatype Result<+T> = Success(value: T) | Failure(error: Error)
}
