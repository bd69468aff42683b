/** The runtime errors the two scripts raise, and a result type carrying them. */
module Outcomes {

  /** The exceptions the scripts let escape to the caller. */
  datatype Error =
    | IndexError                  // `sequences[0]` on an empty list, or a sequence shorter than the first
    | KeyError(key: string)       // a lookup of a record name the table does not hold
    | ZeroDivisionError           // a percentage over a denominator of zero

  datatype Result<T> = Ok(value: T) | Err(error: Error)
}
