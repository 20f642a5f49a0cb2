/** Option and Result types standing in for Python's `None` and for the
    exceptions the contact book raises. */
module Wrappers {

  datatype Option<+T> = None | Some(value: T)

  /** The exception kinds the contact book can raise. */
  datatype Error =
    /** A missing name, a bad phone length, an unparsable date, a phone
        not on the record, too few handler arguments, or `replace(year=...)`
        on a day the target year lacks (29 February). */
    | ValueError
    | KeyError       // deleting a name the book does not hold
    | OverflowError  // date arithmetic leaving the years 1..9999

  /** A value, or the exception that stopped the computation. */
  datatype Result<+T> = Ok(value: T) | Err(error: Error)
}
