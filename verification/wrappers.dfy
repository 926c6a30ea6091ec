/** Failure-carrying datatypes shared by the age-calculator modules. */
module Wrappers {

  /** A value that may be missing: JavaScript's `NaN`, `undefined` or an
      invalid `Date` all become `None`. */
  datatype Option<+T> = None | Some(value: T)

  /** The outcome of a check that yields no value on success. */
  datatype Outcome<+E> = Pass | Fail(error: E)
}
