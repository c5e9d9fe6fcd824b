/** Optional values, standing for JavaScript's `undefined`, and object properties as they are read. */
module Wrappers {
  datatype Option<T> = None | Some(value: T)

  /** A property of an object: missing (`undefined`), a number, or a value of another type. */
  datatype Field = Unset | Numeric(value: int) | NonNumeric
}
