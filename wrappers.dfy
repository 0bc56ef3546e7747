/** Small failure-carrying datatypes shared by the other modules. */
module Wrappers {

  /** A value that may be missing: Python's `None` or a value. */
  datatype Option<+T> = None | Some(value: T)

  /** How a Python call ends: it returns a value, or an exception propagates out of it. */
  datatype Outcome<+T, +E> = Returned(value: T) | Raised(error: E)

  /** Python's truth value of an optional string: `None` and `""` are false. */
  predicate Truthy(s: Option<string>)
  {
    s.Some? && s.value != ""
  }
}
