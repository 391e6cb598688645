/** Small shared datatypes. */
module Basics {

  /** A value that may be absent: Python's `None` or an operation that raised. */
  datatype Option<+T> = None | Some(value: T)
}
