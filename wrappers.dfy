/** A value that may be missing: Python's `None` return. */
module Wrappers {
  datatype Option<+T> = None | Some(value: T)
}
