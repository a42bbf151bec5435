/** Python's `None` as a value: an optional value. */
module Wrappers {
  datatype Option<+T> = None | Some(value: T)
}
