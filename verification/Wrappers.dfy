/** An optional value, for the pointers that may be null. */
module Wrappers {
  datatype Option<+T> = None | Some(value: T)
}
