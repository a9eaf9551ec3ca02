/** A value that may be absent: `null` in the original component. */
module Wrappers {
  datatype Option<+T> = None | Some(value: T)
}
