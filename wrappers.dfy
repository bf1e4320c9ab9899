/** A value that may be absent: JavaScript's `null` / `undefined` where the source allows them. */
module Wrappers {
  datatype Option<+T> = None | Some(value: T)
}
