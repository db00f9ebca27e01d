/** An optional value: a missing field, a key that may be absent. */
module Wrappers {
  datatype Option<+T> = None | Some(value: T)
}
