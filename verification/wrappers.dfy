/** A value that may be absent: a nullable field, a missing dictionary key. */
module Wrappers {
  datatype Option<+T> = None | Some(value: T)
}
