/** A value or none: what the source returns as a pointer that may be NULL. */
module Wrappers {
  datatype Option<+T> = None | Some(value: T)
}
