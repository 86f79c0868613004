/** The optional value used wherever the source returns a value together with a
    "present" flag or a nil-able error. */
module Wrappers {
  datatype Option<+T> = None | Some(value: T)
}
