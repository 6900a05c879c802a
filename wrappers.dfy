/** The optional value of a JSON field that may be missing. */
module Wrappers {
  datatype Option<+T> = None | Some(value: T)
}
