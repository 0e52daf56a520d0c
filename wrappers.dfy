/** The optional value used for Go's "value or nil" and "error or nil" returns. */
module Wrappers {
  datatype Option<+T> = None | Some(value: T)
}
