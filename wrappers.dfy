/** The optional-value datatype used for Go's nil maps, nil functions and (ok, value) returns. */
module Wrappers {
  datatype Option<+T> = None | Some(value: T)
}
