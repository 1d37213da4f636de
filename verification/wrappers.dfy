/** The optional value used for the Go code's (value, error) and (value, ok) returns. */
module Wrappers {
  datatype Option<+T> = None | Some(value: T)
}
