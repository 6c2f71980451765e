/** The optional value used where the Go code returns a nil pointer or a nil error. */
module Wrappers {

  datatype Option<+T> = None | Some(value: T)
}
