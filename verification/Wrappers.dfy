// The optional value that find, get and the like return.
module Wrappers {
  datatype Option<+T> = None | Some(value: T)
}
