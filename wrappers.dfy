/** The optional value that the buffer's accessors return. */
module Wrappers {
  datatype Option<+T> = None | Some(value: T)
}
