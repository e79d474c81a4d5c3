/** The optional value shared by the window modules. */
module Wrappers {
  datatype Option<T> = None | Some(value: T)
}
