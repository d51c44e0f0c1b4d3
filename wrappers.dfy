/** The optional value used for a page fetch that may fail. */
module Wrappers {
  datatype Option<T> = None | Some(value: T)
}
