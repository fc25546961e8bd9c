/** The optional value shared by the table decoder and the token replay. */
module Wrappers {
  datatype Option<T> = None | Some(value: T)
}
