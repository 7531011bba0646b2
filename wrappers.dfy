/** The optional value used for "no previous move" and parse failures. */
module Wrappers {
  datatype Option<T> = None | Some(value: T)
}
