/** The optional value used for "no byte available", "no match" and parse failures. */
module Wrappers {
  datatype Option<+T> = None | Some(value: T)
}
