/** The optional value that the parsers and lookups of this project return. */
module Wrappers {

  datatype Option<+T> = None | Some(value: T)
}
