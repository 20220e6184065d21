/** The optional value used for the nullable strings of a parsed message and for parsers. */
module Wrappers {

  datatype Option<+T> = None | Some(value: T)
}
