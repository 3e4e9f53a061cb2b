/** The optional value used for absent props, missing lookups and failed parses. */
module Wrappers {

  datatype Option<+T> = None | Some(value: T)
}
