/** The optional value used for absent clipboard data and failed parses. */
module Wrappers {

  datatype Option<+T> = None | Some(value: T)
}
