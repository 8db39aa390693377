/** The optional value used for absent dictionary fields, failed parses and failed matches. */
module Wrappers {

  datatype Option<+T> = None | Some(value: T)
}
