/** The optional-value datatype used for the error paths of the parsers. */
module Wrappers {
  datatype Option<+T> = None | Some(value: T)
}
