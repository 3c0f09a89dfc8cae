/** The optional value used for partial parses and for guarded operations. */
module Wrappers {

  datatype Option<+T> = None | Some(value: T)
}
