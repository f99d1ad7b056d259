/** The optional value used for partial operations such as integer parsing. */
module Wrappers {
  datatype Option<+T> = None | Some(value: T)
}
