/** The optional value used wherever the source returns None or raises for a missing value. */
module Wrappers {

  datatype Option<+T> = None | Some(value: T)
}
