/** The optional value used for XML elements and attributes that may be absent. */
module Wrappers {

  datatype Option<+T> = None | Some(value: T)
}
