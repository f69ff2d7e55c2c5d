/** The optional value used for every attribute that may be absent. */
module Wrappers {

  datatype Option<+T> = None | Some(value: T)
}
