/** The optional value used for Python's None. */
module Wrappers {

  datatype Option<+T> = None | Some(value: T)
}
