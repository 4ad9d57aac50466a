/** The optional value the three programs signal with Python's None. */
module Wrappers {

  datatype Option<+T> = None | Some(value: T)
}
