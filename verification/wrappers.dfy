/** The optional value that a Python function produces when it may fall off its end and return None. */
module Wrappers {

  datatype Option<+T> = None | Some(value: T)
}
