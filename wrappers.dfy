/** The optional value used wherever a Python function may return None. */
module Wrappers {

  datatype Option<+T> = None | Some(value: T)
}
