/** The optional value used for Python's `None` and for a failed extraction. */
module Wrappers {

  datatype Option<+T> = None | Some(value: T)
}
