/** The optional value that stands in for Python's `Optional[...]`. */
module Wrappers {

  datatype Option<+T> = None | Some(value: T)
}
