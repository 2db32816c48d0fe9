/** Option, for the source's `None` returns and the failures it raises. */
module Wrappers {

  datatype Option<+T> = None | Some(value: T)
}
