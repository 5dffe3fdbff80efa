/** The optional value that Python writes as `None` or a plain value. */
module Wrappers {

  datatype Option<+T> = None | Some(value: T)
}
