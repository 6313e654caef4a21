/** A value that may be absent: a null pointer, an end iterator, or an outcome the code leaves undefined. */
module Wrappers {
  datatype Option<+T> = None | Some(value: T)
}
