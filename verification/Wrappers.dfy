/** The optional value used wherever the program returns a null handle, an end iterator or npos. */
module Wrappers {
  datatype Option<+T> = None | Some(value: T)
}
