/** The optional result used wherever the C++ code returns or holds a possibly-null pointer. */
module Wrappers {

  datatype Option<+T> = None | Some(value: T)
}
