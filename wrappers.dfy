/** A value that may be absent: a file that does not exist, or a prompt that
    got no line because the input ended. */
module Wrappers {
  datatype Option<T> = None | Some(value: T)
}
