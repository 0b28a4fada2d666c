/** An optional result: None stands for a panic or for nothing found. */
module Wrappers {
  datatype Option<T> = None | Some(value: T)
}
