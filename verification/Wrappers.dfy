/** A value that may be missing; `None` also stands for an exception of the source. */
module Wrappers {

  datatype Option<T> = None | Some(value: T)
}
