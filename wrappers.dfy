// Optional values, standing for references that may be NULL.
module Wrappers {
  datatype Option<T> = None | Some(value: T)
}
