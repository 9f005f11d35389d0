// An optional value, shared by all the modules.
module Wrappers {
  datatype Option<+T> = None | Some(value: T)
}
