/** The optional value used for nullable columns and "no next booking". */
module Wrappers {
  datatype Option<+T> = None | Some(value: T)
}
