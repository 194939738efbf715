/** Values that may be absent: SQL nulls, missing keys, reported errors. */
module Wrappers {
  datatype Option<+T> = None | Some(value: T)
}
