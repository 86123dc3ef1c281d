/** Values that may be absent: nullable columns and optional JSON fields. */
module Wrappers {
  datatype Option<+T> = None | Some(value: T)
}
