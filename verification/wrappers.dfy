/** The optional value used for `number | null` and for map lookups that may be undefined. */
module Wrappers {
  datatype Option<+T> = None | Some(value: T)
}
