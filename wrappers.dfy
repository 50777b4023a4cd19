/** An optional value, for lookups that may miss and for arguments that may
    be absent. */
module Wrappers {
  datatype Option<T> = None | Some(value: T)
}
