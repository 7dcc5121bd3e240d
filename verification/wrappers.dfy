/** A value that may be absent, as returned by lookups that can fail. */
module Wrappers {

  datatype Option<T> = None | Some(value: T)
}
