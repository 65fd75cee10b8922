/** The optional value returned by lookups. */
module Wrappers {
  datatype Option<T> = None | Some(value: T)
}
