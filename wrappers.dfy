/** The optional value used for nullable columns, the session slot and lookups. */
module Wrappers {

  datatype Option<T> = None | Some(value: T)
}
