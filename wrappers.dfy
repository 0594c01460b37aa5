/** Python's "a value or None", as an option type. */
module Wrappers {

  datatype Option<+T> = None | Some(value: T)
}
