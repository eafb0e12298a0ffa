/** The conventional Some/None datatype, for C pointers that may be null and calls that may fail. */
module Wrappers {

  datatype Option<+T> = None | Some(value: T)
}
