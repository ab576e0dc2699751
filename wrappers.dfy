/** The optional value used for parse outcomes that may fail. */
module Wrappers {

  datatype Option<+T> = None | Some(value: T)
}
