/** The optional value used for lookups and for the parsed request id. */
module Wrappers {

  datatype Option<+T> = None | Some(value: T)
}
