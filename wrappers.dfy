/** The optional value returned by lookups and by the line parser. */
module Wrappers {

  datatype Option<+T> = None | Some(value: T)
}
