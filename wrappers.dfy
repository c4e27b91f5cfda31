/** Option type used by the parsers. */
module Wrappers {

  datatype Option<+T> = None | Some(value: T)
}
