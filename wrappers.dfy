/** The optional value used for a fallible decode. */
module Wrappers {

  datatype Option<+T> = None | Some(value: T)
}
