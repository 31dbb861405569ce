/** The optional value used for files that may be absent and searches that may fail. */
module Wrappers {

  datatype Option<+T> = None | Some(value: T)
}
