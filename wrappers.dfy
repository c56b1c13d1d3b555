/** The optional value used for the outcomes of library and system calls. */
module Wrappers {

  datatype Option<+T> = None | Some(value: T)
}
