/** The optional-value datatype used for host calls and the class-file parser
    that may fail. */
module Wrappers {

  datatype Option<+T> = None | Some(value: T)
}
