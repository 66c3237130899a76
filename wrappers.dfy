/** The usual optional-value datatype, shared by the models of both scripts. */
module Wrappers {

  datatype Option<+T> = None | Some(value: T)
}
