/** The optional value used wherever a foreign call may raise instead of answering. */
module Wrappers {

  datatype Option<+T> = None | Some(value: T)
}
