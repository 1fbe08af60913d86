/** The optional value used wherever the game stores `null` or a missing object. */
module Wrappers {

  datatype Option<+T> = None | Some(value: T)
}
