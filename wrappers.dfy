/** The optional value used for the edit target: `null` or the id of a user. */
module Wrappers {

  datatype Option<+T> = None | Some(value: T)
}
