/** The optional value used for the script's "nothing found" outcomes. */
module Wrappers {

  datatype Option<+T> = None | Some(value: T)
}
