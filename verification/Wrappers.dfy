/** The optional result the other modules use where the library returns NULL or false. */
module Wrappers {
  datatype Option<+T> = None | Some(value: T)
}
