/** The optional value used where Go returns a value together with an error or a nil pointer. */
module Wrappers {

  datatype Option<+T> = None | Some(value: T)
}
