/** The optional value used where the source accepts `None` or a value of the wrong type. */
module Wrappers {

  datatype Option<+T> = None | Some(value: T)
}
