/** The optional value used where the source passes a possibly empty pointer. */
module Wrappers {
  datatype Option<+T> = None | Some(value: T)
}
