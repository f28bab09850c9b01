/** The optional value used for every Python call that can raise: `None` is the exception. */
module Wrappers {

  datatype Option<+T> = None | Some(value: T)
}
