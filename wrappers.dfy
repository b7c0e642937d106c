/** The optional value that `next()` returns: an element, or nothing once the base is exhausted. */
module Wrappers {

  datatype Option<+T> = None | Some(value: T)
}
