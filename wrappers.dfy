/** The optional value used for "no card" (a null element reference in the game). */
module Wrappers {

  datatype Option<T> = None | Some(value: T)
}
