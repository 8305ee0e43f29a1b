/** The containers signal "no element" with a NULL pointer; the model uses an Option. */
module Wrappers {
  datatype Option<T> = None | Some(value: T)
}
