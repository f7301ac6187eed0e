/** An optional value, shared by the parsers and the isolation search. */
module Wrappers {
  datatype Option<T> = None | Some(value: T)
}
