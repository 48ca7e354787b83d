/** An optional value: the engine's "no piece on this square" and "no move". */
module Wrappers {
  datatype Option<+T> = None | Some(value: T)
}
