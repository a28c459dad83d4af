// A value that may be missing: BFS's "returns nothing", and a recursion that
// did not finish.
module Wrappers {
  datatype Option<T> = None | Some(value: T)
}
