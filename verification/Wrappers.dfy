/** Options, used where the original leaves through its error exit, and lists. */
module Wrappers {
  datatype Option<+T> = None | Some(value: T)

  datatype List<+T> = Nil | Cons(head: T, tail: List<T>)
}
