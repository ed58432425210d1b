/** Values that may be missing, and concatenation. */
module Wrappers {
  /** What stands for NULL pointers, exceptions and error returns. */
  datatype Option<T> = None | Some(value: T)

  lemma Regroup<T>(a: seq<T>, b: seq<T>, c: seq<T>)
    ensures a + (b + c) == (a + b) + c
  {
  }
}
