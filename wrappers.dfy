/**
 * Small shared helpers: optional values (Python's `None` versus a present
 * value) and the larger of two integers.
 */
module Wrappers {

  datatype Option<+T> = None | Some(value: T)

  /** The larger of `a` and `b`. */
  function Max(a: int, b: int): (m: int)
    ensures m >= a && m >= b
    ensures m == a || m == b
  {
    if a < b then b else a
  }
}
