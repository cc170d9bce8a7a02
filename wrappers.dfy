/** Option and Result, the two shapes the solvers use for "maybe a value" and
    "a value or an error message". */
module Wrappers {

  datatype Option<+T> = None | Some(value: T)

  datatype Result<+T, +E> = Ok(value: T) | Err(error: E)

  /** `a` is a prefix of `b` (equal sequences included). */
  predicate IsPrefix<T(==)>(a: seq<T>, b: seq<T>)
  {
    |a| <= |b| && b[..|a|] == a
  }
}
