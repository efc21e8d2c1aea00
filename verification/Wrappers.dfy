/** What several modules share: values that may be missing, bounds, and regrouping of concatenations. */
module Wrappers {
  /** A nullable column, an absent setting, Python's None. */
  datatype Option<T> = None | Some(value: T)

  function Max(a: int, b: int): int {
    if a >= b then a else b
  }

  function Min(a: nat, b: nat): nat {
    if a <= b then a else b
  }

  lemma Assoc<T>(a: seq<T>, b: seq<T>, c: seq<T>)
    ensures a + (b + c) == a + b + c
  {
  }
}
