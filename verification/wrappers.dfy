/** The optional-value datatype used wherever the source returns `None`, and
    the smaller of two naturals, used for slices and short reads. */
module Wrappers {
  datatype Option<+T> = None | Some(value: T)

  function Min(a: nat, b: nat): nat
  {
    if a <= b then a else b
  }
}
