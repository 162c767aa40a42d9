/**
 What the other modules share.
 */
module Wrappers {

  // A result that may be missing.
  datatype Option<+T> = None | Some(value: T)

  function Min(a: nat, b: nat): nat {
    if a <= b then a else b
  }
}
