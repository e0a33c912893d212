/** Small datatypes and functions that several components use. */
module Basics {

  datatype Option<T> = None | Some(value: T)

  function Max(a: nat, b: nat): nat {
    if a > b then a else b
  }

  function Least(a: nat, b: nat): nat {
    if a < b then a else b
  }
}
