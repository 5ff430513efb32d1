/** What several modules share: optional values, minima and the range of 32-bit numbers. */
module Basics {

  datatype Option<T> = None | Some(value: T)

  /** One more than the largest 32-bit unsigned number. */
  const U32: nat := 0x1_0000_0000

  function Min(a: nat, b: nat): nat
  {
    if a < b then a else b
  }
}
