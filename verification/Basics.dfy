/** What several components share. */
module Basics {

  datatype Option<T> = None | Some(value: T)

  const U32: nat := 0x1_0000_0000

  function Pow2(n: nat): (p: nat)
    ensures p > 0
  {
    if n == 0 then 1 else 2 * Pow2(n - 1)
  }
}
