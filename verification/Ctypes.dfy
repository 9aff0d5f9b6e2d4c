/** C integer widths, result codes and other basics shared by the models. */
module Ctypes {
  const TWO_TO_32: int := 0x1_0000_0000
  const TWO_TO_64: int := 0x1_0000_0000_0000_0000

  type byte = x: int | 0 <= x < 256
  type uint32 = x: int | 0 <= x < TWO_TO_32
  type uint64 = x: int | 0 <= x < TWO_TO_64

  const FAIL: int := -1

  datatype Option<T> = None | Some(value: T)

  function Max(a: int, b: int): int {
    if a >= b then a else b
  }

  function Min(a: int, b: int): int {
    if a <= b then a else b
  }

  /** True. A definition of the form "forall i :: i == n && Unfolded(i) ==> ..." is a name to all proofs but those
      that mention Unfolded(n). */
  ghost predicate Unfolded(n: nat) {
    true
  }

  lemma MulOrder(d: int, x: int, y: int)
    ensures d >= 0 && x >= y ==> d * x >= d * y
    ensures d >= 0 && x <= y ==> d * x <= d * y
  {
  }
}
