/** Bytes, options and NUL-terminated strings. */
module Basics {
  type Byte = b: int | 0 <= b < 0x100

  datatype Option<+T> = None | Some(value: T)

  /** Where the first NUL from p on is; past the end if there is none. */
  function FirstZero(b: seq<Byte>, p: nat): (q: nat)
    requires p <= |b|
    ensures p <= q <= |b| && (q < |b| ==> b[q] == 0)
    ensures forall k | p <= k < q :: b[k] != 0
    decreases |b| - p
  {
    if p == |b| || b[p] == 0 then p else FirstZero(b, p + 1)
  }
}
