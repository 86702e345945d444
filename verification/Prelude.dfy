/** Values that several models share: options, machine words and filled sequences. */
module Prelude {

  datatype Option<+T> = None | Some(value: T)

  type u32 = x: int | 0 <= x < 0x1_0000_0000
  type u64 = x: int | 0 <= x < 0x1_0000_0000_0000_0000
  type s32 = x: int | -0x8000_0000 <= x < 0x8000_0000

  /** A `w`-valued unsigned number read as two's complement. */
  function ToSigned(u: nat, w: nat): (v: int)
    ensures v == u || v == u - w
    ensures u < w ==> 0 <= 2 * v + w && 2 * v < w
  {
    if 2 * u < w then u else u - w
  }

  /** `n` times `x`. */
  function Filled<T>(x: T, n: nat): (s: seq<T>)
    ensures |s| == n && forall k :: 0 <= k < n ==> s[k] == x
  {
    seq(n, _ => x)
  }
}
