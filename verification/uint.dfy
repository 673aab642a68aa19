/** Unsigned machine integers and the saturating operations the source uses on them. */
module UInt {

  const TWO_TO_THE_64: int := 0x1_0000_0000_0000_0000

  /** `u64::max_value()`. */
  const UINT64_MAX: int := TWO_TO_THE_64 - 1

  type uint64 = x: int | 0 <= x < TWO_TO_THE_64

  /** `u64::saturating_sub`: the difference, clamped at zero instead of wrapping. */
  function SaturatingSub(a: uint64, b: uint64): (r: uint64)
    ensures r <= a
    ensures b <= a ==> r + b == a
    ensures a < b ==> r == 0
  {
    if b <= a then a - b else 0
  }
}
