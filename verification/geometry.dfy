/** Machine integers and screen rectangles. */
module Geometry {

  const U16_MAX: int := 0xffff
  const U32_MAX: int := 0xffff_ffff
  const I32_MIN: int := -0x8000_0000
  const I32_MAX: int := 0x7fff_ffff

  type u16 = n: int | 0 <= n <= U16_MAX
  type u32 = n: int | 0 <= n <= U32_MAX
  type i32 = n: int | I32_MIN <= n <= I32_MAX

  function Min(a: int, b: int): (m: int)
    ensures m <= a && m <= b && (m == a || m == b)
  {
    if a <= b then a else b
  }

  function Max(a: int, b: int): (m: int)
    ensures a <= m && b <= m && (m == a || m == b)
  {
    if a <= b then b else a
  }

  /** `saturating_sub` on unsigned integers. */
  function Minus(a: nat, b: nat): nat { if a <= b then 0 else a - b }

  /** `u32::saturating_mul` */
  function Times32(a: u32, b: u32): u32 { Min(a * b, U32_MAX) }

  /** `u32` addition in a build without overflow checks. */
  function Plus32(a: u32, b: u32): u32 { (a + b) % 0x1_0000_0000 }

  function Plus16(a: u16, b: u16): u16 { (a + b) % 0x1_0000 }

  /** A rectangle of screen cells. The screen library's constructor keeps both far edges within 16 bits. */
  datatype Rect = Rect(x: u16, y: u16, width: u16, height: u16)
  {
    predicate Fits() { x + width <= U16_MAX && y + height <= U16_MAX }

    /** The cell in column `cx` and row `cy` belongs to this rectangle. */
    predicate Contains(cx: int, cy: int) { x <= cx < x + width && y <= cy < y + height }

    predicate Empty() { width == 0 || height == 0 }
  }
}
