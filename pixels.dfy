/** Pixels in raylib's 8-bit RGBA layout, and the saturation every stage uses. */
module Pixels {

  /** One unsigned 8-bit channel (`unsigned char`). */
  type Byte = x: int | 0 <= x <= 255

  /** raylib's `Color`: red, green, blue and alpha, each one byte. */
  datatype Color = Color(r: Byte, g: Byte, b: Byte, a: Byte)

  /** The raylib colour constants the mappers return. */
  const BLACK: Color := Color(0, 0, 0, 255)
  const WHITE: Color := Color(255, 255, 255, 255)
  const YELLOW: Color := Color(253, 249, 0, 255)
  const MAGENTA: Color := Color(255, 0, 255, 255)
  const CYAN: Color := Color(0, 255, 255, 255)

  /** `std::clamp(v, 0, 255)`: saturates instead of wrapping. */
  function Clamp(v: int): (c: Byte)
    ensures 0 <= v <= 255 ==> c == v
    ensures v < 0 ==> c == 0
    ensures 255 < v ==> c == 255
  {
    if v < 0 then 0 else if 255 < v then 255 else v
  }

  /** A pixel whose three colour channels agree. */
  predicate IsGray(c: Color)
  {
    c.r == c.g == c.b
  }
}
