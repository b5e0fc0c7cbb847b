/**
 * Colours, luminance and the clamp helper of the whiteboard cleaner.
 *
 * Images hold 8-bit RGB samples. Luminance uses the BT.709 weights
 * 0.2126, 0.7152 and 0.0722; it is kept here as an exact integer scaled
 * by 10000, so that ordering and equality are decided without rounding.
 */
module Pixels {

  /** An 8-bit channel value, as stored in an RGB image array. */
  type Channel = x: int | 0 <= x <= 255

  const MaxChannel: int := 255

  /** 10000 times the luminance of pure white. */
  const MaxLum: nat := 2550000

  datatype Color = RGB(r: Channel, g: Channel, b: Channel)

  const White: Color := RGB(255, 255, 255)
  const Black: Color := RGB(0, 0, 0)

  /** Selects one channel of a colour. */
  datatype Chan = Red | Green | Blue

  function Get(c: Color, ch: Chan): Channel
  {
    match ch
    case Red => c.r
    case Green => c.g
    case Blue => c.b
  }

  /** Luminance of a colour, scaled by 10000 (the weights sum to 1). */
  function Lum(c: Color): (l: nat)
    ensures l <= MaxLum
    ensures l == 0 <==> c == Black
    ensures l == MaxLum <==> c == White
  {
    2126 * c.r + 7152 * c.g + 722 * c.b
  }

  /** A grey colour has the luminance of its channel value. */
  lemma LumGray(v: Channel)
    ensures Lum(RGB(v, v, v)) == 10000 * v
  {
  }

  /** Brightening any channel never lowers the luminance. */
  lemma LumMonotone(a: Color, b: Color)
    requires forall ch: Chan :: Get(a, ch) <= Get(b, ch)
    ensures Lum(a) <= Lum(b)
    ensures Lum(a) == Lum(b) <==> a == b
  {
    assert Get(a, Red) <= Get(b, Red);
    assert Get(a, Green) <= Get(b, Green);
    assert Get(a, Blue) <= Get(b, Blue);
  }

  /** Clamps a value from above to the channel maximum. */
  function Below255(v: int): (r: int)
    ensures r <= MaxChannel
    ensures v <= MaxChannel ==> r == v
    ensures v > MaxChannel ==> r == MaxChannel
  {
    if v > MaxChannel then MaxChannel else v
  }

  /** Clamping twice is clamping once, and clamping keeps order. */
  lemma Below255Idempotent(v: int, w: int)
    ensures Below255(Below255(v)) == Below255(v)
    ensures v <= w ==> Below255(v) <= Below255(w)
  {
  }
}
