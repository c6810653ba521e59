/**
 The colour classification of the band detector: ten resistor colour codes,
 each an inclusive hue/saturation/value box (OpenCV `inRange` admits a pixel
 when every channel lies between the lower and the upper bound, both ends
 included). Red straddles the hue wrap-around, so its mask is the union of two
 boxes; the table's own red row is a placeholder the detector never consults.
 */
module Colours {

  /** Number of colour codes (`CODES`). */
  const Codes: int := 10

  /** A colour index, which is also the digit the colour encodes. */
  type ColourIndex = i: int | 0 <= i < Codes

  /** The index of red, the colour whose mask is built from two ranges. */
  const RedIndex: ColourIndex := 2

  /** One pixel of the HSV window (OpenCV 8-bit hue runs 0..180). */
  datatype Hsv = Hsv(h: int, s: int, v: int)

  /** An inclusive per-channel box `[lo, hi]`. */
  datatype Bounds = Bounds(lo: Hsv, hi: Hsv)

  /**
   `Core.inRange` on one pixel: every channel between its bounds. Only a
   non-empty box admits anything, and both corners of a non-empty box are
   admitted, so the test includes both ends.
   */
  function InRange(p: Hsv, b: Bounds): (r: bool)
    ensures r ==> b.lo.h <= b.hi.h && b.lo.s <= b.hi.s && b.lo.v <= b.hi.v
    ensures (p == b.lo || p == b.hi) ==> (r <==> b.lo.h <= b.hi.h && b.lo.s <= b.hi.s && b.lo.v <= b.hi.v)
  {
    && b.lo.h <= p.h <= b.hi.h
    && b.lo.s <= p.s <= b.hi.s
    && b.lo.v <= p.v <= b.hi.v
  }

  /** `COLOR_BOUNDS`, indexed by colour code. */
  const ColourBounds: seq<Bounds> := [
    Bounds(Hsv(0, 0, 0), Hsv(180, 250, 50)),       // black
    Bounds(Hsv(0, 31, 41), Hsv(25, 250, 99)),      // brown
    Bounds(Hsv(0, 0, 0), Hsv(0, 0, 0)),            // red: placeholder, see RedLow/RedHigh
    Bounds(Hsv(7, 150, 150), Hsv(18, 250, 250)),   // orange
    Bounds(Hsv(25, 130, 100), Hsv(34, 250, 160)),  // yellow
    Bounds(Hsv(35, 60, 60), Hsv(75, 250, 150)),    // green
    Bounds(Hsv(80, 50, 50), Hsv(106, 250, 150)),   // blue
    Bounds(Hsv(130, 60, 50), Hsv(165, 250, 150)),  // purple
    Bounds(Hsv(0, 0, 50), Hsv(180, 50, 80)),       // gray
    Bounds(Hsv(0, 0, 90), Hsv(180, 15, 140))       // white
  ]

  /** The low-hue red range (`LOWER_RED1`..`UPPER_RED1`). */
  const RedLow: Bounds := Bounds(Hsv(0, 65, 60), Hsv(8, 100, 100))

  /** The high-hue red range (`LOWER_RED2`..`UPPER_RED2`). */
  const RedHigh: Bounds := Bounds(Hsv(158, 65, 50), Hsv(180, 250, 150))

  /**
   The mask of colour `i` at pixel `p`: red ORs its two ranges, every other
   colour uses its table row. Every mask lies inside the 8-bit HSV cube
   (hue 0..180, saturation and value 0..250), and a red pixel has a hue at
   one end of the hue circle.
   */
  function InMask(i: ColourIndex, p: Hsv): (r: bool)
    ensures r ==> 0 <= p.h <= 180 && 0 <= p.s <= 250 && 0 <= p.v <= 250
    ensures r && i == RedIndex ==> p.h <= 8 || p.h >= 158
  {
    if i == RedIndex then InRange(p, RedLow) || InRange(p, RedHigh)
    else InRange(p, ColourBounds[i])
  }

  /**
   Both ends of every range are inside the mask (inRange is inclusive), and
   one step past the upper value bound is outside it.
   */
  lemma BoundsInclusive(i: ColourIndex)
    ensures i != RedIndex ==> InMask(i, ColourBounds[i].lo) && InMask(i, ColourBounds[i].hi)
    ensures i != RedIndex ==> !InMask(i, Hsv(ColourBounds[i].hi.h, ColourBounds[i].hi.s, ColourBounds[i].hi.v + 1))
    ensures i == RedIndex ==> InMask(i, RedLow.lo) && InMask(i, RedLow.hi) && InMask(i, RedHigh.lo) && InMask(i, RedHigh.hi)
  {
  }

  /** A pixel is red exactly when it lies in one of the two red boxes. */
  lemma RedMaskIff(p: Hsv)
    ensures InMask(RedIndex, p) <==>
      (0 <= p.h <= 8 && 65 <= p.s <= 100 && 60 <= p.v <= 100) ||
      (158 <= p.h <= 180 && 65 <= p.s <= 250 && 50 <= p.v <= 150)
  {
  }

  /** A hue strictly between the two red ranges is never red. */
  lemma NeverRedBetween(p: Hsv)
    requires 9 <= p.h <= 157
    ensures !InMask(RedIndex, p)
  {
  }

  /** The placeholder row admits black (0, 0, 0), yet the red mask does not. */
  lemma RedPlaceholderUnused()
    ensures InRange(Hsv(0, 0, 0), ColourBounds[RedIndex])
    ensures !InMask(RedIndex, Hsv(0, 0, 0))
  {
  }
}
