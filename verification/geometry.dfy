/** The two value types of the crop editor, in image-pixel space. */
module Geometry {

  /** A crop square: `(x, y)` is its top-left corner relative to the image's origin. */
  datatype Square = Square(x: real, y: real, side: real)

  /** A cursor position captured while a drag is in progress. */
  datatype Coordinate = Coordinate(x: real, y: real)

  /**
   * An axis-aligned rectangle traced as a closed path from its starting
   * corner `(left, top)` across `width` and down `height`; either may be
   * negative, and the path then runs the other way.
   */
  datatype Rect = Rect(left: real, top: real, width: real, height: real)

  function MinReal(a: real, b: real): real {
    if a <= b then a else b
  }

  function MaxReal(a: real, b: real): real {
    if a <= b then b else a
  }

  /**
   * `p` lies strictly inside the outline of `r`, whichever way it is traced
   * (points on the outline belong to neither side of an even-odd fill).
   */
  predicate StrictlyInside(r: Rect, p: Coordinate) {
    && MinReal(r.left, r.left + r.width) < p.x < MaxReal(r.left, r.left + r.width)
    && MinReal(r.top, r.top + r.height) < p.y < MaxReal(r.top, r.top + r.height)
  }
}
