/** Boxes as the detectors produce them: corner coordinates, over the reals. */
module Geometry {

  datatype Box = Box(x1: real, y1: real, x2: real, y2: real)

  function Min(a: real, b: real): real { if a <= b then a else b }
  function Max(a: real, b: real): real { if a >= b then a else b }
  function Abs(a: real): real { if a < 0.0 then -a else a }

  predicate Inside(a: Box, b: Box) {
    b.x1 <= a.x1 && b.y1 <= a.y1 && a.x2 <= b.x2 && a.y2 <= b.y2
  }
}
