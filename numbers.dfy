/** The element operations the matrix kernel needs from its scalar type, over exact reals. */
module Numbers {

  /** Absolute value as the 64-bit element type defines it: self when positive, its negation otherwise. */
  function Abs(x: real): (a: real)
    ensures a >= 0.0
    ensures a == x || a == -x
    ensures a >= x && a >= -x
  {
    if x > 0.0 then x else -x
  }
}
