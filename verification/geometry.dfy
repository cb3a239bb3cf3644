/**
 * Integer geometry of System.Drawing: points, sizes and rectangles, and
 * C#'s truncating integer division.
 */
module Geometry {

  datatype Point = Point(x: int, y: int)

  datatype Size = Size(w: int, h: int)

  /** A System.Drawing.Rectangle: top-left corner, width and height. */
  datatype Rect = Rect(x: int, y: int, w: int, h: int)
  {
    function Location(): Point { Point(x, y) }

    function Dimensions(): Size { Size(w, h) }
  }

  /** `new Rectangle(-0x7FFF, -0x7FFF, 0, 0)`: the off-screen, zero-size bounds used to hide a surface. */
  const Hidden: Rect := Rect(-0x7FFF, -0x7FFF, 0, 0)

  /** `default(Rectangle)`. */
  const Empty: Rect := Rect(0, 0, 0, 0)

  function Min(a: int, b: int): int { if a <= b then a else b }

  function Max(a: int, b: int): int { if a >= b then a else b }

  function Abs(a: int): nat { if a < 0 then -a else a }

  /** C#'s `/` on `int`: the quotient is truncated toward zero. */
  function Div(a: int, b: int): (q: int)
    requires b > 0
    ensures a >= 0 ==> q * b <= a < q * b + b
    ensures a < 0 ==> q * b - b < a <= q * b
  {
    if a >= 0 then a / b else -((-a) / b)
  }

  /** Truncation is symmetric, unlike Dafny's Euclidean division. */
  lemma DivNegate(a: int, b: int)
    requires b > 0
    ensures Div(-a, b) == -Div(a, b)
  {
  }

  /** `Rectangle.Inflate(r, dx, dy)`: grows the rectangle by `dx` on the left and right and by `dy` on the top and bottom. */
  function Inflate(r: Rect, dx: int, dy: int): Rect
  {
    Rect(r.x - dx, r.y - dy, r.w + 2 * dx, r.h + 2 * dy)
  }

  /** Deflating by the same amounts undoes an inflation. */
  lemma InflateInverse(r: Rect, dx: int, dy: int)
    ensures Inflate(Inflate(r, dx, dy), -dx, -dy) == r
  {
  }

  /** Point-in-rectangle with every edge included. */
  predicate Contains(r: Rect, p: Point)
  {
    r.x <= p.x <= r.x + r.w && r.y <= p.y <= r.y + r.h
  }
}
