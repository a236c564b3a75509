/** Planar points with exact real coordinates.

    The game stores positions as SFML `Vector2f` (two `float`s). Here a
    coordinate is a `real`, so halving is exact: this is an abstraction of the
    single-precision arithmetic, not a model of its rounding.
 */
module Geometry {

  datatype Point = Point(x: real, y: real)

  function Abs(r: real): real {
    if r < 0.0 then -r else r
  }

  function Min(a: real, b: real): real {
    if a <= b then a else b
  }

  function Max(a: real, b: real): real {
    if a <= b then b else a
  }

  /** The point at integer window coordinates `(px, py)`, converted exactly,
      as the game converts a mouse event's pixel position. */
  function FromPixel(px: int, py: int): Point {
    Point(px as real, py as real)
  }

  /** The componentwise midpoint of `a` and `b`: it is equally far from both
      ends on each axis, lies between them, and is half as far from `b` as `a` is. */
  function Midpoint(a: Point, b: Point): (m: Point)
    ensures m.x - a.x == b.x - m.x && m.y - a.y == b.y - m.y
    ensures Min(a.x, b.x) <= m.x <= Max(a.x, b.x)
    ensures Min(a.y, b.y) <= m.y <= Max(a.y, b.y)
    ensures Abs(m.x - b.x) == Abs(a.x - b.x) / 2.0
    ensures Abs(m.y - b.y) == Abs(a.y - b.y) / 2.0
  {
    Point((a.x + b.x) / 2.0, (a.y + b.y) / 2.0)
  }

  /** `p` lies in the closed axis-aligned box with corners `lo` and `hi`. */
  predicate InBox(p: Point, lo: Point, hi: Point) {
    lo.x <= p.x <= hi.x && lo.y <= p.y <= hi.y
  }

  predicate AllInBox(ps: seq<Point>, lo: Point, hi: Point) {
    forall i :: 0 <= i < |ps| ==> InBox(ps[i], lo, hi)
  }
}
