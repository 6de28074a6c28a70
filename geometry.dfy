/**
 * Points and the rounding used by the sweep.
 *
 * Sites live on the integer grid (`IPoint`, the `Vector2Int` of the source);
 * event positions, edge origins, directions and end points are real pairs
 * (`RPoint`, the `Vector2` of the source).  Floating point is modelled by exact
 * reals.
 */
module Geometry {

  datatype IPoint = IPoint(x: int, y: int)

  datatype RPoint = RPoint(x: real, y: real)

  const Origin: RPoint := RPoint(0.0, 0.0)

  function ToReal(p: IPoint): (r: RPoint)
    ensures r.x == p.x as real && r.y == p.y as real
  {
    RPoint(p.x as real, p.y as real)
  }

  function Plus(a: RPoint, b: RPoint): RPoint
  {
    RPoint(a.x + b.x, a.y + b.y)
  }

  function Times(k: real, a: RPoint): RPoint
  {
    RPoint(k * a.x, k * a.y)
  }

  function Neg(a: RPoint): RPoint
  {
    RPoint(-a.x, -a.y)
  }

  function Abs(r: real): (a: real)
    ensures a >= 0.0 && (a == r || a == -r)
  {
    if r < 0.0 then -r else r
  }

  /** Nearest integer, halves going to the even neighbour (Mathf.RoundToInt). */
  function RoundToInt(r: real): (n: int)
    ensures r - 0.5 <= n as real <= r + 0.5
    ensures (n as real == r - 0.5 || n as real == r + 0.5) ==> n % 2 == 0
  {
    var f := r.Floor;
    var d := r - f as real;
    if d < 0.5 then f
    else if d > 0.5 then f + 1
    else if f % 2 == 0 then f
    else f + 1
  }

  /** The two properties in RoundToInt's contract determine its value. */
  lemma RoundToIntUnique(r: real, m: int)
    requires r - 0.5 <= m as real <= r + 0.5
    requires (m as real == r - 0.5 || m as real == r + 0.5) ==> m % 2 == 0
    ensures m == RoundToInt(r)
  {
  }

  lemma RoundToIntOfInt(k: int)
    ensures RoundToInt(k as real) == k
  {
    RoundToIntUnique(k as real, k);
  }

  /** Vector2Int.RoundToInt: componentwise rounding. */
  function RoundPoint(p: RPoint): (q: IPoint)
    ensures q.x == RoundToInt(p.x) && q.y == RoundToInt(p.y)
  {
    IPoint(RoundToInt(p.x), RoundToInt(p.y))
  }

  lemma RoundPointOfGrid(p: IPoint)
    ensures RoundPoint(ToReal(p)) == p
  {
    RoundToIntOfInt(p.x);
    RoundToIntOfInt(p.y);
  }
}
