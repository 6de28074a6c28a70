/**
 * Bisector edges: their two constructors and `UpdateMembers`, which stores the
 * two sites and the start and derives the direction of the ray.
 */
module Edges {
  import opened Geometry
  import opened Nodes

  /**
   * The direction of the bisector from `s1` to `s2`: the vector from s1 to s2
   * turned by a right angle, (s2.y - s1.y, -(s2.x - s1.x)).  When the two
   * sites share y its x component would be 0; it is then set to 0.01 with the
   * sign of the y component.
   */
  function Direction(s1: IPoint, s2: IPoint): (d: RPoint)
    requires s1 != s2
    ensures d.y == -(s2.x - s1.x) as real
    ensures s1.y != s2.y ==> d.x == (s2.y - s1.y) as real
    ensures s1.y != s2.y ==> d.x * (s2.x - s1.x) as real + d.y * (s2.y - s1.y) as real == 0.0
    ensures s1.y == s2.y ==> d.x == (if d.y > 0.0 then 0.01 else -0.01)
    ensures d.x != 0.0
  {
    var raw := RPoint((s2.y - s1.y) as real, (-(s2.x - s1.x)) as real);
    RoundToIntOfInt(s2.y - s1.y);
    if RoundToInt(raw.x) == 0 then raw.(x := 0.01 * raw.y / Abs(raw.y)) else raw
  }

  /** Swapping the two sites reverses the direction: complements point opposite ways. */
  lemma DirectionSwap(s1: IPoint, s2: IPoint)
    requires s1 != s2
    ensures Direction(s2, s1) == Neg(Direction(s1, s2))
  {
    var d, e := Direction(s1, s2), Direction(s2, s1);
    if s1.y == s2.y {
      assert e.y == -d.y;
      assert d.y > 0.0 <==> e.y < 0.0;
    }
  }

  /**
   * UpdateMembers on edge `e`: stores both sites and the start, recomputes the
   * direction and forgets the complement.  Parent, children and end are kept.
   */
  function UpdateMembers(e: Node, s1: IPoint, s2: IPoint, start: RPoint): (r: Node)
    requires e.Edge? && s1 != s2
    ensures r.Edge? && r.firstSite == s1 && r.secondSite == s2 && r.start == start
    ensures r.direction == Direction(s1, s2) && r.complement == Nil
    ensures r.parent == e.parent && r.leftChild == e.leftChild && r.rightChild == e.rightChild
    ensures r.end == e.end
  {
    e.(firstSite := s1, secondSite := s2, start := start,
       direction := Direction(s1, s2), complement := Nil)
  }

  /** The fields of an edge object before its constructor body runs. */
  function Blank(parent: Ref): (r: Node)
    ensures r.Edge? && r.parent == parent
  {
    Edge(parent, IPoint(0, 0), IPoint(0, 0), Origin, Origin, Origin, Nil, Nil, Nil)
  }

  /** The four-argument constructor. */
  function NewEdge(s1: IPoint, s2: IPoint, start: RPoint, parent: Ref): (r: Node)
    requires s1 != s2
    ensures r.Edge? && r.parent == parent && r.leftChild == Nil && r.rightChild == Nil
    ensures r.firstSite == s1 && r.secondSite == s2 && r.start == start
    ensures r.direction == Direction(s1, s2) && r.complement == Nil && r.end == Origin
  {
    var e := UpdateMembers(Blank(parent), s1, s2, start);
    assert e.Edge?;
    e.(leftChild := Nil, rightChild := Nil)
  }

  /**
   * The five-argument constructor: as the four-argument one, with the computed
   * direction replaced by `dir`.  The overwritten direction is never observed,
   * so it is not computed here (it would divide by zero for coincident sites).
   */
  function NewEdgeDirected(s1: IPoint, s2: IPoint, start: RPoint, dir: RPoint, parent: Ref): (r: Node)
    ensures r.Edge? && r.parent == parent && r.leftChild == Nil && r.rightChild == Nil
    ensures r.firstSite == s1 && r.secondSite == s2 && r.start == start
    ensures r.direction == dir && r.complement == Nil && r.end == Origin
    ensures s1 != s2 ==> var e := NewEdge(s1, s2, start, parent); e.Edge? && r == e.(direction := dir)
  {
    Edge(parent, s1, s2, start, Origin, dir, Nil, Nil, Nil)
  }

  /** A complement built from the same sites swapped has the opposite direction. */
  lemma ComplementDirection(s1: IPoint, s2: IPoint, start: RPoint, p: Ref, q: Ref)
    requires s1 != s2
    ensures NewEdge(s2, s1, start, q).direction == Neg(NewEdge(s1, s2, start, p).direction)
  {
    DirectionSwap(s1, s2);
  }
}
