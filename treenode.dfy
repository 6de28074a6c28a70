/**
 * The records of the beach line.
 *
 * The source keeps the beach line as heap objects: an abstract tree node with a
 * parent link, specialised into a parabola (an arc, always a leaf) and an edge
 * (a bisector, always an inner node).  Here every node is a record in an arena
 * (a sequence owned by `Beach.Arena`), and every pointer is an index into that
 * arena.  `Nil` plays the role of `null`.
 */
module Nodes {
  import opened Geometry

  /** A possibly null link to a node of the arena. */
  datatype Ref = Nil | At(idx: nat)

  /** A possibly null link to an event; events are identified by their id. */
  datatype EventRef = NoEvent | EventId(id: nat)

  datatype Node =
    /** A parabola: its focus, its pending circle event and its cached neighbours. */
    | Arc(parent: Ref, focus: IPoint, intersecEvent: EventRef,
          leftEdge: Ref, rightEdge: Ref, leftArc: Ref, rightArc: Ref)
    /** A bisector: its two sites, its ray (start, direction), its end point,
        its complement and its two children. */
    | Edge(parent: Ref, firstSite: IPoint, secondSite: IPoint,
           start: RPoint, end: RPoint, direction: RPoint,
           complement: Ref, leftChild: Ref, rightChild: Ref)

  /** The parabola constructor: a fresh arc with no event and no neighbours. */
  function NewArc(focus: IPoint, parent: Ref): (a: Node)
    ensures a.Arc? && a.focus == focus && a.parent == parent
    ensures a.intersecEvent == NoEvent
    ensures a.leftEdge == Nil && a.rightEdge == Nil && a.leftArc == Nil && a.rightArc == Nil
  {
    Arc(parent, focus, NoEvent, Nil, Nil, Nil, Nil)
  }

  /**
   * The floating-point geometry the combinatorial skeleton consults, left
   * uninterpreted:
   *  - currentEndX(e, y): the x of edge e's current end when the sweep line is at y
   *    (GetCurrentEnd, a quadratic solved with a square root);
   *  - rayParameters(l, r): the parameters along l's and r's rays at which they
   *    meet (the linear solve inside CheckForIntersection);
   *  - distance(p, f): the Euclidean distance from p to the site f (a square root);
   *  - untilBorder(start, dir): where the ray leaves the clipped working area
   *    (EdgeUntilBorder, which relies on IEEE infinities);
   *  - levelY(focus, site): what GetYOfIntersection returns when the site is
   *    level with the focus, where the source divides by zero and obtains an
   *    IEEE infinity or NaN.
   */
  datatype Numerics = Numerics(
    currentEndX: (Node, real) -> real,
    rayParameters: (Node, Node) -> (real, real),
    distance: (RPoint, IPoint) -> real,
    untilBorder: (RPoint, RPoint) -> RPoint,
    levelY: (IPoint, IPoint) -> real)
}
