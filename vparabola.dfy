/**
 * The beach-line operations of a parabola: splitting it under a new site,
 * finding its neighbours, testing its two bounding edges for a circle event,
 * and removing it when that event is handled.
 *
 * All nodes live in one `Arena`; `x` below is always the arena index of the
 * parabola the source method is called on.
 */
module Beach {
  import opened Geometry
  import opened Nodes
  import opened Edges
  import opened Shapes
  import opened Paths

  /**
   * GetYOfIntersection: the y of the point straight above the new site's x
   * that is as far from the focus as from the sweep line through the site.
   * With focus.y == site.y the source divides by zero; what it then returns
   * is the oracle `geo.levelY`.
   */
  function YOfIntersection(focus: IPoint, site: IPoint, geo: Numerics): (iy: real)
    ensures focus.y != site.y ==>
      var dx, fy, sy := (focus.x - site.x) as real, focus.y as real, site.y as real;
      dx * dx + (fy - iy) * (fy - iy) == (iy - sy) * (iy - sy)
    ensures focus.y == site.y ==> iy == geo.levelY(focus, site)
  {
    if focus.y == site.y then geo.levelY(focus, site)
    else
      var dx, fy, sy := (focus.x - site.x) as real, focus.y as real, site.y as real;
      var iy := (dx * dx + fy * fy - sy * sy) / (2.0 * (fy - sy));
      assert iy * (2.0 * (fy - sy)) == dx * dx + fy * fy - sy * sy;
      iy
  }

  /** Away from the level case the equidistance condition has no other solution. */
  lemma YOfIntersectionUnique(focus: IPoint, site: IPoint, geo: Numerics, y: real)
    requires focus.y != site.y
    requires var dx, fy, sy := (focus.x - site.x) as real, focus.y as real, site.y as real;
      dx * dx + (fy - y) * (fy - y) == (y - sy) * (y - sy)
    ensures y == YOfIntersection(focus, site, geo)
  {
    var dx, fy, sy := (focus.x - site.x) as real, focus.y as real, site.y as real;
    var iy := YOfIntersection(focus, site, geo);
    assert y * (2.0 * (fy - sy)) == dx * dx + fy * fy - sy * sy;
    assert iy * (2.0 * (fy - sy)) == dx * dx + fy * fy - sy * sy;
  }

  /** The parent link of `x` is null or leads to an edge of the arena. */
  predicate ParentOk(nodes: seq<Node>, x: nat)
    requires x < |nodes|
  {
    nodes[x].parent == Nil || (nodes[x].parent.idx < |nodes| && nodes[nodes[x].parent.idx].Edge?)
  }

  /** Edge `e` with its child link to `x` redirected to `y` (the right one when the left is not `x`). */
  function Relink(e: Node, x: nat, y: nat): (r: Node)
    requires e.Edge?
    ensures SlotSwapped(e, r, x, y)
    ensures r.complement == e.complement && r.start == e.start && r.end == e.end
    ensures r.firstSite == e.firstSite && r.secondSite == e.secondSite && r.direction == e.direction
  {
    if e.leftChild == At(x) then e.(leftChild := At(y)) else e.(rightChild := At(y))
  }

  /** The sites of the outer edge: the higher of the two first, the new site on a tie. */
  function SplitSites(focus: IPoint, site: IPoint): (s: (IPoint, IPoint))
    ensures {s.0, s.1} == {focus, site}
    ensures s.0.y >= s.1.y
    ensures focus != site ==> (s.0 == focus <==> focus.y > site.y)
  {
    if focus.y > site.y then (focus, site) else (site, focus)
  }

  /**
   * The arena after ReplaceWithNewNodes on arc `x`: five nodes appended at
   * n = |nodes| (outer edge n, left part n + 1, inner edge n + 2, new arc
   * n + 3, right part n + 4) and the parent's slot of `x` pointing at n.
   */
  function Split(nodes: seq<Node>, x: nat, y: real, site: IPoint): (r: seq<Node>)
    requires x < |nodes| && nodes[x].Arc? && nodes[x].focus != site && ParentOk(nodes, x)
    ensures |r| == |nodes| + 5
    ensures var n := |nodes|;
      r[n].Edge? && r[n + 2].Edge? &&
      r[n].complement == At(n + 2) && r[n + 2].complement == At(n) &&
      r[n + 2].firstSite == r[n].secondSite && r[n + 2].secondSite == r[n].firstSite &&
      r[n].start == r[n + 2].start == RPoint(site.x as real, y) &&
      r[n + 2].direction == Neg(r[n].direction)
    ensures var n := |nodes|;
      r[n].parent == nodes[x].parent && r[n].leftChild == At(n + 1) && r[n].rightChild == At(n + 2) &&
      r[n + 1] == NewArc(nodes[x].focus, At(n)) &&
      r[n + 2].parent == At(n) && r[n + 2].leftChild == At(n + 3) && r[n + 2].rightChild == At(n + 4) &&
      r[n + 3] == NewArc(site, At(n + 2)) && r[n + 4] == NewArc(nodes[x].focus, At(n + 2))
    ensures forall i :: 0 <= i < |nodes| && At(i) != nodes[x].parent ==> r[i] == nodes[i]
    ensures nodes[x].parent.At? ==> r[nodes[x].parent.idx] == Relink(nodes[nodes[x].parent.idx], x, |nodes|)
    ensures ComplementsKept(nodes, r)
  {
    var a, n := nodes[x], |nodes|;
    var (s1, s2) := SplitSites(a.focus, site);
    var start := RPoint(site.x as real, y);
    var outer := NewEdge(s1, s2, start, a.parent);
    var inner := NewEdge(s2, s1, start, At(n));
    ComplementDirection(s1, s2, start, a.parent, At(n));
    var linked := if a.parent == Nil then nodes else nodes[a.parent.idx := Relink(nodes[a.parent.idx], x, n)];
    assert |linked| == n;
    linked + [outer.(leftChild := At(n + 1), rightChild := At(n + 2), complement := At(n + 2)),
              NewArc(a.focus, At(n)),
              inner.(leftChild := At(n + 3), rightChild := At(n + 4), complement := At(n)),
              NewArc(site, At(n + 2)),
              NewArc(a.focus, At(n + 2))]
  }

  /** The subtree that takes the split arc's place. */
  function SplitShape(n: nat): Shape
  {
    Fork(n, Leaf(n + 1), Fork(n + 2, Leaf(n + 3), Leaf(n + 4)))
  }

  /** The focus of every arc on a stretch of the beach line. */
  function Foci(nodes: seq<Node>, L: seq<nat>): (f: seq<IPoint>)
    requires forall k :: 0 <= k < |L| ==> L[k] < |nodes| && nodes[L[k]].Arc?
    ensures |f| == |L| && forall k :: 0 <= k < |L| ==> f[k] == nodes[L[k]].focus
  {
    seq(|L|, k requires 0 <= k < |L| => nodes[L[k]].focus)
  }

  /** Arcs keep their tag, focus and pending event; only their links may change. */
  ghost predicate ArcsKept(nodes: seq<Node>, nodes': seq<Node>)
  {
    |nodes| <= |nodes'| &&
    forall i :: 0 <= i < |nodes| ==>
      nodes'[i].Arc? == nodes[i].Arc? &&
      (nodes[i].Arc? ==> nodes'[i].focus == nodes[i].focus && nodes'[i].intersecEvent == nodes[i].intersecEvent)
  }

  /** Edges stay edges and keep their complement; nodes beyond the old end are new. */
  ghost predicate ComplementsKept(nodes: seq<Node>, nodes': seq<Node>)
  {
    |nodes| <= |nodes'| &&
    forall i :: 0 <= i < |nodes| && nodes[i].Edge? ==> nodes'[i].Edge? && nodes'[i].complement == nodes[i].complement
  }

  /** Below the root, every node's parent is an edge of the arena. */
  lemma {:induction false} ParentIsEdge(nodes: seq<Node>, t: Shape, par: Ref, x: nat)
    requires Encodes(nodes, t, par) && x in Ids(t) && x != t.id
    ensures ParentIn(t, x, par).idx < |nodes| && nodes[ParentIn(t, x, par).idx].Edge?
  {
    match t
    case Fork(i, l, r) =>
      if x in Ids(l) {
        if l.id != x { ParentIsEdge(nodes, l, At(i), x); }
      } else {
        if r.id != x { ParentIsEdge(nodes, r, At(i), x); }
      }
  }

  /** An arc of an encoded tree hangs from null (it is the root) or from an edge. */
  lemma ArcParent(nodes: seq<Node>, t: Shape, x: nat)
    requires Encodes(nodes, t, Nil) == true && Distinct(t) == true && x in Ids(t)
    ensures x < |nodes| && ParentOk(nodes, x)
    ensures nodes[x].parent == ParentIn(t, x, Nil)
  {
    SubtreeEncodes(nodes, t, Nil, x);
    if x != t.id {
      ParentIsEdge(nodes, t, Nil, x);
    }
  }

  /** Every index on `L` is an arc of the arena. */
  ghost predicate AllArcs(nodes: seq<Node>, L: seq<nat>)
  {
    forall k :: 0 <= k < |L| ==> L[k] < |nodes| && nodes[L[k]].Arc?
  }

  /**
   * ReplaceWithNewNodes on a tree: the arc's slot now holds
   * Edge(Arc(focus), Edge(Arc(site), Arc(focus))), the arena still encodes a
   * tree, and the beach line has the arc replaced by the three new arcs.
   */
  lemma SplitTree(nodes: seq<Node>, t: Shape, x: nat, y: real, site: IPoint) returns (t': Shape)
    requires Encodes(nodes, t, Nil) && Distinct(t) && x in Ids(t)
    requires nodes[x].Arc? && nodes[x].focus != site
    ensures ParentOk(nodes, x)
    ensures t' == Subst(t, x, SplitShape(|nodes|))
    ensures Encodes(Split(nodes, x, y, site), t', Nil) == true && Distinct(t') == true
    ensures Full(t) ==> Full(t') == true
    ensures ArcsKept(nodes, Split(nodes, x, y, site))
  {
    ArcParent(nodes, t, x);
    SplitGraft(nodes, t, x, y, site);
    LeavesAreArcs(nodes, t, Nil);
    SplitDistinct(t, x, |nodes|);
    SplitKeepsArcs(nodes, x, y, site);
    t' := Subst(t, x, SplitShape(|nodes|));
  }

  /** Grafting SplitShape on indices past the tree's own keeps the tree distinct, and full. */
  lemma SplitDistinct(t: Shape, x: nat, n: nat)
    requires Distinct(t) == true && x in Ids(t) && forall i :: i in Ids(t) ==> i < n
    ensures Distinct(Subst(t, x, SplitShape(n))) == true
    ensures Full(t) ==> Full(Subst(t, x, SplitShape(n))) == true
  {
    var u := SplitShape(n);
    SplitShapeFacts(n);
    DistinctSubst(t, x, u);
    if Full(t) {
      FullSubst(t, x, u);
    }
  }

  /** SplitShape(n) has the indices n to n + 4, each once, and is full. */
  lemma SplitShapeFacts(n: nat)
    ensures Ids(SplitShape(n)) == {n, n + 1, n + 2, n + 3, n + 4}
    ensures Distinct(SplitShape(n)) == true && Full(SplitShape(n)) == true
  {
    var u := SplitShape(n);
    assert Ids(u.right) == {n + 2, n + 3, n + 4};
    forall i | i in {n + 1, n + 3, n + 4} ensures Distinct(Leaf(i)) && Full(Leaf(i)) { }
    assert Distinct(u.right) && Full(u.right);
  }

  /** A split keeps every old arc, with its focus and its event. */
  lemma SplitKeepsArcs(nodes: seq<Node>, x: nat, y: real, site: IPoint)
    requires x < |nodes| && nodes[x].Arc? && nodes[x].focus != site && ParentOk(nodes, x)
    ensures ArcsKept(nodes, Split(nodes, x, y, site))
  {
  }

  /** The split arena encodes the tree with SplitShape grafted in place of the split arc. */
  lemma SplitGraft(nodes: seq<Node>, t: Shape, x: nat, y: real, site: IPoint)
    requires Encodes(nodes, t, Nil) == true && Distinct(t) == true && x in Ids(t)
    requires x < |nodes| && nodes[x].Arc? && nodes[x].focus != site && ParentOk(nodes, x)
    ensures Encodes(Split(nodes, x, y, site), Subst(t, x, SplitShape(|nodes|)), Nil) == true
    ensures Ids(SplitShape(|nodes|)) == {|nodes|, |nodes| + 1, |nodes| + 2, |nodes| + 3, |nodes| + 4}
    ensures Distinct(SplitShape(|nodes|)) == true && Full(SplitShape(|nodes|)) == true
  {
    ArcParent(nodes, t, x);
    SplitPart(nodes, x, y, site);
    Graft(nodes, Split(nodes, x, y, site), t, Nil, x, SplitShape(|nodes|));
  }

  /** The part a split appends encodes SplitShape below the split arc's parent, on fresh indices. */
  lemma SplitPart(nodes: seq<Node>, x: nat, y: real, site: IPoint)
    requires x < |nodes| && nodes[x].Arc? && nodes[x].focus != site && ParentOk(nodes, x)
    ensures var n, u := |nodes|, SplitShape(|nodes|);
      Encodes(Split(nodes, x, y, site), u, nodes[x].parent) == true && Distinct(u) == true && Full(u) == true &&
      Ids(u) == {n, n + 1, n + 2, n + 3, n + 4}
  {
    var n, r := |nodes|, Split(nodes, x, y, site);
    var u := SplitShape(n);
    var par := nodes[x].parent;
    assert Encodes(r, u, par) by {
      assert Encodes(r, Leaf(n + 3), At(n + 2)) && Encodes(r, Leaf(n + 4), At(n + 2));
      assert Encodes(r, u.right, At(n));
      assert Encodes(r, Leaf(n + 1), At(n));
    }
    assert Ids(u.right) == {n + 2, n + 3, n + 4};
    forall i | i in {n + 1, n + 3, n + 4} ensures Distinct(Leaf(i)) && Full(Leaf(i)) { }
    assert Distinct(u.right) && Full(u.right);
    assert Distinct(u) && Full(u);
  }

  /** The leaves of a split tree: those of the new part in place of the split arc. */
  lemma SplitLeaves(t: Shape, a: nat, n: nat)
    requires a in Ids(t)
    ensures Leaves(Subst(t, a, SplitShape(n))) == Before(t, a) + [n + 1, n + 3, n + 4] + After(t, a)
  {
    LeavesSubst(t, a, SplitShape(n));
    assert Leaves(Fork(n + 2, Leaf(n + 3), Leaf(n + 4))) == [n + 3, n + 4];
    assert Leaves(SplitShape(n)) == [n + 1, n + 3, n + 4];
  }

  /** Replacing one arc of a beach line by others keeps the foci of the rest. */
  lemma FociSplice(nodes: seq<Node>, r: seq<Node>, B: seq<nat>, x: nat, mid: seq<nat>, A: seq<nat>)
    requires ArcsKept(nodes, r) && AllArcs(nodes, B + [x] + A) && AllArcs(r, B + mid + A)
    ensures AllArcs(r, mid)
    ensures var F := Foci(nodes, B + [x] + A);
      Foci(r, B + mid + A) == F[..|B|] + Foci(r, mid) + F[|B| + 1..]
  {
    var L, L' := B + [x] + A, B + mid + A;
    var F, F' := Foci(nodes, L), Foci(r, L');
    forall k | 0 <= k < |mid| ensures mid[k] < |r| && r[mid[k]].Arc? {
      assert mid[k] == L'[|B| + k];
    }
    var M := Foci(r, mid);
    var G := F[..|B|] + M + F[|B| + 1..];
    forall j | 0 <= j < |F'| ensures F'[j] == G[j] {
      if j < |B| {
        assert L'[j] == L[j];
      } else if j >= |B| + |mid| {
        assert L'[j] == L[j - |mid| + 1];
      } else {
        assert L'[j] == mid[j - |B|];
      }
    }
  }

  /** The foci along the beach line: the split arc's focus becomes focus, site, focus. */
  lemma SplitFoci(nodes: seq<Node>, t: Shape, x: nat, y: real, site: IPoint) returns (t': Shape)
    requires Encodes(nodes, t, Nil) && Distinct(t) && x in Ids(t)
    requires nodes[x].Arc? && nodes[x].focus != site
    ensures ParentOk(nodes, x)
    ensures t' == Subst(t, x, SplitShape(|nodes|))
    ensures AllArcs(nodes, Leaves(t)) && AllArcs(Split(nodes, x, y, site), Leaves(t')) && x in Leaves(t)
    ensures var k, F := |Before(t, x)|, Foci(nodes, Leaves(t));
      k < |F| && Foci(Split(nodes, x, y, site), Leaves(t')) == F[..k] + [nodes[x].focus, site, nodes[x].focus] + F[k + 1..]
  {
    t' := SplitTree(nodes, t, x, y, site);
    LeafPosition(nodes, t, Nil, x);
    SplitLeaves(t, x, |nodes|);
    LeavesAreArcs(nodes, t, Nil);
    var n, r := |nodes|, Split(nodes, x, y, site);
    LeavesAreArcs(r, t', Nil);
    var B, A := Before(t, x), After(t, x);
    assert Leaves(t)[|B|] == x;
    var mid := [n + 1, n + 3, n + 4];
    var L, L' := Leaves(t), Leaves(t');
    assert L == B + [x] + A && L' == B + mid + A;
    FociSplice(nodes, r, B, x, mid, A);
    assert Foci(r, mid) == [nodes[x].focus, site, nodes[x].focus];
    var F := Foci(nodes, L);
    assert Foci(r, L') == F[..|B|] + [nodes[x].focus, site, nodes[x].focus] + F[|B| + 1..];
  }

  /** The guards of CheckForIntersection that need no computation. */
  predicate Degenerate(l: Node, r: Node)
    requires l.Edge? && r.Edge?
  {
    (l.direction.x == 0.0 && r.direction.x == 0.0) ||
    (Abs(l.start.x - r.start.x) < 0.01 && Abs(l.start.y - r.start.y) < 0.01)
  }

  /** Both edges' rays have the same slope (a division by zero never compares equal). */
  predicate SameSlope(l: Node, r: Node)
    requires l.Edge? && r.Edge?
  {
    r.direction.x != 0.0 && l.direction.x != 0.0 &&
    l.direction.y / l.direction.x == r.direction.y / r.direction.x
  }

  /**
   * The parameters along the left and the right ray at which they meet: the
   * solved linear system is left to the numerics, except for rays of equal
   * slope, which never meet and get -1 for both.
   */
  function RayParameters(l: Node, r: Node, geo: Numerics): (m: (real, real))
    requires l.Edge? && r.Edge?
    ensures SameSlope(l, r) ==> m.0 < 0.0 && m.1 < 0.0
  {
    if r.direction.x == 0.0 then geo.rayParameters(l, r)
    else if SameSlope(l, r) then (-1.0, -1.0)
    else geo.rayParameters(l, r)
  }

  /**
   * The computing part of CheckForIntersection for bounding edges `l` and
   * `r` of an arc with focus `focus`: whether there is a circle event, where
   * the edges meet, and the y of the sweep line at which it happens
   * (`lineIn`, the caller's value, when there is none).
   */
  function CircleTest(l: Node, r: Node, focus: IPoint, geo: Numerics, lineIn: real): (res: (bool, RPoint, real))
    requires l.Edge? && r.Edge?
    ensures res.0 <==> !Degenerate(l, r) && RayParameters(l, r, geo).0 >= 0.0 && RayParameters(l, r, geo).1 >= 0.0
    ensures res.0 ==> var m := RayParameters(l, r, geo).0;
      res.1 == Plus(l.start, Times(m, l.direction)) && res.2 == res.1.y - geo.distance(res.1, focus)
    ensures !res.0 ==> res.1 == Origin && res.2 == lineIn
  {
    if Degenerate(l, r) then (false, Origin, lineIn)
    else
      var (mLeft, mRight) := RayParameters(l, r, geo);
      if mLeft < 0.0 || mRight < 0.0 then (false, Origin, lineIn)
      else
        var p := RPoint(l.start.x + mLeft * l.direction.x, l.start.y + mLeft * l.direction.y);
        (true, p, p.y - geo.distance(p, focus))
  }

  /** Rays of equal slope never produce a circle event. */
  lemma ParallelNoCircle(l: Node, r: Node, focus: IPoint, geo: Numerics, lineIn: real)
    requires l.Edge? && r.Edge? && SameSlope(l, r)
    ensures !CircleTest(l, r, focus, geo, lineIn).0
  {
  }

  /** Arc `x` with its four neighbour fields set from the tree: what UpdateNeighbors leaves. */
  function WithNeighbours(nodes: seq<Node>, t: Shape, x: nat): (r: seq<Node>)
    requires x < |nodes| && x in Ids(t) && nodes[x].Arc?
    ensures |r| == |nodes| && ArcsKept(nodes, r)
    ensures forall i :: 0 <= i < |nodes| ==> Links(r[i]) == Links(nodes[i])
    ensures forall i :: 0 <= i < |nodes| && i != x ==> r[i] == nodes[i]
  {
    nodes[x := nodes[x].(leftEdge := LeftEdgeOf(t, x), rightEdge := RightEdgeOf(t, x),
                         leftArc := LeftArcOf(t, x), rightArc := RightArcOf(t, x))]
  }

  /**
   * The outcome of CheckForIntersection on arc `x`, read off the tree: no
   * intersection without both bounding edges, the circle test of the two
   * bounding edges otherwise.
   */
  ghost function Probe(nodes: seq<Node>, t: Shape, x: nat, geo: Numerics, lineIn: real): (bool, RPoint, real)
    requires x < |nodes| && x in Ids(t) && nodes[x].Arc?
  {
    var le, re := LeftEdgeOf(t, x), RightEdgeOf(t, x);
    if le == Nil || re == Nil then (false, Origin, lineIn)
    else if le.idx < |nodes| && re.idx < |nodes| && nodes[le.idx].Edge? && nodes[re.idx].Edge? then
      CircleTest(nodes[le.idx], nodes[re.idx], nodes[x].focus, geo, lineIn)
    else (false, Origin, lineIn)
  }

  /** The bounding edges found on the path are edges of the tree, other than the arc. */
  lemma BoundsAreEdges(nodes: seq<Node>, t: Shape, x: nat)
    requires Encodes(nodes, t, Nil) && Distinct(t) && x in Ids(t)
    ensures LeftEdgeOf(t, x).At? ==> var e := LeftEdgeOf(t, x).idx;
      e in Ids(t) && e != x && e < |nodes| && nodes[e].Edge?
    ensures RightEdgeOf(t, x).At? ==> var e := RightEdgeOf(t, x).idx;
      e in Ids(t) && e != x && e < |nodes| && nodes[e].Edge?
  {
    PathFacts(t, x);
    PathEncodes(nodes, t, Nil, x);
    var P := Path(t, x);
    var k, k' := LastRightTurn(P, x), LastLeftTurn(P, x);
    if k >= 0 {
      assert Encodes(nodes, P[k], if k == 0 then Nil else At(P[k - 1].id));
      assert P[k].id in Ids(P[k]);
    }
    if k' >= 0 {
      assert Encodes(nodes, P[k'], if k' == 0 then Nil else At(P[k' - 1].id));
      assert P[k'].id in Ids(P[k']);
    }
  }

  /**
   * An arc with both bounding edges sits at depth two or more; its parent is
   * one of the two bounding edges, and the other one (`o`) is a proper
   * ancestor of the parent.
   */
  lemma InteriorArc(nodes: seq<Node>, t: Shape, x: nat) returns (p: nat, o: nat)
    requires Encodes(nodes, t, Nil) && Distinct(t) && x in Ids(t)
    requires LeftEdgeOf(t, x) != Nil && RightEdgeOf(t, x) != Nil
    ensures x != t.id && ParentIn(t, x, Nil) == At(p) && p != t.id
    ensures (LeftEdgeOf(t, x) == At(p) && RightEdgeOf(t, x) == At(o)) ||
            (RightEdgeOf(t, x) == At(p) && LeftEdgeOf(t, x) == At(o))
    ensures o in Ids(t) && o !in Ids(SubAt(t, p)) && o != p && SubAt(t, o).Fork?
  {
    var P := Path(t, x);
    var m := |P|;
    var kr, kl := LastRightTurn(P, x), LastLeftTurn(P, x);
    assert 0 <= kr < m && 0 <= kl < m;
    PathFacts(t, x);
    assert Distinct(P[m - 1]);
    p := P[m - 1].id;
    PathParent(t, x, Nil);
    var k;
    if TurnsRight(P[m - 1], x) {
      assert kr == m - 1;
      assert !TurnsLeft(P[m - 1], x);
      k := kl;
      o := P[k].id;
      assert LeftEdgeOf(t, x) == At(p) && RightEdgeOf(t, x) == At(o);
    } else {
      assert kl == m - 1;
      k := kr;
      o := P[k].id;
      assert RightEdgeOf(t, x) == At(p) && LeftEdgeOf(t, x) == At(o);
    }
    PathBelow(t, x, k);
  }

  /**
   * An edge at position `k` of the path to `x`, above its last edge, is a
   * proper ancestor of that last edge, which is not the root.
   */
  lemma PathBelow(t: Shape, x: nat, k: nat)
    requires Distinct(t) == true && x in Ids(t) && k < |Path(t, x)| - 1
    ensures var P := Path(t, x); var p, o := P[|P| - 1].id, P[k].id;
      p != t.id && o in Ids(t) && p in Ids(t) && o !in Ids(SubAt(t, p)) && o != p && SubAt(t, o).Fork?
  {
    var P := Path(t, x);
    var m := |P|;
    PathFacts(t, x);
    PathSubAt(t, x);
    PathNested(t, x, k, m - 1);
    assert P[m - 1].id in Ids(P[m - 1]) && SubAt(t, P[m - 1].id) == P[m - 1];
    if 0 < k {
      PathNested(t, x, 0, m - 1);
    }
  }

  // ----- RemoveParabola -----

  /** The child of edge `e` that is not `x`. */
  function Sibling(e: Node, x: nat): Ref
    requires e.Edge?
  {
    if e.leftChild == At(x) then e.rightChild else e.leftChild
  }

  /** The site of edge `e` other than `focus`: its first site unless that is `focus`. */
  function OtherSite(e: Node, focus: IPoint): (s: IPoint)
    requires e.Edge?
    ensures s == e.firstSite || s == e.secondSite
    ensures s == focus ==> e.firstSite == focus && e.secondSite == focus
  {
    if e.firstSite == focus then e.secondSite else e.firstSite
  }

  /** Arc `x` has a parent, a grandparent and a sibling in the arena. */
  predicate SpliceOk(nodes: seq<Node>, x: nat)
  {
    x < |nodes| && nodes[x].parent.At? &&
    var p := nodes[x].parent.idx;
    p < |nodes| && nodes[p].Edge? && nodes[p].parent.At? &&
    nodes[p].parent.idx < |nodes| && nodes[nodes[p].parent.idx].Edge? &&
    Sibling(nodes[p], x).At? && Sibling(nodes[p], x).idx < |nodes|
  }

  /**
   * The first half of RemoveParabola: the sibling of `x` is hung from the
   * grandparent, in the slot the parent occupied.
   */
  function Splice(nodes: seq<Node>, x: nat): (r: seq<Node>)
    requires SpliceOk(nodes, x)
    ensures |r| == |nodes| && ArcsKept(nodes, r) && ComplementsKept(nodes, r)
  {
    var p := nodes[x].parent.idx;
    var g := nodes[p].parent.idx;
    var s := Sibling(nodes[p], x).idx;
    var n1 := nodes[s := nodes[s].(parent := At(g))];
    n1[g := Relink(n1[g], p, s)]
  }

  /** Edge `o` has two children and a parent that is null or an edge. */
  predicate RenameOk(nodes: seq<Node>, o: nat)
  {
    o < |nodes| && nodes[o].Edge? &&
    nodes[o].leftChild.At? && nodes[o].leftChild.idx < |nodes| &&
    nodes[o].rightChild.At? && nodes[o].rightChild.idx < |nodes| &&
    (nodes[o].parent == Nil || (nodes[o].parent.idx < |nodes| && nodes[nodes[o].parent.idx].Edge?))
  }

  /**
   * The second half of RemoveParabola: edge `o` is replaced by a fresh edge
   * (index |nodes|) with sites `s1`, `s2`, start `start` and direction `dir`,
   * which takes over o's children and o's slot in its parent.
   */
  function Rename(nodes: seq<Node>, o: nat, s1: IPoint, s2: IPoint, start: RPoint, dir: RPoint): (r: seq<Node>)
    requires RenameOk(nodes, o)
    ensures |r| == |nodes| + 1 && ArcsKept(nodes, r) && ComplementsKept(nodes, r)
    ensures var e := r[|nodes|];
      e.Edge? && e.firstSite == s1 && e.secondSite == s2 && e.start == start && e.direction == dir &&
      e.complement == Nil && e.end == Origin && e.parent == nodes[o].parent &&
      e.leftChild == nodes[o].leftChild && e.rightChild == nodes[o].rightChild
  {
    var e, n := nodes[o], |nodes|;
    var made := NewEdgeDirected(s1, s2, start, dir, e.parent).(leftChild := e.leftChild, rightChild := e.rightChild);
    var n1 := nodes + [made];
    var n2 := n1[e.leftChild.idx := n1[e.leftChild.idx].(parent := At(n))];
    var n3 := n2[e.rightChild.idx := n2[e.rightChild.idx].(parent := At(n))];
    if e.parent == Nil then n3 else n3[e.parent.idx := Relink(n3[e.parent.idx], o, n)]
  }

  /** The bounding edge of `x` that is not its parent. */
  function OtherEdge(a: Node): Ref
    requires a.Arc?
  {
    if a.parent == a.leftEdge then a.rightEdge else a.leftEdge
  }

  /** What RemoveParabola needs of the arena to run without a null dereference. */
  predicate RemovalOk(nodes: seq<Node>, x: nat)
  {
    x < |nodes| && nodes[x].Arc? &&
    nodes[x].leftEdge.At? && nodes[x].leftEdge.idx < |nodes| && nodes[nodes[x].leftEdge.idx].Edge? &&
    nodes[x].rightEdge.At? && nodes[x].rightEdge.idx < |nodes| && nodes[nodes[x].rightEdge.idx].Edge? &&
    SpliceOk(nodes, x) && RenameOk(Splice(nodes, x), OtherEdge(nodes[x]).idx)
  }

  /** The arena after RemoveParabola on arc `x` with circle point `intersection`. */
  function Removal(nodes: seq<Node>, x: nat, intersection: RPoint): (r: seq<Node>)
    requires RemovalOk(nodes, x)
    ensures |r| == |nodes| + 1 && ArcsKept(nodes, r) && ComplementsKept(nodes, r)
    ensures r[|nodes|].Edge? && r[|nodes|].complement == Nil
  {
    var a := nodes[x];
    var n1 := Splice(nodes, x);
    var p, o := a.parent.idx, OtherEdge(a).idx;
    var le, re := a.leftEdge.idx, a.rightEdge.idx;
    var n2 := Rename(n1, o, OtherSite(n1[re], a.focus), OtherSite(n1[le], a.focus), intersection,
                     Plus(n1[p].direction, n1[o].direction));
    var n3 := n2[le := n2[le].(end := intersection)];
    n3[re := n3[re].(end := intersection)]
  }

  /** RemoveParabola writes no field of the removed arc itself, bar at most its parent link. */
  lemma RemovalKeepsArc(nodes: seq<Node>, x: nat, intersection: RPoint)
    requires RemovalOk(nodes, x)
    ensures var r := Removal(nodes, x, intersection);
      r[x].Arc? && Unlinked(nodes[x], r[x])
  {
    var a := nodes[x];
    var n1 := Splice(nodes, x);
    assert Unlinked(a, n1[x]);
    var o := OtherEdge(a).idx;
    var n2 := Rename(n1, o, OtherSite(n1[a.rightEdge.idx], a.focus), OtherSite(n1[a.leftEdge.idx], a.focus),
                     intersection, Plus(n1[a.parent.idx].direction, n1[o].direction));
    assert Unlinked(a, n2[x]);
  }

  /** Arc `b` is arc `a` up to its parent link. */
  predicate Unlinked(a: Node, b: Node)
  {
    a.Arc? && b.Arc? && b.focus == a.focus && b.intersecEvent == a.intersecEvent &&
    b.leftEdge == a.leftEdge && b.rightEdge == a.rightEdge && b.leftArc == a.leftArc && b.rightArc == a.rightArc
  }

  /** The parent `p` of arc `x` is a fork of `x` and its sibling `S`, below the grandparent `g`. */
  lemma SpliceLocal(nodes: seq<Node>, t: Shape, x: nat) returns (p: nat, g: nat, S: Shape)
    requires Encodes(nodes, t, Nil) && Distinct(t) && Full(t) && x in Ids(t) && x != t.id
    requires nodes[x].Arc? && ParentIn(t, x, Nil).idx != t.id
    ensures SpliceOk(nodes, x) && nodes[x].parent == At(p) && nodes[p].parent == At(g)
    ensures ParentIn(t, x, Nil) == At(p) && ParentIn(t, p, Nil) == At(g)
    ensures p in Ids(t) && p != t.id && Sibling(nodes[p], x) == At(S.id)
    ensures SubAt(t, p) == Fork(p, Leaf(x), S) || SubAt(t, p) == Fork(p, S, Leaf(x))
    ensures S.id in Ids(t) && SubAt(t, S.id) == S && Encodes(nodes, S, At(p)) && Distinct(S) && Full(S)
    ensures g !in Ids(SubAt(t, p)) && x !in Ids(S) && p !in Ids(S) && x != p
    ensures Leaves(t) == Before(t, x) + [x] + After(t, x)
  {
    ArcParent(nodes, t, x);
    p := nodes[x].parent.idx;
    ParentChild(t, x, Nil);
    LeafPosition(nodes, t, Nil, x);
    SubtreeEncodes(nodes, t, Nil, p);
    FullSubAt(t, p);
    var F := SubAt(t, p);
    g := ParentIn(t, p, Nil).idx;
    ParentIsEdge(nodes, t, Nil, p);
    S := if F.left == Leaf(x) then F.right else F.left;
    assert Sibling(nodes[p], x) == At(S.id);
    SubAtNested(t, p, S.id);
    assert SubAt(F, S.id) == S;
  }

  lemma SpliceEncodes(nodes: seq<Node>, t: Shape, x: nat, p: nat, g: nat, S: Shape)
    requires Encodes(nodes, t, Nil) && Distinct(t) && p in Ids(t) && p != t.id
    requires SpliceOk(nodes, x) && nodes[x].parent == At(p)
    requires ParentIn(t, p, Nil) == At(g) && nodes[p].parent == At(g) && Sibling(nodes[p], x) == At(S.id)
    requires SubAt(t, p) == Fork(p, Leaf(x), S) || SubAt(t, p) == Fork(p, S, Leaf(x))
    requires Encodes(nodes, S, At(p)) && Distinct(S) && g !in Ids(SubAt(t, p))
    ensures Encodes(Splice(nodes, x), Subst(t, p, S), Nil)
  {
    var N := Splice(nodes, x);
    assert forall i :: i in Ids(S) ==> i in Ids(SubAt(t, p));
    Reparent(nodes, N, S, At(p), At(g));
    Graft(nodes, N, t, Nil, p, S);
  }

  lemma SiblingSides(F: Shape, x: nat, p: nat, S: Shape)
    requires F == Fork(p, Leaf(x), S) || F == Fork(p, S, Leaf(x))
    requires x != p && x !in Ids(S)
    ensures x in Ids(F) && Before(F, x) + After(F, x) == Leaves(S)
  {
    if F.left == Leaf(x) {
      assert Before(F, x) == [];
      assert After(F, x) == [] + Leaves(S);
    } else {
      assert Before(F, x) == Leaves(S) + [];
      assert After(F, x) == [];
    }
  }

  lemma SpliceLeaves(t: Shape, x: nat, p: nat, S: Shape)
    requires Distinct(t) && p in Ids(t) && x != p && x !in Ids(S)
    requires SubAt(t, p) == Fork(p, Leaf(x), S) || SubAt(t, p) == Fork(p, S, Leaf(x))
    ensures x in Ids(t) && Leaves(Subst(t, p, S)) == Before(t, x) + After(t, x)
  {
    var F := SubAt(t, p);
    SiblingSides(F, x, p, S);
    LeavesSubst(t, p, S);
    BeforeNested(t, p, x);
    Regroup(Before(t, p), Before(F, x), After(F, x), After(t, p));
  }

  lemma Regroup<T>(B: seq<T>, b: seq<T>, a: seq<T>, A: seq<T>)
    ensures (B + b) + (a + A) == B + (b + a) + A
  {
  }

  /**
   * Splicing out arc `x`, whose parent is not the root, leaves a tree: the
   * sibling's subtree takes the parent edge's place, and the beach line loses
   * exactly `x`.
   */
  lemma SpliceTree(nodes: seq<Node>, t: Shape, x: nat) returns (t': Shape)
    requires Encodes(nodes, t, Nil) && Distinct(t) && Full(t) && x in Ids(t) && x != t.id
    requires nodes[x].Arc? && ParentIn(t, x, Nil).idx != t.id
    ensures SpliceOk(nodes, x)
    ensures var p := nodes[x].parent.idx;
      p in Ids(t) && Sibling(nodes[p], x).idx in Ids(t) &&
      t' == Subst(t, p, SubAt(t, Sibling(nodes[p], x).idx))
    ensures Encodes(Splice(nodes, x), t', Nil) && Distinct(t') && Full(t')
    ensures Ids(t') == Ids(t) - {nodes[x].parent.idx, x}
    ensures Leaves(t') == Before(t, x) + After(t, x)
  {
    var p, g, S := SpliceLocal(nodes, t, x);
    SpliceEncodes(nodes, t, x, p, g, S);
    t' := Subst(t, p, S);
    DistinctSubst(t, p, S);
    FullSubst(t, p, S);
    IdsSubst(t, p, S);
    assert Ids(SubAt(t, p)) == {p, x} + Ids(S);
    SpliceLeaves(t, x, p, S);
  }

  /** The subtree at edge `o` is a fork encoded under o's parent link. */
  lemma RenameLocal(nodes: seq<Node>, t: Shape, o: nat)
    requires Encodes(nodes, t, Nil) && Distinct(t) && Full(t) && o in Ids(t) && nodes[o].Edge?
    ensures RenameOk(nodes, o) && SubAt(t, o).Fork?
    ensures nodes[o].parent == ParentIn(t, o, Nil)
    ensures nodes[o].parent == Nil <==> o == t.id
    ensures Encodes(nodes, SubAt(t, o), nodes[o].parent) && Distinct(SubAt(t, o))
  {
    SubtreeEncodes(nodes, t, Nil, o);
    FullSubAt(t, o);
    ArcParent(nodes, t, o);
  }

  /** Which slots of the arena Rename touches. */
  lemma RenameFrame(nodes: seq<Node>, o: nat, s1: IPoint, s2: IPoint, start: RPoint, dir: RPoint)
    requires RenameOk(nodes, o) == true
    requires var e := nodes[o];
      e.leftChild != e.rightChild && e.parent != e.leftChild && e.parent != e.rightChild
    ensures var M, e, n := Rename(nodes, o, s1, s2, start, dir), nodes[o], |nodes|;
      M[e.leftChild.idx] == nodes[e.leftChild.idx].(parent := At(n)) &&
      M[e.rightChild.idx] == nodes[e.rightChild.idx].(parent := At(n)) &&
      (e.parent.At? ==> M[e.parent.idx] == Relink(nodes[e.parent.idx], o, n)) &&
      forall i :: 0 <= i < n && At(i) != e.leftChild && At(i) != e.rightChild && At(i) != e.parent ==>
        M[i] == nodes[i]
  {
  }

  lemma RenameEncodes(nodes: seq<Node>, t: Shape, o: nat, s1: IPoint, s2: IPoint, start: RPoint, dir: RPoint)
    requires Encodes(nodes, t, Nil) == true && Distinct(t) == true && o in Ids(t) && RenameOk(nodes, o)
    requires SubAt(t, o).Fork? && nodes[o].parent == ParentIn(t, o, Nil)
    requires Encodes(nodes, SubAt(t, o), nodes[o].parent) == true && Distinct(SubAt(t, o)) == true
    ensures var O := SubAt(t, o);
      Encodes(Rename(nodes, o, s1, s2, start, dir), Subst(t, o, Fork(|nodes|, O.left, O.right)), Nil) == true
  {
    var M := Rename(nodes, o, s1, s2, start, dir);
    var O := SubAt(t, o);
    var q := nodes[o].parent;
    assert q.At? ==> q.idx !in Ids(O);
    RenameFrame(nodes, o, s1, s2, start, dir);
    RenamedPart(nodes, O, o, q, s1, s2, start, dir);
    Graft(nodes, M, t, Nil, o, Fork(|nodes|, O.left, O.right));
  }

  /** The renamed edge, with o's children below it, encodes o's subtree under the fresh index. */
  lemma RenamedPart(nodes: seq<Node>, O: Shape, o: nat, q: Ref, s1: IPoint, s2: IPoint, start: RPoint, dir: RPoint)
    requires RenameOk(nodes, o) == true && O.Fork? && O.id == o && q == nodes[o].parent
    requires Encodes(nodes, O, q) == true && Distinct(O) == true && (q.At? ==> q.idx !in Ids(O))
    ensures Encodes(Rename(nodes, o, s1, s2, start, dir), Fork(|nodes|, O.left, O.right), q) == true
  {
    var M := Rename(nodes, o, s1, s2, start, dir);
    RenamedSide(nodes, O, o, q, s1, s2, start, dir, O.left);
    RenamedSide(nodes, O, o, q, s1, s2, start, dir, O.right);
    assert Encodes(M, Fork(|nodes|, O.left, O.right), q) == true;
  }

  /** Either child subtree of the renamed edge `o` hangs below the fresh index. */
  lemma RenamedSide(nodes: seq<Node>, O: Shape, o: nat, q: Ref, s1: IPoint, s2: IPoint, start: RPoint, dir: RPoint,
                    c: Shape)
    requires RenameOk(nodes, o) == true && O.Fork? && O.id == o && q == nodes[o].parent
    requires Encodes(nodes, O, q) == true && Distinct(O) == true && (q.At? ==> q.idx !in Ids(O))
    requires c == O.left || c == O.right
    ensures Encodes(Rename(nodes, o, s1, s2, start, dir), c, At(|nodes|))
  {
    var M := Rename(nodes, o, s1, s2, start, dir);
    assert O.left.id != O.right.id;
    RenameFrame(nodes, o, s1, s2, start, dir);
    forall i | i in Ids(c) ensures i in Ids(O) { }
    Reparent(nodes, M, c, At(o), At(|nodes|));
  }

  /**
   * Replacing edge `o` by a fresh edge appended to the arena keeps the tree:
   * the fresh edge has o's children and o's place, and the beach line is
   * unchanged.
   */
  lemma RenameTree(nodes: seq<Node>, t: Shape, o: nat, s1: IPoint, s2: IPoint, start: RPoint, dir: RPoint)
      returns (t': Shape)
    requires Encodes(nodes, t, Nil) && Distinct(t) && Full(t) && o in Ids(t) && nodes[o].Edge?
    ensures RenameOk(nodes, o) && SubAt(t, o).Fork?
    ensures nodes[o].parent == Nil <==> o == t.id
    ensures t' == Subst(t, o, Fork(|nodes|, SubAt(t, o).left, SubAt(t, o).right))
    ensures Encodes(Rename(nodes, o, s1, s2, start, dir), t', Nil) && Distinct(t') && Full(t')
    ensures Ids(t') == Ids(t) - {o} + {|nodes|} && Leaves(t') == Leaves(t)
    ensures t'.id == if o == t.id then |nodes| else t.id
  {
    RenameLocal(nodes, t, o);
    RenameEncodes(nodes, t, o, s1, s2, start, dir);
    var O := SubAt(t, o);
    var u := Fork(|nodes|, O.left, O.right);
    t' := Subst(t, o, u);
    assert |nodes| !in Ids(t);
    IdsSubst(t, o, u);
    DistinctSubst(t, o, u);
    FullSubAt(t, o);
    FullSubst(t, o, u);
    LeavesSubst(t, o, u);
    LeavesSplit(t, o);
  }

  /** The parent of an interior arc is one of its bounding edges; OtherEdge is the other. */
  lemma RemoveBounds(nodes: seq<Node>, t: Shape, x: nat) returns (p: nat, o: nat)
    requires Encodes(nodes, t, Nil) && Distinct(t) && Full(t) && x in Ids(t) && nodes[x].Arc?
    requires nodes[x].leftEdge == LeftEdgeOf(t, x) != Nil && nodes[x].rightEdge == RightEdgeOf(t, x) != Nil
    ensures x != t.id && ParentIn(t, x, Nil).idx != t.id && nodes[x].parent == At(p)
    ensures OtherEdge(nodes[x]) == At(o) && {p, o} == {nodes[x].leftEdge.idx, nodes[x].rightEdge.idx}
    ensures p in Ids(t) && p != o && o != x && o in Ids(t) && o !in Ids(SubAt(t, p)) && nodes[o].Edge?
    ensures nodes[x].leftEdge.idx < |nodes| && nodes[nodes[x].leftEdge.idx].Edge?
    ensures nodes[x].rightEdge.idx < |nodes| && nodes[nodes[x].rightEdge.idx].Edge?
  {
    p, o := InteriorArc(nodes, t, x);
    BoundsAreEdges(nodes, t, x);
    ArcParent(nodes, t, x);
  }

  /** Setting the end points of two edges keeps the encoding. */
  lemma EndsKeepTree(nodes: seq<Node>, t: Shape, le: nat, re: nat, q: RPoint)
    requires Encodes(nodes, t, Nil) && le < |nodes| && re < |nodes| && nodes[le].Edge? && nodes[re].Edge?
    ensures var n1 := nodes[le := nodes[le].(end := q)];
      n1[re].Edge? && Encodes(n1[re := n1[re].(end := q)], t, Nil)
  {
    var n1 := nodes[le := nodes[le].(end := q)];
    EncodesFrame(nodes, n1[re := n1[re].(end := q)], t, Nil);
  }

  lemma RemovedIds(A: set<nat>, B: set<nat>, C: set<nat>, x: nat, p: nat, o: nat, le: nat, re: nat, n: nat)
    requires B == A - {p, x} && C == B - {o} + {n} && {p, o} == {le, re}
    ensures C == A - {x, le, re} + {n}
  {
  }

  /**
   * RemoveParabola on an arc with both bounding edges leaves a tree whose beach
   * line is the old one without `x`; the two bounding edges and `x` leave the
   * tree and the fresh edge enters it, becoming the root when the other edge
   * was the root.
   */
  lemma RemoveTree(nodes: seq<Node>, t: Shape, x: nat, intersection: RPoint) returns (t': Shape)
    requires Encodes(nodes, t, Nil) && Distinct(t) && Full(t) && x in Ids(t) && nodes[x].Arc?
    requires nodes[x].leftEdge == LeftEdgeOf(t, x) != Nil && nodes[x].rightEdge == RightEdgeOf(t, x) != Nil
    ensures RemovalOk(nodes, x)
    ensures Encodes(Removal(nodes, x, intersection), t', Nil) && Distinct(t') && Full(t')
    ensures Leaves(t) == Before(t, x) + [x] + After(t, x) && Leaves(t') == Before(t, x) + After(t, x)
    ensures Ids(t') == Ids(t) - {x, nodes[x].leftEdge.idx, nodes[x].rightEdge.idx} + {|nodes|}
    ensures OtherEdge(nodes[x]).idx == t.id <==> Splice(nodes, x)[OtherEdge(nodes[x]).idx].parent == Nil
    ensures t'.id == if OtherEdge(nodes[x]).idx == t.id then |nodes| else t.id
  {
    var p, o := RemoveBounds(nodes, t, x);
    LeafPosition(nodes, t, Nil, x);
    var t1 := SpliceTree(nodes, t, x);
    var N1 := Splice(nodes, x);
    assert o in Ids(t1) && N1[o].Edge?;
    var a := nodes[x];
    var le, re := a.leftEdge.idx, a.rightEdge.idx;
    var s1, s2 := OtherSite(N1[re], a.focus), OtherSite(N1[le], a.focus);
    var dir := Plus(N1[p].direction, N1[o].direction);
    t' := RenameTree(N1, t1, o, s1, s2, intersection, dir);
    var N2 := Rename(N1, o, s1, s2, intersection, dir);
    assert RemovalOk(nodes, x);
    assert t1.id == t.id;
    RemovedIds(Ids(t), Ids(t1), Ids(t'), x, p, o, le, re, |nodes|);
    EndsKeepTree(N2, t', le, re, intersection);
  }

  /** The heap of tree nodes: every `VTreeNode` object is an entry of `nodes`. */
  class Arena {
    var nodes: seq<Node>

    constructor ()
      ensures nodes == []
    {
      nodes := [];
    }

    /** `new VParabola(...)` or `new VEdge(...)`: the object gets the next free index. */
    method Allocate(n: Node) returns (idx: nat)
      modifies this
      ensures idx == |old(nodes)| && nodes == old(nodes) + [n]
    {
      idx := |nodes|;
      nodes := nodes + [n];
    }

    /** Field assignments on the object at index `i`: its record becomes `n`. */
    method Store(i: nat, n: Node)
      requires i < |nodes|
      modifies this
      ensures nodes == old(nodes)[i := n]
    {
      nodes := nodes[i := n];
    }

    /**
     * ReplaceWithNewNodes on arc `x`: builds
     * Edge(Arc(focus), Edge(Arc(site), Arc(focus))) in the arc's slot and
     * returns the outer edge.
     */
    method ReplaceWithNewNodes(x: nat, y: real, site: IPoint) returns (newLeftEdge: nat)
      requires x < |nodes| && nodes[x].Arc? && nodes[x].focus != site && ParentOk(nodes, x)
      modifies this
      ensures newLeftEdge == |old(nodes)|
      ensures nodes == Split(old(nodes), x, y, site)
    {
      var n := |nodes|;
      var arc := nodes[x];
      var firstSite, secondSite := site, arc.focus;
      var start := RPoint(site.x as real, y);
      if arc.focus.y > site.y {
        firstSite, secondSite := arc.focus, site;
      }
      // The five new objects get the indices n .. n + 4.
      newLeftEdge := n;
      var outer := NewEdge(firstSite, secondSite, start, arc.parent);
      if arc.parent.At? {
        var p := arc.parent.idx;
        nodes := nodes[p := Relink(nodes[p], x, newLeftEdge)];
      }
      var leftPart := NewArc(arc.focus, At(n));
      outer := outer.(leftChild := At(n + 1));
      var inner := NewEdge(secondSite, firstSite, start, At(n));
      outer := outer.(rightChild := At(n + 2));
      var newParabola := NewArc(site, At(n + 2));
      inner := inner.(leftChild := At(n + 3));
      var rightPart := NewArc(arc.focus, At(n + 2));
      inner := inner.(rightChild := At(n + 4));
      outer := outer.(complement := At(n + 2));
      inner := inner.(complement := At(n));
      nodes := nodes + [outer, leftPart, inner, newParabola, rightPart];
    }

    /** Descends through right children down to an arc. */
    method RightmostArc(start: nat, ghost s: Shape, ghost par: Ref) returns (leaf: nat)
      requires Encodes(nodes, s, par) == true && Full(s) == true && start == s.id
      ensures leaf == Rightmost(s)
    {
      leaf := start;
      ghost var u, up := s, par;
      while !nodes[leaf].Arc?
        invariant Encodes(nodes, u, up) && Full(u) && leaf == u.id && Rightmost(u) == Rightmost(s)
        decreases u
      {
        up := At(leaf);
        leaf := nodes[leaf].rightChild.idx;
        u := u.right;
      }
    }

    /** Descends through left children down to an arc. */
    method LeftmostArc(start: nat, ghost s: Shape, ghost par: Ref) returns (leaf: nat)
      requires Encodes(nodes, s, par) == true && Full(s) == true && start == s.id
      ensures leaf == Leftmost(s)
    {
      leaf := start;
      ghost var u, up := s, par;
      while !nodes[leaf].Arc?
        invariant Encodes(nodes, u, up) && Full(u) && leaf == u.id && Leftmost(u) == Leftmost(s)
        decreases u
      {
        up := At(leaf);
        leaf := nodes[leaf].leftChild.idx;
        u := u.left;
      }
    }

    /** The left half of UpdateNeighbors: the left bounding edge and the arc beyond it. */
    method LeftNeighbour(x: nat, ghost t: Shape) returns (edge: Ref, arc: Ref)
      requires Encodes(nodes, t, Nil) && Distinct(t) && Full(t) && x in Ids(t) && x != t.id
      requires nodes[x].Arc?
      ensures edge == LeftEdgeOf(t, x)
      ensures arc == LeftArcOf(t, x)
    {
      ghost var P := Path(t, x);
      PathFacts(t, x);
      ArcParent(nodes, t, x);
      assert nodes[x].parent == At(P[|P| - 1].id) by {
        PathEncodes(nodes, t, Nil, x);
      }
      edge, arc := Nil, Nil;
      var searchingEdge := nodes[x].parent.idx;
      var lastEdge := searchingEdge;
      ghost var j := |P| - 1;
      PathLinks(nodes, t, x, j);
      while nodes[searchingEdge].parent != Nil &&
            (nodes[searchingEdge].leftChild == At(lastEdge) || nodes[searchingEdge].leftChild == At(x))
        invariant 0 <= j < |P| && searchingEdge == P[j].id
        invariant lastEdge == if j == |P| - 1 then P[j].id else P[j + 1].id
        invariant forall i :: j < i < |P| ==> !TurnsRight(P[i], x)
        invariant searchingEdge < |nodes| && nodes[searchingEdge].Edge?
        invariant nodes[searchingEdge].parent == Nil <==> j == 0
        invariant j > 0 ==> nodes[searchingEdge].parent == At(P[j - 1].id)
        invariant (nodes[searchingEdge].leftChild == At(lastEdge) || nodes[searchingEdge].leftChild == At(x))
                  <==> !TurnsRight(P[j], x)
        decreases j
      {
        lastEdge := searchingEdge;
        searchingEdge := nodes[searchingEdge].parent.idx;
        j := j - 1;
        PathLinks(nodes, t, x, j);
      }
      PathLinks(nodes, t, x, j);
      if nodes[searchingEdge].leftChild != At(lastEdge) && nodes[searchingEdge].leftChild != At(x) {
        LastRightTurnIs(P, x, j);
        edge := At(searchingEdge);
        PathEncodes(nodes, t, Nil, x);
        assert Encodes(nodes, P[j], if j == 0 then Nil else At(P[j - 1].id)) == true;
        var leaf := RightmostArc(nodes[searchingEdge].leftChild.idx, P[j].left, At(searchingEdge));
        arc := At(leaf);
      } else {
        LastRightTurnIs(P, x, -1);
      }
    }

    /** The right half of UpdateNeighbors: the right bounding edge and the arc beyond it. */
    method RightNeighbour(x: nat, ghost t: Shape) returns (edge: Ref, arc: Ref)
      requires Encodes(nodes, t, Nil) && Distinct(t) && Full(t) && x in Ids(t) && x != t.id
      requires nodes[x].Arc?
      ensures edge == RightEdgeOf(t, x)
      ensures arc == RightArcOf(t, x)
    {
      ghost var P := Path(t, x);
      PathFacts(t, x);
      ArcParent(nodes, t, x);
      assert nodes[x].parent == At(P[|P| - 1].id) by {
        PathEncodes(nodes, t, Nil, x);
      }
      edge, arc := Nil, Nil;
      var searchingEdge := nodes[x].parent.idx;
      var lastEdge := searchingEdge;
      ghost var j := |P| - 1;
      PathLinks(nodes, t, x, j);
      while nodes[searchingEdge].parent != Nil &&
            (nodes[searchingEdge].rightChild == At(lastEdge) || nodes[searchingEdge].rightChild == At(x))
        invariant 0 <= j < |P| && searchingEdge == P[j].id
        invariant lastEdge == if j == |P| - 1 then P[j].id else P[j + 1].id
        invariant forall i :: j < i < |P| ==> !TurnsLeft(P[i], x)
        invariant searchingEdge < |nodes| && nodes[searchingEdge].Edge?
        invariant nodes[searchingEdge].parent == Nil <==> j == 0
        invariant j > 0 ==> nodes[searchingEdge].parent == At(P[j - 1].id)
        invariant (nodes[searchingEdge].rightChild == At(lastEdge) || nodes[searchingEdge].rightChild == At(x))
                  <==> !TurnsLeft(P[j], x)
        decreases j
      {
        lastEdge := searchingEdge;
        searchingEdge := nodes[searchingEdge].parent.idx;
        j := j - 1;
        PathLinks(nodes, t, x, j);
      }
      PathLinks(nodes, t, x, j);
      if nodes[searchingEdge].rightChild != At(lastEdge) && nodes[searchingEdge].rightChild != At(x) {
        LastLeftTurnIs(P, x, j);
        edge := At(searchingEdge);
        PathEncodes(nodes, t, Nil, x);
        assert Encodes(nodes, P[j], if j == 0 then Nil else At(P[j - 1].id)) == true;
        var leaf := LeftmostArc(nodes[searchingEdge].rightChild.idx, P[j].right, At(searchingEdge));
        arc := At(leaf);
      } else {
        LastLeftTurnIs(P, x, -1);
      }
    }

    /**
     * UpdateNeighbors on arc `x`: the nearest ancestor having `x` in its right
     * (left) subtree becomes its left (right) edge, and the arc next to `x` on
     * that side its left (right) arc; null where there is none.
     */
    method UpdateNeighbors(x: nat, ghost t: Shape)
      requires Encodes(nodes, t, Nil) && Distinct(t) && Full(t) && x in Ids(t) && x != t.id
      requires nodes[x].Arc?
      modifies this
      ensures nodes == WithNeighbours(old(nodes), t, x)
    {
      var leftEdge, leftArc := LeftNeighbour(x, t);
      var rightEdge, rightArc := RightNeighbour(x, t);
      nodes := nodes[x := nodes[x].(leftEdge := leftEdge, rightEdge := rightEdge,
                                    leftArc := leftArc, rightArc := rightArc)];
    }

    /**
     * CheckForIntersection on arc `x`: refreshes the arc's neighbours, then
     * tests its two bounding edges for a circle event.
     */
    method CheckForIntersection(x: nat, geo: Numerics, lineIn: real, ghost t: Shape)
      returns (hasIntersection: bool, intersection: RPoint, lineAtIntersection: real)
      requires Encodes(nodes, t, Nil) && Distinct(t) && Full(t) && x in Ids(t) && x != t.id
      requires nodes[x].Arc?
      modifies this
      ensures nodes == WithNeighbours(old(nodes), t, x)
      ensures (hasIntersection, intersection, lineAtIntersection) == Probe(old(nodes), t, x, geo, lineIn)
      ensures hasIntersection ==> LeftEdgeOf(t, x) != Nil && RightEdgeOf(t, x) != Nil
      ensures LeftEdgeOf(t, x) == Nil || RightEdgeOf(t, x) == Nil ==>
                !hasIntersection && intersection == Origin && lineAtIntersection == lineIn
      ensures LeftEdgeOf(t, x) != Nil && RightEdgeOf(t, x) != Nil ==>
                LeftEdgeOf(t, x).idx < |nodes| && RightEdgeOf(t, x).idx < |nodes| &&
                nodes[LeftEdgeOf(t, x).idx].Edge? && nodes[RightEdgeOf(t, x).idx].Edge? &&
                (hasIntersection, intersection, lineAtIntersection) ==
                CircleTest(nodes[LeftEdgeOf(t, x).idx], nodes[RightEdgeOf(t, x).idx], nodes[x].focus, geo, lineIn)
    {
      BoundsAreEdges(nodes, t, x);
      UpdateNeighbors(x, t);
      var arc := nodes[x];
      if arc.leftEdge == Nil || arc.rightEdge == Nil {
        hasIntersection, intersection, lineAtIntersection := false, Origin, lineIn;
      } else {
        var l, r := nodes[arc.leftEdge.idx], nodes[arc.rightEdge.idx];
        var mLeftEdge, mRightEdge := RayParameters(l, r, geo).0, RayParameters(l, r, geo).1;
        if Degenerate(l, r) {
          hasIntersection, intersection, lineAtIntersection := false, Origin, lineIn;
        } else {
          if r.direction.x == 0.0 {
            mLeftEdge, mRightEdge := geo.rayParameters(l, r).0, geo.rayParameters(l, r).1;
          } else if SameSlope(l, r) {
            mLeftEdge, mRightEdge := -1.0, -1.0;
          } else {
            mLeftEdge, mRightEdge := geo.rayParameters(l, r).0, geo.rayParameters(l, r).1;
          }
          if mLeftEdge < 0.0 || mRightEdge < 0.0 {
            hasIntersection, intersection, lineAtIntersection := false, Origin, lineIn;
          } else {
            hasIntersection := true;
            intersection := RPoint(l.start.x + mLeftEdge * l.direction.x, l.start.y + mLeftEdge * l.direction.y);
            var dist := geo.distance(intersection, arc.focus);
            lineAtIntersection := intersection.y - dist;
          }
        }
        assert RayParameters(l, r, geo) == (mLeftEdge, mRightEdge);
        ghost var c := CircleTest(l, r, arc.focus, geo, lineIn);
        assert hasIntersection == c.0;
        assert intersection == c.1;
        assert lineAtIntersection == c.2;
      }
    }

    /** The sibling of arc `x` is hung from the grandparent in the parent's slot. */
    method SpliceOut(x: nat)
      requires SpliceOk(nodes, x)
      modifies this
      ensures nodes == Splice(old(nodes), x)
    {
      var parent := nodes[x].parent.idx;
      var grandparent := nodes[parent].parent.idx;
      var sibling := if nodes[parent].leftChild == At(x) then nodes[parent].rightChild.idx
                     else nodes[parent].leftChild.idx;
      nodes := nodes[sibling := nodes[sibling].(parent := At(grandparent))];
      nodes := nodes[grandparent := Relink(nodes[grandparent], parent, sibling)];
    }

    /**
     * A fresh edge (sites `s1`, `s2`, start `start`, direction `dir`) takes over
     * the children and the parent slot of edge `o`; `isRoot` says o had no parent.
     */
    method ReplaceEdge(o: nat, s1: IPoint, s2: IPoint, start: RPoint, dir: RPoint) returns (isRoot: bool)
      requires RenameOk(nodes, o)
      modifies this
      ensures nodes == Rename(old(nodes), o, s1, s2, start, dir)
      ensures isRoot <==> old(nodes)[o].parent == Nil
    {
      var e := nodes[o];
      var n := |nodes|;
      var newEdge := NewEdgeDirected(s1, s2, start, dir, e.parent);
      newEdge := newEdge.(leftChild := e.leftChild, rightChild := e.rightChild);
      nodes := nodes + [newEdge];
      nodes := nodes[e.leftChild.idx := nodes[e.leftChild.idx].(parent := At(n))];
      nodes := nodes[e.rightChild.idx := nodes[e.rightChild.idx].(parent := At(n))];
      if e.parent != Nil {
        nodes := nodes[e.parent.idx := Relink(nodes[e.parent.idx], o, n)];
        isRoot := false;
      } else {
        isRoot := true;
      }
    }

    /**
     * Removes arc `x`, whose circle event fires at `intersection`: its sibling
     * takes its parent's place under the grandparent, the other bounding edge
     * is replaced by a fresh edge from `intersection` between the outer
     * neighbours' sites, and both bounding edges end at `intersection`.  The
     * root is the fresh edge when the other edge was the root.
     */
    method RemoveParabola(x: nat, intersection: RPoint, root: Ref) returns (newRoot: Ref)
      requires RemovalOk(nodes, x)
      modifies this
      ensures nodes == Removal(old(nodes), x, intersection)
      ensures newRoot == if Splice(old(nodes), x)[OtherEdge(old(nodes)[x]).idx].parent == Nil
                         then At(|old(nodes)|) else root
    {
      var a := nodes[x];
      var parent := a.parent.idx;
      SpliceOut(x);
      var otherEdge := OtherEdge(a).idx;
      var le, re := a.leftEdge.idx, a.rightEdge.idx;
      var oneSite := OtherSite(nodes[re], a.focus);
      var otherSite := OtherSite(nodes[le], a.focus);
      var dir := Plus(nodes[parent].direction, nodes[otherEdge].direction);
      var n := |nodes|;
      var isRoot := ReplaceEdge(otherEdge, oneSite, otherSite, intersection, dir);
      newRoot := if isRoot then At(n) else root;
      nodes := nodes[le := nodes[le].(end := intersection)];
      nodes := nodes[re := nodes[re].(end := intersection)];
    }
  }
}
