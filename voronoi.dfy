/**
 * The sweep engine (Voronoi.cs): the event queue, the beach-line tree held in
 * the arena, and the collected edges.  Each call of RunAlgorithm handles the
 * event at the head of the queue, or, once the queue is empty, clears the
 * tree and clips the collected edges.
 */
module Fortune {
  import opened Geometry
  import opened Nodes
  import opened Shapes
  import opened Edges
  import opened Beach
  import opened Queue
  import opened Steps
  import opened Finish

  /** The rounded positions of the input sites, in input order. */
  function RoundAll(ps: seq<RPoint>): (qs: seq<IPoint>)
    ensures |qs| == |ps| && forall k :: 0 <= k < |ps| ==> qs[k] == RoundPoint(ps[k])
  {
    if |ps| == 0 then [] else RoundAll(ps[..|ps| - 1]) + [RoundPoint(ps[|ps| - 1])]
  }

  class Voronoi {
    var finished: bool
    var amountSites: int
    var sitesLeft: int

    var events: seq<Event>
    var sites: seq<IPoint>
    /** The collected edges, as arena indices. */
    var completeEdges: seq<nat>
    var root: Ref
    /** The identity the next event object gets. */
    var nextId: nat
    /** The tree the arena holds from `root`. */
    ghost var shape: Shape

    const mapSize: int
    const cutBorder: int
    /** The objects of the beach line, by index. */
    const arena: Arena
    /** The floating-point geometry, left uninterpreted. */
    const geo: Numerics

    ghost function Snap(): Snapshot
      reads this, arena
    {
      Snapshot(arena.nodes, events, nextId)
    }

    /**
     * The queue is sorted with fresh, unique identities; arcs refer to handed
     * out identities; complements and collected edges are edges.  Before the
     * first site is handled there is no tree and only site events; afterwards
     * `root` is the root of `shape`, the tree the arena holds, and the queue
     * agrees with the beach line.
     */
    ghost predicate Valid()
      reads this, arena
    {
      Invariant(Snap(), shape, root, completeEdges, finished)
    }

    /**
     * The queued sites differ pairwise once rounded, and none falls on the
     * focus of an arc of the beach line, so no site is ever split off at the
     * focus above it (where the source's arithmetic has no answer).
     */
    ghost predicate Apart()
      reads this, arena
    {
      Steps.Apart(Snap(), shape)
    }

    /** Queues one site event per input site, in input order. */
    constructor (input: seq<RPoint>, mapSize: int, cutBorder: int, geo: Numerics)
      ensures Valid() && fresh(arena)
      ensures RoundedApart(input) ==> Apart()
      ensures this.mapSize == mapSize && this.cutBorder == cutBorder && this.geo == geo
      ensures events == SiteQueue(input, 0) && nextId == |input|
      ensures sites == RoundAll(input)
      ensures amountSites == sitesLeft == |input| && !finished
      ensures root == Nil && arena.nodes == [] && completeEdges == []
    {
      this.mapSize := mapSize;
      finished := false;
      this.cutBorder := cutBorder;
      this.geo := geo;
      arena := new Arena();
      events, sites, completeEdges, root, nextId := [], [], [], Nil, 0;
      amountSites, sitesLeft := 0, 0;
      shape := Leaf(0);
      new;
      for k := 0 to |input|
        invariant events == SiteQueue(input[..k], 0) && nextId == k && amountSites == k
        invariant sites == RoundAll(input[..k])
        invariant arena.nodes == [] && completeEdges == [] && root == Nil && !finished
      {
        SiteQueueStep(input, k);
        assert input[..k + 1][..k] == input[..k];
        var newEvent := InsertNewEvent(true, input[k], Nil, 0.0, 0);
        amountSites := amountSites + 1;
      }
      sitesLeft := amountSites;
      assert input[..|input|] == input;
      StartInvariant(input, Snap(), shape, root, completeEdges, finished);
    }

    /**
     * Queues a new event: a site event is due at its own y and its rounded
     * position joins `sites`; a circle event is due at `yOfEvent`.  It goes
     * before the first event from `startIndex` on that it does not step past.
     */
    method InsertNewEvent(isNewSite: bool, pos: RPoint, parabola: Ref, yOfEvent: real, startIndex: nat)
      returns (newEvent: Event)
      requires startIndex <= |events|
      modifies this`events, this`sites, this`nextId
      ensures var y := if isNewSite then pos.y else yOfEvent;
        newEvent == Event(old(nextId), pos, isNewSite, parabola, y) &&
        events == Insert(old(events), InsertIndex(old(events), startIndex, y, pos.x), newEvent)
      ensures nextId == old(nextId) + 1
      ensures sites == if isNewSite then old(sites) + [RoundPoint(pos)] else old(sites)
    {
      var y := yOfEvent;
      if isNewSite {
        y := pos.y;
        sites := sites + [RoundPoint(pos)];
      }
      var insertIdx := startIndex;
      var keepSearching := true;
      while insertIdx < |events| && keepSearching
        invariant startIndex <= insertIdx <= |events|
        invariant keepSearching ==> InsertIndex(events, insertIdx, y, pos.x) == InsertIndex(events, startIndex, y, pos.x)
        invariant !keepSearching ==> insertIdx == InsertIndex(events, startIndex, y, pos.x)
        decreases |events| - insertIdx, keepSearching
      {
        if StepsPast(events[insertIdx], y, pos.x) {
          insertIdx := insertIdx + 1;
        } else {
          keepSearching := false;
        }
      }
      newEvent := Event(nextId, pos, isNewSite, parabola, y);
      nextId := nextId + 1;
      events := Insert(events, insertIdx, newEvent);
    }

    /**
     * CheckForIntersectionEvent on arc `x` of tree `t`: drops the arc's
     * pending event, refreshes its neighbours, and queues (from index 1) a
     * circle event for it when its edges meet in a circle whose rounded
     * bottom is not above the rounded sweep line; the arc refers to that event
     * or to none.
     */
    method CheckForIntersectionEvent(x: nat, sweepline: real, ghost t: Shape)
      requires RecheckOk(Snap(), t, x)
      modifies this`events, this`nextId, this`sites, arena
      ensures Snap() == Recheck(old(Snap()), t, x, geo, sweepline) && sites == old(sites)
    {
      ghost var s := Snap();
      if arena.nodes[x].intersecEvent != NoEvent {
        events := RemoveFirst(events, arena.nodes[x].intersecEvent.id);
      }
      assert events == Dropped(s.events, s.nodes[x].intersecEvent);
      var newIntersection, intersection, yOfIntersection := arena.CheckForIntersection(x, geo, 0.0, t);
      if newIntersection && RoundToInt(yOfIntersection) <= RoundToInt(sweepline) {
        var newEvent := InsertNewEvent(false, intersection, At(x), yOfIntersection, 1);
        arena.Store(x, arena.nodes[x].(intersecEvent := EventId(newEvent.id)));
      } else {
        arena.Store(x, arena.nodes[x].(intersecEvent := NoEvent));
      }
    }
  
    /**
     * The search for the arc above a new site at x = `sx` with the sweep line
     * at `y`: from the root, an edge whose current end is at or left of `sx`
     * sends the search right, any other edge sends it left.
     */
    method ParabolaAbove(y: real, sx: real) returns (p: nat)
      requires root == At(shape.id) && Encodes(arena.nodes, shape, Nil) && Full(shape)
      ensures p == Locate(arena.nodes, shape, y, sx, geo)
      ensures p < |arena.nodes| && arena.nodes[p].Arc? && p in Leaves(shape)
    {
      p := root.idx;
      ghost var sub, up := shape, Nil;
      while arena.nodes[p].Edge?
        invariant Encodes(arena.nodes, sub, up) && Full(sub) && p == sub.id
        invariant Locate(arena.nodes, sub, y, sx, geo) == Locate(arena.nodes, shape, y, sx, geo)
        decreases sub
      {
        var edge := arena.nodes[p];
        var xOfEdge := geo.currentEndX(edge, y);
        if xOfEdge <= sx {
          sub, up := sub.right, At(p);
          p := edge.rightChild.idx;
        } else {
          sub, up := sub.left, At(p);
          p := edge.leftChild.idx;
        }
      }
      LocateArc(arena.nodes, sub, up, y, sx, geo);
    }

    /**
     * HandleSiteEvent for the site event `eve` at the head of the queue:
     * without a tree it seeds the beach line, otherwise it splits the arc
     * above the site, which no arc's focus coincides with.  The step
     * invariant then holds on the new tree.
     */
    method HandleSiteEvent(eve: Event)
      requires events != [] && eve == events[0] && eve.isNewSite
      requires root == Nil ==> arena.nodes == [] && SeedOk(events)
      requires root != Nil ==>
        root == At(shape.id) && Encodes(arena.nodes, shape, Nil) == true && Ready(Snap(), shape) == true &&
        FociApart(arena.nodes, shape, events)
      modifies this`events, this`root, this`shape, this`nextId, this`sites, arena
      ensures sites == old(sites)
      ensures old(root) == Nil ==>
        root == At(0) && shape == Leaf(0) && nextId == old(nextId) &&
        (arena.nodes, events) == Seeded([NewArc(RoundPoint(eve.pos), Nil)], 0, old(events), mapSize)
      ensures old(root) != Nil ==>
        (Snap(), shape) == SiteStep(old(Snap()), old(shape), eve, geo) && root == At(shape.id)
    {
      if root == Nil {
        SeedBeachLine(eve);
      } else {
        SplitArcAbove(eve);
      }
    }

    /**
     * HandleIntersecEvent for the circle event `eve` at the head of the
     * queue: the arc it belongs to refreshes its neighbour fields, both of
     * its bounding edges are collected as complete, the arc is removed at the
     * circle point, and its former neighbours are checked for circle events
     * against the event's own y.
     */
    method HandleIntersecEvent(eve: Event, ghost t': Shape)
      requires eve.arc.At? && |events| >= 1 && Removable(Snapshot(arena.nodes, events, nextId), shape, eve.arc.idx, eve.pos, t') == true
      requires root == At(shape.id)
      modifies this`completeEdges, this`root, this`shape, this`events, this`nextId, this`sites, arena
      ensures eve.arc.At? && shape == t' && root == At(shape.id) && sites == old(sites)
      ensures Snapshot(arena.nodes, events, nextId) ==
        CircleStep(Snapshot(old(arena.nodes), old(events), old(nextId)), old(shape), shape, eve.arc.idx, eve.pos, geo, eve.y)
      ensures var x := eve.arc.idx; var N1 := WithNeighbours(old(arena.nodes), old(shape), x);
        completeEdges == old(completeEdges) + [N1[x].leftEdge.idx, N1[x].rightEdge.idx]
    {
      ghost var s, t := Snapshot(arena.nodes, events, nextId), shape;
      var x := eve.arc.idx;
      var leftArc, rightArc := RemoveArc(x, eve.pos, t');
      RecheckNeighbours(leftArc, rightArc, eve.y, s, t, x, eve.pos);
    }

    /**
     * The former neighbours `x1` and `x2` of the arc `x` just removed at `pos`
     * are checked for circle events against `sweepline`; `s` and `t` are the
     * state and tree before the removal.
     */
    method RecheckNeighbours(x1: nat, x2: nat, sweepline: real, ghost s: Snapshot, ghost t: Shape, ghost x: nat,
                             ghost pos: RPoint)
      requires |s.events| >= 1 && Removable(s, t, x, pos, shape) == true
      requires var N1 := WithNeighbours(s.nodes, t, x);
        arena.nodes == Removal(N1, x, pos) && N1[x].leftArc == At(x1) && N1[x].rightArc == At(x2)
      requires events == s.events && nextId == s.nextId
      modifies this`events, this`nextId, this`sites, arena
      ensures Snapshot(arena.nodes, events, nextId) == CircleStep(s, t, shape, x, pos, geo, sweepline)
      ensures sites == old(sites)
    {
      CheckOuterParts(x1, x2, sweepline, shape);
      CircleDone(s, t, shape, x, pos, geo, sweepline);
    }

    /**
     * The arc `x` of the beach line refreshes its neighbour fields, both of
     * its bounding edges are collected as complete, and it is removed at
     * `pos`; `t'` is the tree the arena then holds.  Its former neighbours
     * are returned.
     */
    method RemoveArc(x: nat, pos: RPoint, ghost t': Shape) returns (leftArc: nat, rightArc: nat)
      requires RemovalReady(arena.nodes, shape, x, t') == true && root == At(shape.id)
      modifies this`completeEdges, this`root, this`shape, arena
      ensures var N1 := WithNeighbours(old(arena.nodes), old(shape), x);
        arena.nodes == Removal(N1, x, pos) && N1[x].leftArc == At(leftArc) && N1[x].rightArc == At(rightArc) &&
        completeEdges == old(completeEdges) + [N1[x].leftEdge.idx, N1[x].rightEdge.idx]
      ensures shape == t' && root == At(t'.id)
    {
      arena.UpdateNeighbors(x, shape);
      ghost var N1 := arena.nodes;
      var leftEdge, rightEdge := arena.nodes[x].leftEdge.idx, arena.nodes[x].rightEdge.idx;
      completeEdges := completeEdges + [leftEdge, rightEdge];
      root := arena.RemoveParabola(x, pos, root);
      shape := t';
      RemovalKeepsArc(N1, x, pos);
      leftArc := arena.nodes[x].leftArc.idx;
      rightArc := arena.nodes[x].rightArc.idx;
    }

    /**
     * The first site becomes the root arc.  While the first two queued sites
     * are equally high, the current arc (whose focus is the first of them) is
     * split at the second, both new edges get the two sites and a start
     * between them above the map, the new middle arc becomes current, and the
     * first event leaves the queue.
     */
    method SeedBeachLine(eve: Event)
      requires root == Nil && arena.nodes == [] && events != [] && eve == events[0] && SeedOk(events)
      modifies this`events, this`root, this`shape, arena
      ensures root == At(0) && shape == Leaf(0)
      ensures (arena.nodes, events) == Seeded([NewArc(RoundPoint(eve.pos), Nil)], 0, old(events), mapSize)
    {
      var first := arena.Allocate(NewArc(RoundPoint(eve.pos), Nil));
      root := At(first);
      shape := Leaf(first);
      var nextNode: nat := first;
      ghost var N0, q0 := arena.nodes, events;
      assert N0 == [NewArc(RoundPoint(eve.pos), Nil)];
      while events[0].y == events[1].y
        invariant SeedOk(events) && nextNode < |arena.nodes| && arena.nodes[nextNode].Arc?
        invariant arena.nodes[nextNode].focus == RoundPoint(events[0].pos) && ParentOk(arena.nodes, nextNode)
        invariant Seeded(arena.nodes, nextNode, events, mapSize) == Seeded(N0, 0, q0, mapSize)
        invariant root == At(0) && shape == Leaf(0)
        decreases |events|
      {
        ghost var N, q := arena.nodes, events;
        SeedDistinct(q);
        var newParabola := SeedRoundStep(nextNode, events[0], events[1]);
        SeedUnfold(N, nextNode, q, arena.nodes, mapSize);
        nextNode := newParabola;
        events := events[1..];
      }
      assert Seeded(arena.nodes, nextNode, events, mapSize) == (arena.nodes, events);
    }

    /**
     * One round of the seeding loop: arc `cur` is split at the site of `b`
     * and both new edges get the two sites and the start between them.
     */
    method SeedRoundStep(cur: nat, a: Event, b: Event) returns (newParabola: nat)
      requires cur < |arena.nodes| && arena.nodes[cur].Arc? && ParentOk(arena.nodes, cur)
      requires arena.nodes[cur].focus == RoundPoint(a.pos) && RoundPoint(a.pos) != RoundPoint(b.pos)
      modifies arena
      ensures newParabola == |old(arena.nodes)| + 3
      ensures arena.nodes == SeedRound(old(arena.nodes), cur, a, b, mapSize)
    {
      ghost var N := arena.nodes;
      ghost var n := |N|;
      var newStart := RPoint(a.pos.x + (b.pos.x - a.pos.x) / 2.0, 10.0 * mapSize as real);
      var newLeftEdge := arena.ReplaceWithNewNodes(cur, b.y, RoundPoint(b.pos));
      ghost var N1 := arena.nodes;
      var leftParabola := arena.nodes[newLeftEdge].leftChild.idx;
      var rightEdge := arena.nodes[newLeftEdge].rightChild.idx;
      newParabola := arena.nodes[rightEdge].leftChild.idx;
      var rightParabola := arena.nodes[rightEdge].rightChild.idx;
      assert leftParabola == n + 1 && rightEdge == n + 2 && newParabola == n + 3 && rightParabola == n + 4;
      var e1 := UpdateMembers(arena.nodes[newLeftEdge], arena.nodes[leftParabola].focus,
                              arena.nodes[newParabola].focus, newStart);
      arena.Store(newLeftEdge, e1);
      ghost var N2 := arena.nodes;
      var e2 := UpdateMembers(arena.nodes[rightEdge], arena.nodes[newParabola].focus,
                              arena.nodes[rightParabola].focus, newStart);
      arena.Store(rightEdge, e2);
    }

    /**
     * Arc `p` loses its pending event and is replaced by an edge pair that
     * starts on it straight above `site`.
     */
    method SplitArc(p: nat, site: IPoint) returns (newLeftEdge: nat)
      requires p < |arena.nodes| && arena.nodes[p].Arc? && arena.nodes[p].focus != site
      requires ParentOk(arena.nodes, p)
      modifies this`events, arena
      ensures newLeftEdge == |old(arena.nodes)|
      ensures Snap() == Splitting(old(Snap()), p, site, geo)
    {
      var parabola := arena.nodes[p];
      if parabola.intersecEvent != NoEvent {
        events := RemoveFirst(events, parabola.intersecEvent.id);
      }
      var yOfIntersection := YOfIntersection(parabola.focus, site, geo);
      newLeftEdge := arena.ReplaceWithNewNodes(p, yOfIntersection, site);
    }

    /** Both outer parts `x1` and then `x2` of a split arc are checked for circle events. */
    method CheckOuterParts(x1: nat, x2: nat, sweepline: real, ghost t: Shape)
      requires StepInv(arena.nodes, t, events, nextId) && Encodes(arena.nodes, t, Nil) && Distinct(t) && Full(t)
      requires x1 in Leaves(t) && x2 in Leaves(t) && x1 != t.id && x2 != t.id
      modifies this`events, this`nextId, this`sites, arena
      ensures Snap() == Recheck(Recheck(old(Snap()), t, x1, geo, sweepline), t, x2, geo, sweepline)
      ensures sites == old(sites)
    {
      RecheckBoth(Snap(), t, x1, x2, geo, sweepline);
      CheckForIntersectionEvent(x1, sweepline, t);
      CheckForIntersectionEvent(x2, sweepline, t);
    }

    /** The arc above the site of `eve` is found, split there, and its outer parts rechecked. */
    method SplitArcAbove(eve: Event)
      requires Ready(Snap(), shape) == true && Encodes(arena.nodes, shape, Nil) == true
      requires root == At(shape.id) && eve == events[0] && eve.isNewSite && FociApart(arena.nodes, shape, events)
      modifies this`events, this`root, this`shape, this`nextId, this`sites, arena
      ensures sites == old(sites)
      ensures (Snap(), shape) == SiteStep(old(Snap()), old(shape), eve, geo) && root == At(shape.id)
    {
      ghost var s, t := Snap(), shape;
      ReadyHolds(s, t);
      var p := ParabolaAbove(eve.y, eve.pos.x);
      var leftParabola, rightParabola := SplitAndCheck(eve, p);
      SiteStepAt(s, t, eve, geo, p, leftParabola, rightParabola);
    }

    /**
     * Arc `p`, found above the site of `eve`, loses its pending event and is split at the site; the root moves when it was
     * that arc, and both outer parts are checked for circle events against
     * the rounded sweep line.
     */
    method SplitAndCheck(eve: Event, p: nat) returns (leftParabola: nat, rightParabola: nat)
      requires Ready(Snap(), shape) && root == At(shape.id) && eve == events[0] && eve.isNewSite
      requires p == Locate(arena.nodes, shape, eve.y, eve.pos.x, geo) && FociApart(arena.nodes, shape, events)
      modifies this`events, this`root, this`shape, this`nextId, this`sites, arena
      ensures p < |old(arena.nodes)| && old(arena.nodes)[p].Arc? && ParentOk(old(arena.nodes), p)
      ensures old(arena.nodes)[p].focus != RoundPoint(eve.pos)
      ensures leftParabola == |old(arena.nodes)| + 1 && rightParabola == |old(arena.nodes)| + 4
      ensures shape == Subst(old(shape), p, SplitShape(|old(arena.nodes)|))
      ensures var sweepline := RoundToInt(eve.y) as real;
        Snap() == Recheck(Recheck(Splitting(old(Snap()), p, RoundPoint(eve.pos), geo), shape, leftParabola, geo, sweepline),
                          shape, rightParabola, geo, sweepline)
      ensures root == At(shape.id) && sites == old(sites)
    {
      ghost var s, t := Snap(), shape;
      var site := RoundPoint(eve.pos);
      SiteFound(s, t, eve, geo, p);
      SitePlan(s, t, p, site, geo);
      SitePlanRoot(s, t, p, site, geo);
      ghost var n := |s.nodes|;
      ghost var t1 := Subst(t, p, SplitShape(n));
      ghost var s1 := Splitting(s, p, site, geo);
      var newLeftEdge := SplitArc(p, site);
      assert arena.nodes == s1.nodes && events == s1.events && nextId == s1.nextId;
      if arena.nodes[root.idx].Arc? {
        root := At(newLeftEdge);
      }
      shape := t1;
      var sweepline := RoundToInt(eve.y) as real;
      leftParabola := arena.nodes[newLeftEdge].leftChild.idx;
      rightParabola := arena.nodes[arena.nodes[newLeftEdge].rightChild.idx].rightChild.idx;
      assert leftParabola == n + 1 && rightParabola == n + 4;
      CheckOuterParts(leftParabola, rightParabola, sweepline, t1);
    }

    /**
     * ClearTree on the subtree `t` rooted at `node`: an edge clears its right
     * subtree and cuts the link to it, then the same on the left, then is
     * visited (VisitEdge).  An arc is left alone.
     */
    method ClearTree(node: nat, ghost t: Shape, ghost par: Ref)
      requires Encodes(arena.nodes, t, par) && Distinct(t) && ComplementsOk(arena.nodes) && node == t.id
      modifies this`completeEdges, arena
      ensures (arena.nodes, completeEdges) == Clear(old(arena.nodes), old(completeEdges), t, par, geo, mapSize)
      decreases t
    {
      if arena.nodes[node].Edge? {
        ghost var N, CE := arena.nodes, completeEdges;
        if t.Fork? {
          ClearForkIs(N, CE, t, par, geo, mapSize);
        }
        if arena.nodes[node].rightChild != Nil {
          ClearTree(arena.nodes[node].rightChild.idx, t.right, At(node));
          RecomplementedLinks(N[node], arena.nodes[node]);
          arena.Store(node, arena.nodes[node].(rightChild := Nil));
        }
        if arena.nodes[node].leftChild != Nil {
          ghost var N1 := arena.nodes;
          ClearTree(arena.nodes[node].leftChild.idx, t.left, At(node));
          RecomplementedLinks(N1[node], arena.nodes[node]);
          arena.Store(node, arena.nodes[node].(leftChild := Nil));
        }
        VisitEdge(node);
      }
    }

    /**
     * The visit of edge `i` by ClearTree: an edge starting in the map gets
     * the end where its ray leaves the area and is collected; otherwise it
     * and its complement forget each other.
     */
    method VisitEdge(i: nat)
      requires i < |arena.nodes| && arena.nodes[i].Edge? && ComplementsOk(arena.nodes)
      modifies this`completeEdges, arena
      ensures (arena.nodes, completeEdges) == Visit(old(arena.nodes), old(completeEdges), i, geo, mapSize)
    {
      var edge := arena.nodes[i];
      if edge.start.x <= mapSize as real && edge.start.x >= 0.0 && edge.start.y <= mapSize as real && edge.start.y >= 0.0 {
        arena.Store(i, edge.(end := geo.untilBorder(edge.start, edge.direction)));
        completeEdges := completeEdges + [i];
      } else if edge.complement != Nil {
        var c := edge.complement.idx;
        arena.Store(c, arena.nodes[c].(complement := Nil));
        arena.Store(i, arena.nodes[i].(complement := Nil));
      }
    }

    /**
     * ShortenEdges: the first loop shortens each collected edge to the area
     * and lists the ones to forget (Shorten); the second makes each of those
     * forgotten by its complement and removes it from the collected edges.
     */
    method ShortenEdges()
      requires EdgesOk(arena.nodes, completeEdges) && ComplementsOk(arena.nodes)
      modifies this`completeEdges, arena
      ensures (arena.nodes, completeEdges) == Shortened(old(arena.nodes), old(completeEdges), geo, mapSize, cutBorder)
    {
      ghost var N := arena.nodes;
      var toForget := ShortenEach();
      EndsOnlyKeeps(N, arena.nodes);
      ForgetEach(toForget);
    }

    /** The first loop of ShortenEdges: each collected edge shortened in turn, and the edges to forget. */
    method ShortenEach() returns (toForget: seq<nat>)
      requires EdgesOk(arena.nodes, completeEdges)
      modifies arena
      ensures (arena.nodes, toForget) == Pass1(old(arena.nodes), completeEdges, geo, mapSize, cutBorder)
    {
      ghost var N := arena.nodes;
      toForget := [];
      for k := 0 to |completeEdges|
        invariant EdgesOk(N, completeEdges[..k])
        invariant (arena.nodes, toForget) == Pass1(N, completeEdges[..k], geo, mapSize, cutBorder)
      {
        Pass1Step(N, completeEdges, k, geo, mapSize, cutBorder);
        var i := completeEdges[k];
        ghost var p := (arena.nodes, toForget);
        ghost var e := Shorten(p.0[i], geo, mapSize, cutBorder);
        var forget := ShortenEdge(i);
        if forget {
          toForget := toForget + [i];
        }
        assert arena.nodes == p.0[i := e.0];
        assert toForget == p.1 + if e.1 then [i] else [];
      }
      assert completeEdges[..|completeEdges|] == completeEdges;
    }

    /** The second loop of ShortenEdges: each edge to forget leaves its complement and the collected edges. */
    method ForgetEach(toForget: seq<nat>)
      requires ComplementsOk(arena.nodes)
      requires forall k :: 0 <= k < |toForget| ==> toForget[k] < |arena.nodes| && arena.nodes[toForget[k]].Edge?
      modifies this`completeEdges, arena
      ensures (arena.nodes, completeEdges) == Pass2(old(arena.nodes), old(completeEdges), toForget)
    {
      ghost var P, CE := arena.nodes, completeEdges;
      for k := 0 to |toForget|
        invariant (arena.nodes, completeEdges) == Pass2(P, CE, toForget[..k])
      {
        assert toForget[..k + 1][..k] == toForget[..k];
        var i := toForget[k];
        var edge := arena.nodes[i];
        if edge.complement != Nil {
          var c := edge.complement.idx;
          arena.Store(c, arena.nodes[c].(complement := Nil));
        }
        completeEdges := RemoveOne(completeEdges, i);
      }
      assert toForget[..|toForget|] == toForget;
    }

    /**
     * One edge of the first loop of ShortenEdges: the margin tests on both
     * ends, then either the verdict to forget it or the clipping and the
     * tests again.
     */
    method ShortenEdge(i: nat) returns (forget: bool)
      requires i < |arena.nodes| && arena.nodes[i].Edge?
      modifies arena
      ensures var r := Shorten(old(arena.nodes)[i], geo, mapSize, cutBorder);
        arena.nodes == old(arena.nodes)[i := r.0] && forget == r.1
    {
      var edge := arena.nodes[i];
      var startAbove, startBelow := Above(edge.start, mapSize, cutBorder), Below(edge.start, cutBorder);
      var startLeft, startRight := LeftOf(edge.start, cutBorder), RightOf(edge.start, mapSize, cutBorder);
      var endAbove, endBelow := Above(edge.end, mapSize, cutBorder), Below(edge.end, cutBorder);
      var endLeft, endRight := LeftOf(edge.end, cutBorder), RightOf(edge.end, mapSize, cutBorder);
      if (startAbove && endAbove) || (startBelow && endBelow) || (startLeft && endLeft) || (startRight && endRight) {
        forget := true;
      } else {
        if startAbove || startBelow || startLeft || startRight {
          edge := edge.(start := geo.untilBorder(edge.end, Neg(edge.direction)));
        }
        if endAbove || endBelow || endLeft || endRight {
          edge := edge.(end := geo.untilBorder(edge.start, edge.direction));
        }
        startAbove, startBelow := Above(edge.start, mapSize, cutBorder), Below(edge.start, cutBorder);
        startLeft, startRight := LeftOf(edge.start, cutBorder), RightOf(edge.start, mapSize, cutBorder);
        endAbove, endBelow := Above(edge.end, mapSize, cutBorder), Below(edge.end, cutBorder);
        endLeft, endRight := LeftOf(edge.end, cutBorder), RightOf(edge.end, mapSize, cutBorder);
        forget := (startAbove || startBelow || startLeft || startRight) && (endAbove || endBelow || endLeft || endRight);
        arena.Store(i, edge);
      }
    }

    /**
     * RunAlgorithm: with events queued it handles the head event (a site
     * event also counts down `sitesLeft`) and then drops the head of the
     * queue; with none left it clears the tree from the root, clips the
     * collected edges and marks the diagram finished.  Each call keeps the
     * invariant and the sites apart.
     */
    method RunAlgorithm()
      requires Valid() && Apart()
      requires root == Nil && events != [] ==> SeedOk(events)
      modifies this, arena
      ensures Valid() && Apart()
      ensures sites == old(sites) && amountSites == old(amountSites)
      ensures old(events) == [] ==>
        finished && events == [] && root == old(root) && nextId == old(nextId) && sitesLeft == old(sitesLeft) &&
        (old(root) == Nil ==> arena.nodes == [] && completeEdges == []) &&
        (old(root) != Nil ==>
           shape == Stump(old(shape)) &&
           (arena.nodes, completeEdges) == Finale(old(arena.nodes), old(completeEdges), old(shape), geo, mapSize, cutBorder))
      ensures old(events) != [] ==> finished == old(finished)
      ensures old(events) != [] && old(events[0]).isNewSite && old(root) == Nil ==>
        var r := Seeded([NewArc(RoundPoint(old(events[0]).pos), Nil)], 0, old(events), mapSize);
        root == At(0) && shape == Leaf(0) && nextId == old(nextId) && completeEdges == [] &&
        sitesLeft == old(sitesLeft) - 1 && arena.nodes == r.0 && |r.1| >= 1 && events == r.1[1..]
      ensures old(events) != [] && old(events[0]).isNewSite && old(root) != Nil ==>
        var r := SiteStep(old(Snap()), old(shape), old(events[0]), geo);
        arena.nodes == r.0.nodes && nextId == r.0.nextId && |r.0.events| >= 1 && events == r.0.events[1..] &&
        shape == r.1 && root == At(shape.id) && completeEdges == old(completeEdges) && sitesLeft == old(sitesLeft) - 1
      ensures old(events) != [] && !old(events[0]).isNewSite ==>
        var e := old(events[0]);
        e.arc.At? && sitesLeft == old(sitesLeft) && root == At(shape.id) &&
        var r := CircleStep(old(Snap()), old(shape), shape, e.arc.idx, e.pos, geo, e.y);
        arena.nodes == r.nodes && nextId == r.nextId && |r.events| >= 1 && events == r.events[1..] &&
        e.arc.idx in Ids(old(shape)) && BoundedArc(old(shape), e.arc.idx) &&
        completeEdges == old(completeEdges) + Bounds(old(shape), e.arc.idx)
    {
      if |events| > 0 {
        NextEvent();
      } else {
        Finish();
      }
    }

    /** RunAlgorithm with events queued: the head event is handled and dropped. */
    method NextEvent()
      requires Valid() && Apart() && events != []
      requires root == Nil ==> SeedOk(events)
      modifies this`completeEdges, this`root, this`shape, this`events, this`nextId, this`sites, this`sitesLeft, arena
      ensures Valid() && Apart()
      ensures sites == old(sites)
      ensures old(events[0]).isNewSite && old(root) == Nil ==>
        var r := Seeded([NewArc(RoundPoint(old(events[0]).pos), Nil)], 0, old(events), mapSize);
        root == At(0) && shape == Leaf(0) && nextId == old(nextId) && completeEdges == [] &&
        sitesLeft == old(sitesLeft) - 1 && arena.nodes == r.0 && |r.1| >= 1 && events == r.1[1..]
      ensures old(events[0]).isNewSite && old(root) != Nil ==>
        var r := SiteStep(old(Snap()), old(shape), old(events[0]), geo);
        arena.nodes == r.0.nodes && nextId == r.0.nextId && |r.0.events| >= 1 && events == r.0.events[1..] &&
        shape == r.1 && root == At(shape.id) && completeEdges == old(completeEdges) && sitesLeft == old(sitesLeft) - 1
      ensures !old(events[0]).isNewSite ==>
        var e := old(events[0]);
        e.arc.At? && sitesLeft == old(sitesLeft) && root == At(shape.id) &&
        var r := CircleStep(old(Snap()), old(shape), shape, e.arc.idx, e.pos, geo, e.y);
        arena.nodes == r.nodes && nextId == r.nextId && |r.events| >= 1 && events == r.events[1..] &&
        e.arc.idx in Ids(old(shape)) && BoundedArc(old(shape), e.arc.idx) &&
        completeEdges == old(completeEdges) + Bounds(old(shape), e.arc.idx)
    {
      var eve := events[0];
      if eve.isNewSite {
        SiteTurn(eve);
      } else {
        CircleTurn(eve);
      }
    }

    /** The site branch of RunAlgorithm: HandleSiteEvent, `sitesLeft` down by one, the head dropped. */
    method SiteTurn(eve: Event)
      requires Valid() && Apart() && events != [] && eve == events[0] && eve.isNewSite
      requires root == Nil ==> SeedOk(events)
      modifies this`events, this`root, this`shape, this`nextId, this`sites, this`sitesLeft, arena
      ensures Valid() && Apart()
      ensures sites == old(sites)
      ensures old(root) == Nil ==>
        var r := Seeded([NewArc(RoundPoint(eve.pos), Nil)], 0, old(events), mapSize);
        root == At(0) && shape == Leaf(0) && nextId == old(nextId) &&
        sitesLeft == old(sitesLeft) - 1 && arena.nodes == r.0 && |r.1| >= 1 && events == r.1[1..]
      ensures old(root) != Nil ==>
        var r := SiteStep(old(Snap()), old(shape), eve, geo);
        arena.nodes == r.0.nodes && nextId == r.0.nextId && |r.0.events| >= 1 && events == r.0.events[1..] &&
        shape == r.1 && root == At(shape.id) && sitesLeft == old(sitesLeft) - 1
    {
      if root == Nil {
        SeedReady(Snap(), shape, root, completeEdges, finished, mapSize);
        SeedAndDrop(eve);
      } else {
        SplitReady(Snap(), shape, root, completeEdges, finished, eve, geo);
        SplitAndDrop(eve);
      }
    }

    /**
     * SiteTurn on the first site, once the invariant and the apartness are
     * known to hold after the seeding with the head dropped (the facts kept
     * whole, `== true`).
     */
    method SeedAndDrop(eve: Event)
      requires events != [] && eve == events[0] && eve.isNewSite && root == Nil && arena.nodes == [] && SeedOk(events)
      requires var r := Seeded([NewArc(RoundPoint(eve.pos), Nil)], 0, events, mapSize);
        |r.1| >= 1 && Invariant(Snapshot(r.0, r.1[1..], nextId), Leaf(0), At(0), completeEdges, finished) == true &&
        Steps.Apart(Snapshot(r.0, r.1[1..], nextId), Leaf(0)) == true
      modifies this`events, this`root, this`shape, this`nextId, this`sites, this`sitesLeft, arena
      ensures Valid() && Apart() && sites == old(sites)
      ensures var r := Seeded([NewArc(RoundPoint(eve.pos), Nil)], 0, old(events), mapSize);
        root == At(0) && shape == Leaf(0) && nextId == old(nextId) &&
        sitesLeft == old(sitesLeft) - 1 && arena.nodes == r.0 && |r.1| >= 1 && events == r.1[1..]
    {
      ghost var r := Seeded([NewArc(RoundPoint(eve.pos), Nil)], 0, events, mapSize);
      SeedBeachLine(eve);
      assert arena.nodes == r.0 && events == r.1;
      sitesLeft := sitesLeft - 1;
      DropHead();
    }

    /**
     * SiteTurn on a beach line, once the invariant and the apartness are
     * known to hold after the split with the head dropped (the facts kept
     * whole, `== true`).
     */
    method SplitAndDrop(eve: Event)
      requires events != [] && eve == events[0] && eve.isNewSite
      requires root == At(shape.id) && root != Nil && Encodes(arena.nodes, shape, Nil) == true && Ready(Snap(), shape) == true
      requires FociApart(arena.nodes, shape, events)
      requires var r := SiteStep(Snap(), shape, eve, geo);
        |r.0.events| >= 1 &&
        Invariant(Snapshot(r.0.nodes, r.0.events[1..], r.0.nextId), r.1, At(r.1.id), completeEdges, finished) == true &&
        Steps.Apart(Snapshot(r.0.nodes, r.0.events[1..], r.0.nextId), r.1) == true
      modifies this`events, this`root, this`shape, this`nextId, this`sites, this`sitesLeft, arena
      ensures Valid() && Apart()
      ensures sites == old(sites)
      ensures var r := SiteStep(old(Snap()), old(shape), eve, geo);
        arena.nodes == r.0.nodes && nextId == r.0.nextId && |r.0.events| >= 1 && events == r.0.events[1..] &&
        shape == r.1 && root == At(shape.id) && sitesLeft == old(sitesLeft) - 1
    {
      HandleSiteEvent(eve);
      sitesLeft := sitesLeft - 1;
      DropHead();
    }

    /** The circle branch of RunAlgorithm: HandleIntersecEvent, then the head dropped. */
    method CircleTurn(eve: Event)
      requires Valid() && Apart() && events != [] && eve == events[0] && !eve.isNewSite
      modifies this`completeEdges, this`root, this`shape, this`events, this`nextId, this`sites, arena
      ensures Valid() && Apart() && sites == old(sites) && eve.arc.At? && root == At(shape.id)
      ensures var r := CircleStep(old(Snap()), old(shape), shape, eve.arc.idx, eve.pos, geo, eve.y);
        arena.nodes == r.nodes && nextId == r.nextId && |r.events| >= 1 && events == r.events[1..]
      ensures eve.arc.idx in Ids(old(shape)) && BoundedArc(old(shape), eve.arc.idx)
      ensures completeEdges == old(completeEdges) + Bounds(old(shape), eve.arc.idx)
    {
      ghost var t' := CircleReady(Snap(), shape, root, completeEdges, finished, geo);
      HandleAndDrop(eve, t');
    }

    /**
     * CircleTurn once the arc of `eve` is known to be removable, leaving the
     * tree `t'`, and the invariant and the apartness are known to hold after
     * the step.  The facts handed between the steps are kept whole
     * (`== true`) so that the verifier does not take them apart at each call.
     */
    method HandleAndDrop(eve: Event, ghost t': Shape)
      requires eve.arc.At? && events != [] && eve == events[0] && root == At(shape.id) && !finished
      requires Removable(Snap(), shape, eve.arc.idx, eve.pos, t') == true
      requires var x := eve.arc.idx;
        var N1 := WithNeighbours(arena.nodes, shape, x);
        var r := CircleStep(Snap(), shape, t', x, eve.pos, geo, eve.y);
        |r.events| >= 1 &&
        Invariant(Snapshot(r.nodes, r.events[1..], r.nextId), t', At(t'.id),
                  completeEdges + [N1[x].leftEdge.idx, N1[x].rightEdge.idx], false) == true &&
        Steps.Apart(Snapshot(r.nodes, r.events[1..], r.nextId), t') == true
      modifies this`completeEdges, this`root, this`shape, this`events, this`nextId, this`sites, arena
      ensures Valid() && Apart() && sites == old(sites) && eve.arc.At? && root == At(shape.id)
      ensures var r := CircleStep(old(Snap()), old(shape), shape, eve.arc.idx, eve.pos, geo, eve.y);
        arena.nodes == r.nodes && nextId == r.nextId && |r.events| >= 1 && events == r.events[1..]
      ensures eve.arc.idx in Ids(old(shape)) && BoundedArc(old(shape), eve.arc.idx)
      ensures completeEdges == old(completeEdges) + Bounds(old(shape), eve.arc.idx)
    {
      RemovableBounds(Snap(), shape, eve.arc.idx, eve.pos, t');
      HandleIntersecEvent(eve, t');
      ghost var r := CircleStep(old(Snap()), old(shape), t', eve.arc.idx, eve.pos, geo, eve.y);
      assert arena.nodes == r.nodes && events == r.events && nextId == r.nextId;
      DropHead();
    }

    /**
     * The head of the queue dropped, once the invariant and the apartness
     * are known to hold without it.  The facts are taken whole (`== true`) so that it is not
     * taken apart at the call.
     */
    method DropHead()
      requires |events| >= 1
      requires Invariant(Snapshot(arena.nodes, events[1..], nextId), shape, root, completeEdges, finished) == true
      requires Steps.Apart(Snapshot(arena.nodes, events[1..], nextId), shape) == true
      modifies this`events
      ensures Valid() && Apart() && events == old(events)[1..]
    {
      events := events[1..];
    }

    /** The empty-queue branch of RunAlgorithm: ClearTree from the root, ShortenEdges, finished. */
    method Finish()
      requires Valid() && events == []
      modifies this`completeEdges, this`shape, this`finished, arena
      ensures Valid() && Apart() && finished
      ensures old(root) == Nil ==> arena.nodes == [] && completeEdges == []
      ensures old(root) != Nil ==>
        shape == Stump(old(shape)) &&
        (arena.nodes, completeEdges) == Finale(old(arena.nodes), old(completeEdges), old(shape), geo, mapSize, cutBorder)
    {
      if root != Nil {
        FinaleInvariant(Snap(), shape, root, completeEdges, finished, geo, mapSize, cutBorder);
        ClearAndShorten();
      } else {
        EmptyInvariant(Snap(), shape, root, completeEdges, finished);
        assert Pass1(arena.nodes, completeEdges, geo, mapSize, cutBorder) == ([], []);
        ShortenEdges();
      }
      MarkFinished();
    }

    /** ClearTree from the root of a beach line, then ShortenEdges. */
    method ClearAndShorten()
      requires root == At(shape.id) && Encodes(arena.nodes, shape, Nil) && Distinct(shape)
      requires ComplementsOk(arena.nodes) && EdgesOk(arena.nodes, completeEdges)
      modifies this`completeEdges, this`shape, arena
      ensures shape == Stump(old(shape)) &&
        (arena.nodes, completeEdges) == Finale(old(arena.nodes), old(completeEdges), old(shape), geo, mapSize, cutBorder)
    {
      ghost var N, CE, t := arena.nodes, completeEdges, shape;
      ClearTree(root.idx, shape, Nil);
      ClearFrame(N, CE, t, geo, mapSize);
      shape := Stump(shape);
      ghost var c := (arena.nodes, completeEdges);
      ShortenedFrame(c.0, c.1, geo, mapSize, cutBorder);
      ShortenEdges();
      assert (arena.nodes, completeEdges) == Finale(N, CE, t, geo, mapSize, cutBorder);
    }

    /**
     * The diagram marked finished, once the invariant is known to hold for
     * a finished diagram.  The fact is taken whole (`== true`) so that it is
     * not taken apart at the call.
     */
    method MarkFinished()
      requires Invariant(Snap(), shape, root, completeEdges, true) == true && events == []
      modifies this`finished
      ensures Valid() && Apart() && finished
    {
      finished := true;
    }
  }
}
