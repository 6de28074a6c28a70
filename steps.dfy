/**
 * What one step of the sweep does to the arena and the event queue, as
 * functions of the state before it, and the invariants the steps keep.
 * The engine class `Fortune.Voronoi` is proved to follow these functions.
 *
 * Each step function takes the state it is applied to as written and is the
 * identity where the method it describes could not be called (its guard
 * predicate fails); the methods always meet the guard.
 */
module Steps {
  import opened Geometry
  import opened Nodes
  import opened Shapes
  import opened Paths
  import opened Beach
  import opened Queue
  import opened Edges

  /** The arena, the queue and the next free event identity. */
  datatype Snapshot = Snapshot(nodes: seq<Node>, events: seq<Event>, nextId: nat)

  /** The queue after `List.Remove` of a pending event; unchanged when there is none. */
  function Dropped(q: seq<Event>, ev: EventRef): seq<Event>
  {
    if ev.EventId? then RemoveFirst(q, ev.id) else q
  }

  /** The test of CheckForIntersectionEvent: a circle exists and, rounded, is not above the sweep line. */
  predicate Qualifies(has: bool, line: real, sweepline: real)
  {
    has && RoundToInt(line) <= RoundToInt(sweepline)
  }

  // ----- invariants -----

  /** Every complement link of an edge leads to an edge of the arena. */
  ghost predicate ComplementsOk(N: seq<Node>)
  {
    forall i :: 0 <= i < |N| && N[i].Edge? && N[i].complement.At? ==>
      N[i].complement.idx < |N| && N[N[i].complement.idx].Edge?
  }

  /** Every collected edge is an edge of the arena. */
  ghost predicate EdgesOk(N: seq<Node>, CE: seq<nat>)
  {
    forall k :: 0 <= k < |CE| ==> CE[k] < |N| && N[CE[k]].Edge?
  }

  /** Every event identity an arc refers to was handed out already. */
  ghost predicate EventsBelow(N: seq<Node>, next: nat)
  {
    forall i :: 0 <= i < |N| && N[i].Arc? && N[i].intersecEvent.EventId? ==> N[i].intersecEvent.id < next
  }


  /** `x` is on the beach line and has an arc on either side. */
  predicate Interior(L: seq<nat>, x: nat)
  {
    x in L && L[0] != x && L[|L| - 1] != x
  }

  /**
   * The queued events `P` agree with the arcs of tree `t`: a circle event
   * belongs to an arc of the beach line with a neighbour on either side, and
   * that arc refers to it; an arc of the beach line that refers to a queued
   * event refers to its own circle event.
   */
  ghost predicate Pending(N: seq<Node>, t: Shape, P: seq<Event>)
  {
    CirclesOwned(N, t, P) && ArcsOwn(N, t, P)
  }

  /** Each circle event of `P` belongs to an interior arc of `t` that refers to it. */
  ghost predicate CirclesOwned(N: seq<Node>, t: Shape, P: seq<Event>)
  {
    forall e :: e in P && !e.isNewSite ==>
      e.arc.At? && Interior(Leaves(t), e.arc.idx) && e.arc.idx < |N| && N[e.arc.idx].Arc? &&
      N[e.arc.idx].intersecEvent == EventId(e.id)
  }

  /** An arc of `t` that refers to an event of `P` refers to its own circle event. */
  ghost predicate ArcsOwn(N: seq<Node>, t: Shape, P: seq<Event>)
  {
    forall e, z :: e in P && z in Leaves(t) && z < |N| && N[z].Arc? && N[z].intersecEvent == EventId(e.id) ==>
      !e.isNewSite && e.arc == At(z)
  }

  /** No arc of the beach line refers to the event with identity `id`. */
  ghost predicate NotPointed(N: seq<Node>, t: Shape, id: nat)
  {
    forall z :: z in Leaves(t) && z < |N| && N[z].Arc? ==> N[z].intersecEvent != EventId(id)
  }

  /**
   * What holds while the event at the head of the queue is being handled:
   * the rest of the queue is sorted and agrees with the tree, and no arc
   * refers to the head.
   */
  ghost predicate StepInv(N: seq<Node>, t: Shape, q: seq<Event>, next: nat)
  {
    |q| >= 1 && UniqueIds(q) && IdsBelow(q, next) && SortedFrom(q, 1) && EventsBelow(N, next) &&
    Pending(N, t, q[1..]) && NotPointed(N, t, q[0].id)
  }

  // ----- CheckForIntersectionEvent -----

  /** What CheckForIntersectionEvent on arc `x` needs. */
  ghost predicate RecheckOk(s: Snapshot, t: Shape, x: nat)
  {
    Encodes(s.nodes, t, Nil) && Distinct(t) && Full(t) && x in Ids(t) && x != t.id && s.nodes[x].Arc? &&
    1 <= |Dropped(s.events, s.nodes[x].intersecEvent)|
  }

  /**
   * CheckForIntersectionEvent on arc `x`: the arc's pending event leaves the
   * queue; the arc's neighbours are refreshed; if its bounding edges meet in
   * a circle whose bottom, rounded, is not above the rounded sweep line, a
   * circle event for the arc is queued from index 1 on and the arc refers to
   * it, otherwise the arc refers to no event.
   */
  ghost function Recheck(s: Snapshot, t: Shape, x: nat, geo: Numerics, sweepline: real): Snapshot
  {
    if !RecheckOk(s, t, x) then s
    else
      var q := Dropped(s.events, s.nodes[x].intersecEvent);
      var N := WithNeighbours(s.nodes, t, x);
      var c := Probe(s.nodes, t, x, geo, 0.0);
      if Qualifies(c.0, c.2, sweepline) then
        var e := Event(s.nextId, c.1, false, At(x), c.2);
        Snapshot(N[x := N[x].(intersecEvent := EventId(s.nextId))], Insert(q, InsertIndex(q, 1, c.2, c.1.x), e),
                 s.nextId + 1)
      else
        Snapshot(N[x := N[x].(intersecEvent := NoEvent)], q, s.nextId)
  }

  /** An arc of the tree is a leaf of it. */
  lemma ArcIsLeaf(N: seq<Node>, t: Shape, x: nat)
    requires Encodes(N, t, Nil) && Distinct(t) && x in Ids(t) && N[x].Arc?
    ensures x in Leaves(t) && SubAt(t, x) == Leaf(x)
  {
    LeafPosition(N, t, Nil, x);
  }

  /** Agreement with the tree holds for any part of an agreeing queue. */
  lemma PendingSub(N: seq<Node>, t: Shape, P: seq<Event>, P': seq<Event>)
    requires Pending(N, t, P) && forall e :: e in P' ==> e in P
    ensures Pending(N, t, P')
  {
  }

  /** The events the queue holds after dropping one. */
  lemma DropSub(q: seq<Event>, ev: EventRef)
    requires UniqueIds(q) && 1 <= |Dropped(q, ev)|
    requires ev.EventId? ==> q[0].id != ev.id
    ensures var q' := Dropped(q, ev);
      UniqueIds(q') && q'[0] == q[0] && (forall e :: e in q' ==> e in q) &&
      (forall e :: e in q'[1..] ==> e in q[1..]) &&
      (ev.EventId? ==> forall e :: e in q' ==> e.id != ev.id)
  {
    var q' := Dropped(q, ev);
    if ev.EventId? {
      RemoveFirstFacts(q, ev.id);
      RemoveUnique(q, ev.id);
      var k := Find(q, ev.id);
      forall e | e in q'[1..] ensures e in q[1..] {
        var j :| 0 <= j < |q'[1..]| && q'[1..][j] == e;
        var j' := if j + 1 < k then j + 1 else j + 2;
        assert q'[j + 1] == q[j'] && q[j'] == q[1..][j' - 1];
      }
    }
  }

  /** Dropping the arc's own pending event keeps the head and the agreement of the rest. */
  lemma DropKeeps(N: seq<Node>, t: Shape, q: seq<Event>, next: nat, x: nat)
    requires StepInv(N, t, q, next) && Encodes(N, t, Nil) && Distinct(t) && x in Ids(t) && x < |N| && N[x].Arc?
    requires 1 <= |Dropped(q, N[x].intersecEvent)|
    ensures var q' := Dropped(q, N[x].intersecEvent);
      StepInv(N, t, q', next) && q'[0] == q[0] &&
      (forall e :: e in q' ==> N[x].intersecEvent != EventId(e.id)) &&
      (forall e :: e in q'[1..] ==> e in q[1..])
  {
    ArcIsLeaf(N, t, x);
    var ev := N[x].intersecEvent;
    var q' := Dropped(q, ev);
    DropSub(q, ev);
    PendingSub(N, t, q[1..], q'[1..]);
    if ev.EventId? {
      RemoveKeepsSorted(q, 1, ev.id);
    }
  }

  /** A circle is found only for an arc with a neighbour on either side. */
  lemma ProbeInterior(N: seq<Node>, t: Shape, x: nat, geo: Numerics, lineIn: real)
    requires Encodes(N, t, Nil) && Distinct(t) && Full(t) && x in Ids(t) && N[x].Arc?
    requires Probe(N, t, x, geo, lineIn).0
    ensures Interior(Leaves(t), x)
  {
    ArcIsLeaf(N, t, x);
    var L := Leaves(t);
    var k :| 0 <= k < |L| && L[k] == x;
    Neighbours(N, t, Nil, x, k);
    LeavesDistinct(t);
    assert L[0] != x && L[|L| - 1] != x;
  }

  /** The events past the head after an insertion from index 1 on. */
  lemma InsertSub(q: seq<Event>, i: nat, e: Event)
    requires 1 <= i <= |q|
    ensures Insert(q, i, e)[0] == q[0]
    ensures forall f :: f in Insert(q, i, e)[1..] ==> f in q[1..] || f == e
    ensures forall f :: f in Insert(q, i, e) ==> f in q || f == e
  {
    var r := Insert(q, i, e);
    forall f | f in r[1..] ensures f in q[1..] || f == e {
      var j :| 0 <= j < |r[1..]| && r[1..][j] == f;
      if j + 1 < i { assert f == q[j + 1] == q[1..][j]; }
      else if j + 1 > i { assert f == q[j] == q[1..][j - 1]; }
    }
    assert r[0] == q[0];
  }

  /** CheckForIntersectionEvent keeps the step invariant, the head of the queue and the tree. */
  lemma RecheckKeeps(s: Snapshot, t: Shape, x: nat, geo: Numerics, sweepline: real)
    requires RecheckOk(s, t, x) && StepInv(s.nodes, t, s.events, s.nextId)
    ensures var s' := Recheck(s, t, x, geo, sweepline);
      StepInv(s'.nodes, t, s'.events, s'.nextId) && s'.events[0] == s.events[0] &&
      |s'.nodes| == |s.nodes| && ArcFrame(s.nodes, s'.nodes, x) && s.nextId <= s'.nextId &&
      Encodes(s'.nodes, t, Nil) && (ComplementsOk(s.nodes) ==> ComplementsOk(s'.nodes))
  {
    var N := s.nodes;
    ArcIsLeaf(N, t, x);
    DropKeeps(N, t, s.events, s.nextId, x);
    var q := Dropped(s.events, N[x].intersecEvent);
    var N1 := WithNeighbours(N, t, x);
    var c := Probe(N, t, x, geo, 0.0);
    if Qualifies(c.0, c.2, sweepline) {
      ProbeInterior(N, t, x, geo, 0.0);
      var e := Event(s.nextId, c.1, false, At(x), c.2);
      var i := InsertIndex(q, 1, c.2, c.1.x);
      InsertKeeps(N, N1[x := N1[x].(intersecEvent := EventId(s.nextId))], t, q, s.nextId, x, i, e);
    } else {
      ClearKeeps(N, N1[x := N1[x].(intersecEvent := NoEvent)], t, q, s.nextId, x);
    }
    FrameKeeps(N, Recheck(s, t, x, geo, sweepline).nodes, t, x);
  }

  /** Changing one arc's neighbour fields and event keeps the tree and the complements. */
  lemma FrameKeeps(N: seq<Node>, N': seq<Node>, t: Shape, x: nat)
    requires ArcFrame(N, N', x) && Encodes(N, t, Nil)
    ensures Encodes(N', t, Nil) && (ComplementsOk(N) ==> ComplementsOk(N'))
    ensures forall i :: 0 <= i < |N| ==> N'[i].Edge? == N[i].Edge?
  {
    EncodesFrame(N, N', t, Nil);
  }

  /** `N'` differs from `N` at arc `x` at most in its neighbour fields and its event. */
  ghost predicate ArcFrame(N: seq<Node>, N': seq<Node>, x: nat)
  {
    |N'| == |N| && x < |N| && N[x].Arc? && N'[x].Arc? && N'[x].focus == N[x].focus &&
    (forall i :: 0 <= i < |N| ==> Links(N'[i]) == Links(N[i])) &&
    (forall i :: 0 <= i < |N| && i != x ==> N'[i] == N[i])
  }

  /** Giving arc `x` a fresh circle event queued from index 1 on keeps the step invariant. */
  lemma InsertKeeps(N: seq<Node>, N': seq<Node>, t: Shape, q: seq<Event>, next: nat, x: nat, i: nat, e: Event)
    requires StepInv(N, t, q, next) && ArcFrame(N, N', x) && N'[x].intersecEvent == EventId(next)
    requires forall f :: f in q ==> N[x].intersecEvent != EventId(f.id)
    requires i == InsertIndex(q, 1, e.y, e.pos.x) && e.id == next && !e.isNewSite && e.arc == At(x)
    requires Interior(Leaves(t), x)
    ensures StepInv(N', t, Insert(q, i, e), next + 1) && Insert(q, i, e)[0] == q[0]
  {
    var r := Insert(q, i, e);
    InsertSub(q, i, e);
    InsertKeepsSorted(q, 1, e);
    InsertUnique(q, i, e, next);
    PendingOwn(N, N', t, q, next, x, e, r[1..]);
    PendingBack(N, N', t, q, next, x, e, r[1..]);
  }


  /** Each queued circle event past the head is referred to by its own interior arc. */
  lemma PendingOwn(N: seq<Node>, N': seq<Node>, t: Shape, q: seq<Event>, next: nat, x: nat, e: Event, P: seq<Event>)
    requires StepInv(N, t, q, next) && ArcFrame(N, N', x) && N'[x].intersecEvent == EventId(next)
    requires forall f :: f in q ==> N[x].intersecEvent != EventId(f.id)
    requires e.id == next && !e.isNewSite && e.arc == At(x) && Interior(Leaves(t), x)
    requires forall f :: f in P ==> f in q[1..] || f == e
    ensures CirclesOwned(N', t, P)
  {
    forall f | f in P && !f.isNewSite
      ensures f.arc.At? && Interior(Leaves(t), f.arc.idx) && f.arc.idx < |N'| && N'[f.arc.idx].Arc? &&
              N'[f.arc.idx].intersecEvent == EventId(f.id)
    {
      if f != e {
        assert f in q[1..] && f in q;
      }
    }
  }

  /** An arc of the beach line that refers to a queued event past the head refers to its own. */
  lemma PendingBack(N: seq<Node>, N': seq<Node>, t: Shape, q: seq<Event>, next: nat, x: nat, e: Event, P: seq<Event>)
    requires StepInv(N, t, q, next) && ArcFrame(N, N', x) && N'[x].intersecEvent == EventId(next)
    requires e.id == next && !e.isNewSite && e.arc == At(x)
    requires forall f :: f in P ==> f in q[1..] || f == e
    ensures ArcsOwn(N', t, P)
    ensures NotPointed(N', t, q[0].id)
  {
    forall f, z | f in P && z in Leaves(t) && z < |N'| && N'[z].Arc? && N'[z].intersecEvent == EventId(f.id)
      ensures !f.isNewSite && f.arc == At(z)
    {
      if z != x && f == e {
        assert false;
      } else if z != x {
        assert N'[z] == N[z] && f in q[1..];
      } else if f != e {
        assert false;
      }
    }
    assert q[0] in q;
  }

  /** Leaving arc `x` without an event keeps the step invariant. */
  lemma ClearKeeps(N: seq<Node>, N': seq<Node>, t: Shape, q: seq<Event>, next: nat, x: nat)
    requires StepInv(N, t, q, next) && ArcFrame(N, N', x) && N'[x].intersecEvent == NoEvent
    requires forall f :: f in q ==> N[x].intersecEvent != EventId(f.id)
    ensures StepInv(N', t, q, next)
  {
  }

  // ----- HandleSiteEvent -----

  /**
   * The arc found above a new site at `sx` when the sweep line is at `y`: from
   * the root, each edge whose current end is at or left of `sx` sends the search
   * right, any other edge sends it left.
   */
  ghost function Locate(N: seq<Node>, t: Shape, y: real, sx: real, geo: Numerics): (a: nat)
    requires forall i :: i in Ids(t) ==> i < |N|
    ensures a in Ids(t)
    ensures Full(t) ==> a in Leaves(t)
    decreases t
  {
    match t
    case Fork(i, l, r) =>
      assert i in Ids(t) && Ids(l) <= Ids(t) && Ids(r) <= Ids(t);
      if geo.currentEndX(N[i], y) <= sx then Locate(N, r, y, sx, geo) else Locate(N, l, y, sx, geo)
    case _ => t.id
  }

  /** In a tree of the arena without bare edges the search ends at an arc. */
  lemma LocateArc(N: seq<Node>, t: Shape, par: Ref, y: real, sx: real, geo: Numerics)
    requires Encodes(N, t, par) && Full(t)
    ensures N[Locate(N, t, y, sx, geo)].Arc?
  {
    LeavesAreArcs(N, t, par);
  }

  /**
   * HandleSiteEvent once the beach line exists: the arc above the site is
   * found; its pending event leaves the queue; the arc is replaced by
   * Edge(arc, Edge(new arc, arc)), the edges starting on the arc straight
   * above the site; then both outer parts are checked for a circle event
   * against the rounded sweep line.  A site level with the arc's focus is
   * split at the oracle's `levelY`.  Nothing changes when the site coincides
   * with the focus, which the engine's `Apart` rules out.
   */
  ghost function SiteStep(s: Snapshot, t: Shape, e: Event, geo: Numerics): (Snapshot, Shape)
  {
    if !Encodes(s.nodes, t, Nil) then (s, t)
    else
      var a := Locate(s.nodes, t, e.y, e.pos.x, geo);
      var site := RoundPoint(e.pos);
      if !(s.nodes[a].Arc? && s.nodes[a].focus != site && ParentOk(s.nodes, a)) then (s, t)
      else SplitStep(s, t, a, site, geo, RoundToInt(e.y) as real)
  }

  /**
   * The splitting half of SiteStep at arc `a`: the split, then both outer
   * parts rechecked against the sweep line at `sweepline`.
   */
  ghost function SplitStep(s: Snapshot, t: Shape, a: nat, site: IPoint, geo: Numerics, sweepline: real)
    : (Snapshot, Shape)
    requires a in Ids(t) && a < |s.nodes| && s.nodes[a].Arc? && s.nodes[a].focus != site
    requires ParentOk(s.nodes, a)
  {
    (Rechecked(Splitting(s, a, site, geo), Subst(t, a, SplitShape(|s.nodes|)), |s.nodes|, geo, sweepline),
     Subst(t, a, SplitShape(|s.nodes|)))
  }

  /**
   * Both outer parts of a split made when the arena held `n` nodes (indices
   * `n + 1` and `n + 4`) rechecked, left one first.
   */
  ghost function Rechecked(s1: Snapshot, t1: Shape, n: nat, geo: Numerics, sweepline: real): Snapshot
  {
    Recheck(Recheck(s1, t1, n + 1, geo, sweepline), t1, n + 4, geo, sweepline)
  }

  /** The first half of HandleSiteEvent: the arc's event leaves the queue and the arc is split. */
  ghost function Splitting(s: Snapshot, a: nat, site: IPoint, geo: Numerics): Snapshot
    requires a < |s.nodes| && s.nodes[a].Arc? && s.nodes[a].focus != site && ParentOk(s.nodes, a)
  {
    Snapshot(Split(s.nodes, a, YOfIntersection(s.nodes[a].focus, site, geo), site),
             Dropped(s.events, s.nodes[a].intersecEvent), s.nextId)
  }

  /** The step invariant, with the tree and the complements intact. */
  ghost predicate Sound(s: Snapshot, t: Shape)
  {
    StepInv(s.nodes, t, s.events, s.nextId) && Encodes(s.nodes, t, Nil) && Distinct(t) && Full(t) &&
    ComplementsOk(s.nodes)
  }

  /** Verification plumbing: soundness, taken apart into its conjuncts. */
  lemma SoundHolds(s: Snapshot, t: Shape)
    requires Sound(s, t) == true
    ensures Sound(s, t)
  {
  }

  /** Splitting arc `a` after dropping its event keeps the step invariant on the new tree. */
  lemma SplitCore(s: Snapshot, t: Shape, a: nat, site: IPoint, geo: Numerics)
    requires Sound(s, t) == true && a in Ids(t) && a < |s.nodes| && s.nodes[a].Arc? && s.nodes[a].focus != site
    ensures t.id < |s.nodes| && ParentOk(s.nodes, a)
    ensures SplitSound(s, Splitting(s, a, site, geo), Subst(t, a, SplitShape(|s.nodes|))) == true
  {
    SoundHolds(s, t);
    var N, q, next := s.nodes, s.events, s.nextId;
    var y := YOfIntersection(N[a].focus, site, geo);
    var t' := SplitTree(N, t, a, y, site);
    DropNonEmpty(N, t, q, next, a);
    DropKeeps(N, t, q, next, a);
    var N', q' := Split(N, a, y, site), Dropped(q, N[a].intersecEvent);
    SplitFresh(N, a, y, site);
    SplitInv(N, N', t, t', q', next, a);
    assert t.id in Ids(t);
    ArcParent(N, t, t.id);
  }

  /** The split state `s1` with tree `t1` is sound and keeps the head of the queue and the old edges of `s`. */
  ghost predicate SplitSound(s: Snapshot, s1: Snapshot, t1: Shape)
  {
    |s.events| >= 1 && Sound(s1, t1) && 1 <= |s1.events| && s1.events[0] == s.events[0] &&
    s1.nextId == s.nextId && |s.nodes| <= |s1.nodes| &&
    (forall i :: 0 <= i < |s.nodes| ==> s1.nodes[i].Edge? == s.nodes[i].Edge?)
  }

  /** The five nodes a split appends: arcs without events, edges that are each other's complement. */
  lemma SplitFresh(N: seq<Node>, a: nat, y: real, site: IPoint)
    requires a < |N| && N[a].Arc? && N[a].focus != site && ParentOk(N, a)
    ensures var N', n := Split(N, a, y, site), |N|;
      N'[n + 1].Arc? && N'[n + 3].Arc? && N'[n + 4].Arc? &&
      N'[n + 1].intersecEvent == NoEvent && N'[n + 3].intersecEvent == NoEvent &&
      N'[n + 4].intersecEvent == NoEvent &&
      (forall i :: n <= i < |N'| && N'[i].Arc? ==> N'[i].intersecEvent == NoEvent) &&
      (forall i :: n <= i < |N'| && N'[i].Edge? && N'[i].complement.At? ==>
         N'[i].complement.idx < |N'| && N'[N'[i].complement.idx].Edge?)
  {
    var N', n := Split(N, a, y, site), |N|;
    forall i | n <= i < |N'|
      ensures N'[i].Arc? ==> N'[i].intersecEvent == NoEvent
      ensures N'[i].Edge? && N'[i].complement.At? ==> N'[i].complement.idx < |N'| && N'[N'[i].complement.idx].Edge?
    {
      assert i == n || i == n + 1 || i == n + 2 || i == n + 3 || i == n + 4;
    }
  }

  /** The step invariant on the split tree, from the facts a split establishes. */
  lemma SplitInv(N: seq<Node>, N': seq<Node>, t: Shape, t': Shape, q': seq<Event>, next: nat, a: nat)
    requires StepInv(N, t, q', next) && ComplementsOk(N) && Distinct(t) && a in Ids(t) && a < |N| && N[a].Arc?
    requires forall i :: i in Ids(t) ==> i < |N|
    requires ArcsKept(N, N') && ComplementsKept(N, N') && |N'| == |N| + 5
    requires N'[|N| + 1].Arc? && N'[|N| + 3].Arc? && N'[|N| + 4].Arc?
    requires N'[|N| + 1].intersecEvent == NoEvent && N'[|N| + 3].intersecEvent == NoEvent
    requires N'[|N| + 4].intersecEvent == NoEvent
    requires forall i :: |N| <= i < |N'| && N'[i].Arc? ==> N'[i].intersecEvent == NoEvent
    requires forall i :: |N| <= i < |N'| && N'[i].Edge? && N'[i].complement.At? ==>
      N'[i].complement.idx < |N'| && N'[N'[i].complement.idx].Edge?
    requires Encodes(N, t, Nil) && t' == Subst(t, a, SplitShape(|N|))
    requires forall e :: e in q' ==> N[a].intersecEvent != EventId(e.id)
    ensures StepInv(N', t', q', next) && ComplementsOk(N')
    ensures forall i :: 0 <= i < |N| ==> N'[i].Edge? == N[i].Edge?
  {
    LeafPosition(N, t, Nil, a);
    SplitLeaves(t, a, |N|);
    SplitCircles(N, N', t, t', q'[1..], a);
    SplitArcs(N, N', t, t', q'[1..], a, q'[0].id);
    GrowCounts(N, N', next);
  }

  /** Appending nodes whose arcs have no event, and whose complements are edges, keeps both counts. */
  lemma GrowCounts(N: seq<Node>, N': seq<Node>, next: nat)
    requires ArcsKept(N, N') && ComplementsKept(N, N')
    requires EventsBelow(N, next) && ComplementsOk(N)
    requires forall i :: |N| <= i < |N'| && N'[i].Arc? ==> N'[i].intersecEvent == NoEvent
    requires forall i :: |N| <= i < |N'| && N'[i].Edge? && N'[i].complement.At? ==>
      N'[i].complement.idx < |N'| && N'[N'[i].complement.idx].Edge?
    ensures EventsBelow(N', next) && ComplementsOk(N')
    ensures forall i :: 0 <= i < |N| ==> N'[i].Edge? == N[i].Edge?
  {
  }

  /** An arc that does not refer to the head leaves the head queued when its event is dropped. */
  lemma DropNonEmpty(N: seq<Node>, t: Shape, q: seq<Event>, next: nat, x: nat)
    requires StepInv(N, t, q, next) && Encodes(N, t, Nil) && Distinct(t) && x in Ids(t) && N[x].Arc?
    ensures 1 <= |Dropped(q, N[x].intersecEvent)|
  {
    ArcIsLeaf(N, t, x);
    var ev := N[x].intersecEvent;
    if ev.EventId? {
      RemoveFirstFacts(q, ev.id);
      assert q[0].id != ev.id;
    }
  }

  /** Replacing a non-extreme element by a non-empty run keeps other elements interior. */
  lemma InteriorReplace(B: seq<nat>, M: seq<nat>, A: seq<nat>, a: nat, z: nat)
    requires Interior(B + [a] + A, z) && z != a && z !in M && |M| > 0
    ensures Interior(B + M + A, z)
  {
    var L, L' := B + [a] + A, B + M + A;
    assert z in B || z in A;
    assert L'[0] == (if |B| > 0 then L[0] else M[0]);
    assert L'[|L'| - 1] == (if |A| > 0 then L[|L| - 1] else M[|M| - 1]);
  }

  /** After a split the queued circle events still belong to interior arcs that refer to them. */
  lemma SplitCircles(N: seq<Node>, N': seq<Node>, t: Shape, t': Shape, P: seq<Event>, a: nat)
    requires ArcsKept(N, N') && |N'| == |N| + 5 && a in Ids(t)
    requires Leaves(t) == Before(t, a) + [a] + After(t, a)
    requires Leaves(t') == Before(t, a) + [|N| + 1, |N| + 3, |N| + 4] + After(t, a)
    requires a < |N| && CirclesOwned(N, t, P) && forall e :: e in P ==> N[a].Arc? && N[a].intersecEvent != EventId(e.id)
    ensures CirclesOwned(N', t', P)
  {
    var B, A, M := Before(t, a), After(t, a), [|N| + 1, |N| + 3, |N| + 4];
    forall e | e in P && !e.isNewSite
      ensures e.arc.At? && Interior(Leaves(t'), e.arc.idx) && e.arc.idx < |N'| && N'[e.arc.idx].Arc? &&
              N'[e.arc.idx].intersecEvent == EventId(e.id)
    {
      InteriorReplace(B, M, A, a, e.arc.idx);
    }
  }

  /** After a split an arc that refers to a queued event is still that event's own arc. */
  lemma SplitArcs(N: seq<Node>, N': seq<Node>, t: Shape, t': Shape, P: seq<Event>, a: nat, id: nat)
    requires ArcsKept(N, N') && |N'| == |N| + 5 && a in Ids(t)
    requires forall i :: i in Ids(t) ==> i < |N|
    requires N'[|N| + 1].Arc? && N'[|N| + 3].Arc? && N'[|N| + 4].Arc?
    requires N'[|N| + 1].intersecEvent == NoEvent && N'[|N| + 3].intersecEvent == NoEvent
    requires N'[|N| + 4].intersecEvent == NoEvent
    requires Leaves(t) == Before(t, a) + [a] + After(t, a)
    requires Leaves(t') == Before(t, a) + [|N| + 1, |N| + 3, |N| + 4] + After(t, a)
    requires ArcsOwn(N, t, P) && NotPointed(N, t, id)
    ensures ArcsOwn(N', t', P) && NotPointed(N', t', id)
  {
    LeavesInIds(t);
    var B, A, M := Before(t, a), After(t, a), [|N| + 1, |N| + 3, |N| + 4];
    forall e, z | e in P && z in Leaves(t') && z < |N'| && N'[z].Arc? && N'[z].intersecEvent == EventId(e.id)
      ensures !e.isNewSite && e.arc == At(z)
    {
      if z in Leaves(t) {
        assert z < |N| && N'[z].intersecEvent == N[z].intersecEvent;
      } else {
        assert false;
      }
    }
    forall z | z in Leaves(t') && z < |N'| && N'[z].Arc? ensures N'[z].intersecEvent != EventId(id) {
      if z in Leaves(t) {
        assert z < |N| && N'[z].intersecEvent == N[z].intersecEvent;
      } else {
        assert z in M;
      }
    }
  }

  /**
   * What a handled event leaves: the step invariant on the new tree, the same
   * head, the tree and the complements intact, and the old edges still edges.
   */
  ghost predicate Stepped(s: Snapshot, t: Shape, s': Snapshot, t': Shape)
  {
    |s.events| >= 1 && StepInv(s'.nodes, t', s'.events, s'.nextId) && s'.events[0] == s.events[0] &&
    s.nextId <= s'.nextId && Encodes(s'.nodes, t', Nil) && Distinct(t') && Full(t') &&
    ComplementsOk(s'.nodes) && |s.nodes| <= |s'.nodes| &&
    (forall i :: 0 <= i < |s.nodes| ==> s'.nodes[i].Edge? == s.nodes[i].Edge?)
  }

  /** CheckForIntersectionEvent on one arc of the beach line, then on another, keeps the step invariant. */
  lemma RecheckTwice(s: Snapshot, t: Shape, x1: nat, x2: nat, geo: Numerics, sweepline: real)
    requires StepInv(s.nodes, t, s.events, s.nextId) && Encodes(s.nodes, t, Nil) && Distinct(t) && Full(t)
    requires ComplementsOk(s.nodes)
    requires x1 in Leaves(t) && x2 in Leaves(t) && x1 != t.id && x2 != t.id
    ensures var s' := Recheck(Recheck(s, t, x1, geo, sweepline), t, x2, geo, sweepline);
      StepInv(s'.nodes, t, s'.events, s'.nextId) && s'.events[0] == s.events[0] && s.nextId <= s'.nextId &&
      Encodes(s'.nodes, t, Nil) && ComplementsOk(s'.nodes) && |s'.nodes| == |s.nodes| &&
      (forall i :: 0 <= i < |s.nodes| ==> s'.nodes[i].Edge? == s.nodes[i].Edge?) &&
      (forall i :: 0 <= i < |s.nodes| ==> Links(s'.nodes[i]) == Links(s.nodes[i]))
  {
    LeavesInIds(t);
    LeavesAreArcs(s.nodes, t, Nil);
    DropNonEmpty(s.nodes, t, s.events, s.nextId, x1);
    RecheckKeeps(s, t, x1, geo, sweepline);
    var s1 := Recheck(s, t, x1, geo, sweepline);
    LeavesAreArcs(s1.nodes, t, Nil);
    DropNonEmpty(s1.nodes, t, s1.events, s1.nextId, x2);
    RecheckKeeps(s1, t, x2, geo, sweepline);
  }

  /** Both calls of RecheckTwice can run. */
  lemma RecheckBoth(s: Snapshot, t: Shape, x1: nat, x2: nat, geo: Numerics, sweepline: real)
    requires StepInv(s.nodes, t, s.events, s.nextId) && Encodes(s.nodes, t, Nil) && Distinct(t) && Full(t)
    requires x1 in Leaves(t) && x2 in Leaves(t) && x1 != t.id && x2 != t.id
    ensures RecheckOk(s, t, x1) && RecheckOk(Recheck(s, t, x1, geo, sweepline), t, x2)
  {
    LeavesInIds(t);
    LeavesAreArcs(s.nodes, t, Nil);
    DropNonEmpty(s.nodes, t, s.events, s.nextId, x1);
    RecheckKeeps(s, t, x1, geo, sweepline);
    var s1 := Recheck(s, t, x1, geo, sweepline);
    LeavesAreArcs(s1.nodes, t, Nil);
    DropNonEmpty(s1.nodes, t, s1.events, s1.nextId, x2);
  }

  /**
   * HandleSiteEvent on a beach line, for a queued site that no arc's focus
   * coincides with, keeps the step invariant, the tree and the complements.
   */
  lemma SiteKeeps(s: Snapshot, t: Shape, e: Event, geo: Numerics)
    requires Sound(s, t) == true && FociApart(s.nodes, t, s.events) && e in s.events && e.isNewSite
    ensures Stepped(s, t, SiteStep(s, t, e, geo).0, SiteStep(s, t, e, geo).1) == true
  {
    LocatedArc(s, t, e, geo);
    LocatedApart(s, t, e, geo);
    SplitThenRecheck(s, t, Locate(s.nodes, t, e.y, e.pos.x, geo), RoundPoint(e.pos), geo, RoundToInt(e.y) as real);
  }

  /** The arc above the site is a leaf of the tree, with a well-formed parent link. */
  lemma LocatedArc(s: Snapshot, t: Shape, e: Event, geo: Numerics)
    requires Sound(s, t) == true
    ensures var a := Locate(s.nodes, t, e.y, e.pos.x, geo);
      a in Ids(t) && a < |s.nodes| && s.nodes[a].Arc? && ParentOk(s.nodes, a)
  {
    SoundHolds(s, t);
    LocateArc(s.nodes, t, Nil, e.y, e.pos.x, geo);
    ArcParent(s.nodes, t, Locate(s.nodes, t, e.y, e.pos.x, geo));
  }

  /** The arc above a queued site that no arc's focus coincides with has a focus other than the site. */
  lemma LocatedApart(s: Snapshot, t: Shape, e: Event, geo: Numerics)
    requires Sound(s, t) == true && FociApart(s.nodes, t, s.events) && e in s.events && e.isNewSite
    ensures var a := Locate(s.nodes, t, e.y, e.pos.x, geo);
      a < |s.nodes| && s.nodes[a].Arc? && s.nodes[a].focus != RoundPoint(e.pos)
  {
    LocatedArc(s, t, e, geo);
    SoundHolds(s, t);
    ArcIsLeaf(s.nodes, t, Locate(s.nodes, t, e.y, e.pos.x, geo));
  }

  /** Both stages of SiteStep at the located arc `a`: the split, then both outer parts rechecked. */
  lemma SplitThenRecheck(s: Snapshot, t: Shape, a: nat, site: IPoint, geo: Numerics, sweepline: real)
    requires Sound(s, t) == true && a in Ids(t) && a < |s.nodes| && s.nodes[a].Arc? && s.nodes[a].focus != site
    requires ParentOk(s.nodes, a)
    ensures var r := SplitStep(s, t, a, site, geo, sweepline); Stepped(s, t, r.0, r.1) == true
  {
    var n := |s.nodes|;
    var s1, t1 := Splitting(s, a, site, geo), Subst(t, a, SplitShape(n));
    SplitCore(s, t, a, site, geo);
    SplitRoot(t, a, n);
    RecheckStage(s, t, s1, t1, n, geo, sweepline);
    assert SplitStep(s, t, a, site, geo, sweepline) == (Rechecked(s1, t1, n, geo, sweepline), t1);
  }

  /**
   * The second stage of SiteStep: both outer parts of the split rechecked;
   * with the first stage, the whole step is Stepped.
   */
  lemma RecheckStage(s: Snapshot, t: Shape, s1: Snapshot, t1: Shape, n: nat, geo: Numerics, sweepline: real)
    requires SplitSound(s, s1, t1) == true && n == |s.nodes|
    requires n + 1 in Leaves(t1) && n + 4 in Leaves(t1) && n + 1 != t1.id && n + 4 != t1.id
    ensures Stepped(s, t, Rechecked(s1, t1, n, geo, sweepline), t1) == true
  {
    SplitSoundHolds(s, s1, t1);
    RecheckTwice(s1, t1, n + 1, n + 4, geo, sweepline);
    SteppedVia(s, t, s1, Rechecked(s1, t1, n, geo, sweepline), t1);
  }

  /** Verification plumbing: SplitSound, taken apart into its conjuncts. */
  lemma SplitSoundHolds(s: Snapshot, s1: Snapshot, t1: Shape)
    requires SplitSound(s, s1, t1) == true
    ensures SplitSound(s, s1, t1)
  {
  }

  /** A step made of two stages, each keeping what Stepped asks for, is Stepped. */
  lemma SteppedVia(s: Snapshot, t: Shape, s1: Snapshot, s': Snapshot, t': Shape)
    requires |s.events| >= 1 && |s1.events| >= 1 && s1.events[0] == s.events[0] && s.nextId <= s1.nextId
    requires |s.nodes| <= |s1.nodes| && forall i :: 0 <= i < |s.nodes| ==> s1.nodes[i].Edge? == s.nodes[i].Edge?
    requires StepInv(s'.nodes, t', s'.events, s'.nextId) && s'.events[0] == s1.events[0] && s1.nextId <= s'.nextId
    requires Encodes(s'.nodes, t', Nil) && Distinct(t') && Full(t') && ComplementsOk(s'.nodes)
    requires |s'.nodes| == |s1.nodes| && forall i :: 0 <= i < |s1.nodes| ==> s'.nodes[i].Edge? == s1.nodes[i].Edge?
    ensures Stepped(s, t, s', t') == true
  {
  }

  /** Unfolds SiteStep where the located arc can be split. */
  lemma SiteStepIs(s: Snapshot, t: Shape, e: Event, geo: Numerics)
    requires Encodes(s.nodes, t, Nil)
    requires var a := Locate(s.nodes, t, e.y, e.pos.x, geo);
      s.nodes[a].Arc? && s.nodes[a].focus != RoundPoint(e.pos) && ParentOk(s.nodes, a)
    ensures var a, n, sweepline := Locate(s.nodes, t, e.y, e.pos.x, geo), |s.nodes|, RoundToInt(e.y) as real;
      var s1, t1 := Splitting(s, a, RoundPoint(e.pos), geo), Subst(t, a, SplitShape(n));
      SiteStep(s, t, e, geo) == (Recheck(Recheck(s1, t1, n + 1, geo, sweepline), t1, n + 4, geo, sweepline), t1)
  {
  }

  /** SiteStep where the located arc can be split: the split shape, with both rechecks still folded. */
  lemma SiteParts(s: Snapshot, t: Shape, e: Event, geo: Numerics)
    requires Encodes(s.nodes, t, Nil)
    requires var a := Locate(s.nodes, t, e.y, e.pos.x, geo);
      s.nodes[a].Arc? && s.nodes[a].focus != RoundPoint(e.pos) && ParentOk(s.nodes, a)
    ensures var a, n := Locate(s.nodes, t, e.y, e.pos.x, geo), |s.nodes|;
      var t1 := Subst(t, a, SplitShape(n));
      SiteStep(s, t, e, geo) == (Rechecked(Splitting(s, a, RoundPoint(e.pos), geo), t1, n, geo, RoundToInt(e.y) as real), t1)
  {
  }

  /** SiteStep unfolded at the located arc `a`, with the outer parts `x1` and `x2` named. */
  lemma SiteStepAt(s: Snapshot, t: Shape, e: Event, geo: Numerics, a: nat, x1: nat, x2: nat)
    requires Encodes(s.nodes, t, Nil) && a == Locate(s.nodes, t, e.y, e.pos.x, geo)
    requires s.nodes[a].Arc? && s.nodes[a].focus != RoundPoint(e.pos) && ParentOk(s.nodes, a)
    requires x1 == |s.nodes| + 1 && x2 == |s.nodes| + 4
    ensures var sweepline, t1 := RoundToInt(e.y) as real, Subst(t, a, SplitShape(|s.nodes|));
      SiteStep(s, t, e, geo) ==
        (Recheck(Recheck(Splitting(s, a, RoundPoint(e.pos), geo), t1, x1, geo, sweepline), t1, x2, geo, sweepline), t1)
  {
    SiteStepIs(s, t, e, geo);
  }

  /**
   * The arc found above the site at the head of the queue is an arc of the
   * tree with a parent slot whose focus is not the site, and the state is
   * sound.
   */
  lemma SiteFound(s: Snapshot, t: Shape, e: Event, geo: Numerics, a: nat)
    requires Ready(s, t) && e == s.events[0] && e.isNewSite && FociApart(s.nodes, t, s.events)
    requires a == Locate(s.nodes, t, e.y, e.pos.x, geo)
    ensures Sound(s, t) == true && a in Ids(t)
    ensures a < |s.nodes| && s.nodes[a].Arc? && s.nodes[a].focus != RoundPoint(e.pos) && ParentOk(s.nodes, a)
  {
    ReadySound(s, t);
    LocatedArc(s, t, e, geo);
    assert e in s.events;
    LocatedApart(s, t, e, geo);
  }

  /**
   * What the split half of HandleSiteEvent relies on once arc `a` is found
   * above a site that is not its focus: the split keeps the step invariant,
   * and both outer parts are leaves below the root.
   */
  lemma SitePlan(s: Snapshot, t: Shape, a: nat, site: IPoint, geo: Numerics)
    requires Sound(s, t) == true && a in Ids(t) && a < |s.nodes| && s.nodes[a].Arc? && s.nodes[a].focus != site
    requires ParentOk(s.nodes, a)
    ensures var n := |s.nodes|;
      var s1, t1 := Splitting(s, a, site, geo), Subst(t, a, SplitShape(n));
      StepInv(s1.nodes, t1, s1.events, s1.nextId) && Encodes(s1.nodes, t1, Nil) && Distinct(t1) && Full(t1) &&
      n + 1 in Leaves(t1) && n + 4 in Leaves(t1) && n + 1 != t1.id && n + 4 != t1.id
  {
    var n := |s.nodes|;
    SplitCore(s, t, a, site, geo);
    SplitRoot(t, a, n);
    SplitSoundHolds(s, Splitting(s, a, site, geo), Subst(t, a, SplitShape(n)));
  }

  /**
   * After the split of arc `a`, the old root index holds an arc exactly when
   * the root was that arc, and the new tree's root is the split's first edge
   * in that case and the old root otherwise.
   */
  lemma SitePlanRoot(s: Snapshot, t: Shape, a: nat, site: IPoint, geo: Numerics)
    requires Sound(s, t) == true && a in Ids(t) && a < |s.nodes| && s.nodes[a].Arc? && s.nodes[a].focus != site
    requires ParentOk(s.nodes, a)
    ensures var s1, t1 := Splitting(s, a, site, geo), Subst(t, a, SplitShape(|s.nodes|));
      t.id < |s1.nodes| && (s1.nodes[t.id].Arc? <==> t.id == a) && t1.id == (if t.id == a then |s.nodes| else t.id)
  {
    var n := |s.nodes|;
    SplitCore(s, t, a, site, geo);
    SplitRoot(t, a, n);
    SplitSoundHolds(s, Splitting(s, a, site, geo), Subst(t, a, SplitShape(n)));
    SoundHolds(s, t);
    if t.id == a {
      assert s.nodes[a].parent == Nil;
    } else {
      assert t.Fork? && s.nodes[t.id].Edge?;
    }
  }

  /** The two outer parts of a split are leaves of the new tree, below its root. */
  lemma SplitRoot(t: Shape, a: nat, n: nat)
    requires a in Ids(t) && t.id < n
    ensures var t1 := Subst(t, a, SplitShape(n));
      n + 1 in Leaves(t1) && n + 4 in Leaves(t1) && n + 1 != t1.id && n + 4 != t1.id &&
      t1.id == (if t.id == a then n else t.id)
  {
    SplitLeaves(t, a, n);
    var M := [n + 1, n + 3, n + 4];
    assert n + 1 in M && n + 4 in M;
  }

  // ----- HandleIntersecEvent -----

  /**
   * HandleIntersecEvent for the circle event of arc `x`, at `pos`, due at
   * sweep line `sweepline`: the arc's neighbour fields are refreshed, the arc
   * is removed (RemoveParabola), and its former left and right neighbours are
   * checked for circle events.  `t'` is the tree the arena holds after the
   * removal; the arena determines it (EncodesUnique).
   */
  ghost function CircleStep(s: Snapshot, t: Shape, t': Shape, x: nat, pos: RPoint, geo: Numerics, sweepline: real)
    : Snapshot
  {
    if !(x < |s.nodes| && x in Ids(t) && s.nodes[x].Arc?) then s
    else
      var N1 := WithNeighbours(s.nodes, t, x);
      if !(RemovalOk(N1, x) && N1[x].leftArc.At? && N1[x].rightArc.At?) then s
      else
        var s2 := Snapshot(Removal(N1, x, pos), s.events, s.nextId);
        Recheck(Recheck(s2, t', N1[x].leftArc.idx, geo, sweepline), t', N1[x].rightArc.idx, geo, sweepline)
  }

  /** The arena read from a given root determines the tree. */
  lemma {:induction false} EncodesUnique(N: seq<Node>, t1: Shape, t2: Shape, par1: Ref, par2: Ref)
    requires Encodes(N, t1, par1) && Encodes(N, t2, par2) && t1.id == t2.id
    ensures t1 == t2
    decreases t1
  {
    match t1
    case Fork(i, l, r) =>
      assert t2.Fork?;
      EncodesUnique(N, l, t2.left, At(i), At(i));
      EncodesUnique(N, r, t2.right, At(i), At(i));
    case _ =>
  }

  /** Removing an interior element keeps the other interior elements interior. */
  lemma InteriorRemove(B: seq<nat>, A: seq<nat>, x: nat, z: nat)
    requires Interior(B + [x] + A, z) && Interior(B + [x] + A, x) && z != x
    ensures Interior(B + A, z)
  {
    var L, L' := B + [x] + A, B + A;
    assert |B| > 0 && |A| > 0;
    assert z in B || z in A;
    assert L'[0] == L[0] && L'[|L'| - 1] == L[|L| - 1];
  }

  /** The neighbours of an interior arc: both bounding edges exist, both neighbouring arcs survive its removal. */
  lemma InteriorNeighbours(N: seq<Node>, t: Shape, x: nat)
    requires Encodes(N, t, Nil) && Distinct(t) && Full(t) && x in Ids(t) && N[x].Arc?
    requires Interior(Leaves(t), x)
    ensures Leaves(t) == Before(t, x) + [x] + After(t, x)
    ensures LeftEdgeOf(t, x) != Nil && RightEdgeOf(t, x) != Nil
    ensures LeftArcOf(t, x).At? && LeftArcOf(t, x).idx in Before(t, x)
    ensures RightArcOf(t, x).At? && RightArcOf(t, x).idx in After(t, x)
  {
    LeafPosition(N, t, Nil, x);
    var L := Leaves(t);
    var k :| 0 <= k < |L| && L[k] == x;
    LeafIndex(t, x, k);
    Neighbours(N, t, Nil, x, k);
    assert k != 0 && k != |L| - 1;
    assert Before(t, x)[k - 1] == L[k - 1];
    assert After(t, x)[0] == L[k + 1];
  }

  /** The queue agrees with the tree after the removal of the arc whose event is at its head. */
  lemma RemovalInv(N: seq<Node>, N2: seq<Node>, t: Shape, t': Shape, q: seq<Event>, next: nat, x: nat)
    requires |q| >= 1 && UniqueIds(q) && IdsBelow(q, next) && SortedFrom(q, 0) && EventsBelow(N, next)
    requires ComplementsOk(N) && Pending(N, t, q) && Distinct(t) && x in Ids(t)
    requires forall i :: i in Ids(t) ==> i < |N|
    requires !q[0].isNewSite && q[0].arc == At(x) && x < |N| && N[x].Arc?
    requires N[x].intersecEvent == EventId(q[0].id) && Interior(Leaves(t), x)
    requires ArcsKept(N, N2) && ComplementsKept(N, N2) && |N2| == |N| + 1
    requires N2[|N|].Edge? && N2[|N|].complement == Nil
    requires forall i :: 0 <= i < |N| && i != x && N2[i].Arc? ==> N2[i].intersecEvent == N[i].intersecEvent
    requires Leaves(t) == Before(t, x) + [x] + After(t, x) && Leaves(t') == Before(t, x) + After(t, x)
    ensures StepInv(N2, t', q, next) && ComplementsOk(N2)
    ensures forall i :: 0 <= i < |N| ==> N2[i].Edge? == N[i].Edge?
  {
    assert CirclesOwned(N2, t', q[1..]) by {
      RemovalCircles(N, N2, t, t', q, x);
    }
    assert ArcsOwn(N2, t', q[1..]) && NotPointed(N2, t', q[0].id) by {
      RemovalOwn(N, N2, t, t', q, x);
    }
    GrowOne(N, N2, next);
  }

  /** GrowCounts for an arena that grew by one edge without a complement. */
  lemma GrowOne(N: seq<Node>, N': seq<Node>, next: nat)
    requires ArcsKept(N, N') && ComplementsKept(N, N') && EventsBelow(N, next) && ComplementsOk(N)
    requires |N'| == |N| + 1 && N'[|N|].Edge? && N'[|N|].complement == Nil
    ensures EventsBelow(N', next) && ComplementsOk(N')
    ensures forall i :: 0 <= i < |N| ==> N'[i].Edge? == N[i].Edge?
  {
    GrowCounts(N, N', next);
  }

  /** After the removal of `x`, the arcs left refer only to their own events, and none to the head. */
  lemma RemovalOwn(N: seq<Node>, N2: seq<Node>, t: Shape, t': Shape, q: seq<Event>, x: nat)
    requires |q| >= 1 && ArcsOwn(N, t, q) && Distinct(t) && x in Ids(t) && x < |N| && q[0].arc == At(x)
    requires forall i :: i in Ids(t) ==> i < |N|
    requires ArcsKept(N, N2)
    requires forall i :: 0 <= i < |N| && i != x && N2[i].Arc? ==> N2[i].intersecEvent == N[i].intersecEvent
    requires Leaves(t) == Before(t, x) + [x] + After(t, x) && Leaves(t') == Before(t, x) + After(t, x)
    ensures ArcsOwn(N2, t', q[1..]) && NotPointed(N2, t', q[0].id)
  {
    RemovedLeaves(t, t', x);
    LeavesInIds(t);
    RemovalArcs(N, N2, t, t', q, x);
  }

  /** The beach line after removing `x` is the old one without `x`. */
  lemma RemovedLeaves(t: Shape, t': Shape, x: nat)
    requires Distinct(t) && x in Ids(t)
    requires Leaves(t) == Before(t, x) + [x] + After(t, x) && Leaves(t') == Before(t, x) + After(t, x)
    ensures forall z :: z in Leaves(t') ==> z in Leaves(t) && z != x
  {
    var B, A, L := Before(t, x), After(t, x), Leaves(t);
    LeavesDistinct(t);
    assert L[|B|] == x;
    forall j | 0 <= j < |B + A| ensures (B + A)[j] in L && (B + A)[j] != x {
      if j < |B| { assert (B + A)[j] == L[j]; } else { assert (B + A)[j] == L[j + 1]; }
    }
  }

  lemma RemovalCircles(N: seq<Node>, N2: seq<Node>, t: Shape, t': Shape, q: seq<Event>, x: nat)
    requires |q| >= 1 && UniqueIds(q) && CirclesOwned(N, t, q) && x in Ids(t) && x < |N| && N[x].Arc?
    requires N[x].intersecEvent == EventId(q[0].id) && Interior(Leaves(t), x)
    requires ArcsKept(N, N2)
    requires forall i :: 0 <= i < |N| && i != x && N2[i].Arc? ==> N2[i].intersecEvent == N[i].intersecEvent
    requires Leaves(t) == Before(t, x) + [x] + After(t, x) && Leaves(t') == Before(t, x) + After(t, x)
    ensures CirclesOwned(N2, t', q[1..])
  {
    var B, A := Before(t, x), After(t, x);
    forall e | e in q[1..] && !e.isNewSite
      ensures e.arc.At? && Interior(Leaves(t'), e.arc.idx) && e.arc.idx < |N2| && N2[e.arc.idx].Arc? &&
              N2[e.arc.idx].intersecEvent == EventId(e.id)
    {
      var j :| 0 <= j < |q[1..]| && q[1..][j] == e;
      assert e == q[j + 1] && e.id != q[0].id;
      InteriorRemove(B, A, x, e.arc.idx);
    }
  }

  lemma RemovalArcs(N: seq<Node>, N2: seq<Node>, t: Shape, t': Shape, q: seq<Event>, x: nat)
    requires |q| >= 1 && ArcsOwn(N, t, q) && x < |N| && q[0].arc == At(x)
    requires ArcsKept(N, N2)
    requires forall i :: 0 <= i < |N| && i != x && N2[i].Arc? ==> N2[i].intersecEvent == N[i].intersecEvent
    requires forall i :: i in Leaves(t) ==> i < |N|
    requires forall z :: z in Leaves(t') ==> z in Leaves(t) && z != x
    ensures ArcsOwn(N2, t', q[1..]) && NotPointed(N2, t', q[0].id)
  {
    RemovalArcsOwn(N, N2, t, t', q, x);
    forall z | z in Leaves(t') && z < |N2| && N2[z].Arc? ensures N2[z].intersecEvent != EventId(q[0].id) {
      assert z in Leaves(t) && z != x && z < |N|;
      assert N[z].intersecEvent != EventId(q[0].id) by {
        assert q[0] in q;
      }
    }
  }

  /** The arcs left after the removal of `x` refer only to their own events behind the head. */
  lemma RemovalArcsOwn(N: seq<Node>, N2: seq<Node>, t: Shape, t': Shape, q: seq<Event>, x: nat)
    requires |q| >= 1 && ArcsOwn(N, t, q) && x < |N|
    requires ArcsKept(N, N2)
    requires forall i :: 0 <= i < |N| && i != x && N2[i].Arc? ==> N2[i].intersecEvent == N[i].intersecEvent
    requires forall i :: i in Leaves(t) ==> i < |N|
    requires forall z :: z in Leaves(t') ==> z in Leaves(t) && z != x
    ensures ArcsOwn(N2, t', q[1..])
  {
    forall e, z | e in q[1..] && z in Leaves(t') && z < |N2| && N2[z].Arc? && N2[z].intersecEvent == EventId(e.id)
      ensures !e.isNewSite && e.arc == At(z)
    {
      assert z in Leaves(t) && z != x && z < |N|;
      assert N[z].Arc? && N[z].intersecEvent == EventId(e.id);
      assert e in q;
    }
  }

  /** The state before an event is handled: the whole queue is sorted and agrees with the tree. */
  ghost predicate Ready(s: Snapshot, t: Shape)
  {
    |s.events| >= 1 && UniqueIds(s.events) && IdsBelow(s.events, s.nextId) && SortedFrom(s.events, 0) &&
    EventsBelow(s.nodes, s.nextId) && ComplementsOk(s.nodes) && Pending(s.nodes, t, s.events) &&
    Encodes(s.nodes, t, Nil) && Distinct(t) && Full(t)
  }

  /** Verification plumbing: readiness, taken apart into its conjuncts. */
  lemma ReadyHolds(s: Snapshot, t: Shape)
    requires Ready(s, t) == true
    ensures Ready(s, t)
  {
  }

  /**
   * What RemoveArc needs of arc `x` of tree `t`: once its neighbour fields
   * are refreshed it is bounded on both sides and RemoveParabola can run,
   * leaving a tree rooted where `t'` is.
   */
  ghost predicate RemovalReady(N: seq<Node>, t: Shape, x: nat, t': Shape)
  {
    Encodes(N, t, Nil) && Distinct(t) && Full(t) && x in Ids(t) && x != t.id && x < |N| && N[x].Arc? &&
    var N1 := WithNeighbours(N, t, x);
    RemovalOk(N1, x) && N1[x].leftEdge.At? && N1[x].rightEdge.At? && N1[x].leftArc.At? && N1[x].rightArc.At? &&
    t'.id == (if Splice(N1, x)[OtherEdge(N1[x]).idx].parent == Nil then |N| else t.id)
  }

  /**
   * The removal of arc `x` of tree `t` at `pos` can run and leaves tree
   * `t'`: with its neighbour fields refreshed the arc is interior with edges
   * on both sides, RemoveParabola can run, the new tree holds the beach line
   * without it, both former neighbours are arcs of it below its root, and
   * the step invariant holds on it.
   */
  ghost predicate Removable(s: Snapshot, t: Shape, x: nat, pos: RPoint, t': Shape)
  {
    RemovalReady(s.nodes, t, x, t') &&
    var N1 := WithNeighbours(s.nodes, t, x);
    N1[x].leftEdge == LeftEdgeOf(t, x) && N1[x].rightEdge == RightEdgeOf(t, x) &&
    Encodes(N1, t, Nil) && Encodes(Removal(N1, x, pos), t', Nil) && Distinct(t') && Full(t') &&
    Leaves(t) == Before(t, x) + [x] + After(t, x) && Leaves(t') == Before(t, x) + After(t, x) &&
    N1[x].leftArc.idx in Leaves(t') && N1[x].rightArc.idx in Leaves(t') &&
    N1[x].leftArc.idx != t'.id && N1[x].rightArc.idx != t'.id &&
    StepInv(Removal(N1, x, pos), t', s.events, s.nextId) && ComplementsOk(Removal(N1, x, pos)) &&
    (forall i :: 0 <= i < |s.nodes| ==> Removal(N1, x, pos)[i].Edge? == s.nodes[i].Edge?)
  }

  /** Arc `x` of the beach line `t` has an edge on either side. */
  predicate BoundedArc(t: Shape, x: nat)
    requires x in Ids(t)
  {
    LeftEdgeOf(t, x).At? && RightEdgeOf(t, x).At?
  }

  /** The edges either side of arc `x` of `t`, left one first. */
  function Bounds(t: Shape, x: nat): seq<nat>
    requires x in Ids(t) && BoundedArc(t, x)
  {
    [LeftEdgeOf(t, x).idx, RightEdgeOf(t, x).idx]
  }

  /**
   * Removing the arc whose circle event heads the queue: it is interior, so
   * RemoveParabola can run and both neighbours survive; the new tree holds the
   * beach line without it, and the step invariant holds on it.
   */
  lemma RemovalKeeps(s: Snapshot, t: Shape, x: nat, pos: RPoint) returns (t': Shape)
    requires Ready(s, t) && !s.events[0].isNewSite && s.events[0].arc == At(x)
    ensures Removable(s, t, x, pos, t') && Rebound(s, t, x, t')
  {
    var N, q := s.nodes, s.events;
    HeadCircle(N, t, q, x);
    ArcIsLeafOf(N, t, x);
    InteriorNeighbours(N, t, x);
    var N1 := WithNeighbours(N, t, x);
    assert N1[x].leftArc == LeftArcOf(t, x) && N1[x].rightArc == RightArcOf(t, x);
    EncodesFrame(N, N1, t, Nil);
    t' := RemoveTree(N1, t, x, pos);
    RemovedEdges(N1, t, x);
    var N2 := Removal(N1, x, pos);
    KeptTwice(N, N1, N2, x);
    RemovalInv(N, N2, t, t', q, s.nextId, x);
    RemovedRoot(N2, t', Leaves(t'), Before(t, x), After(t, x), N1[x].leftArc.idx, N1[x].rightArc.idx);
  }

  /**
   * The tree `t'` left by removing arc `x` of `t`: the arc and both its
   * edges leave the tree, which they were distinct nodes of, and the edge
   * appended to the arena joins it.
   */
  ghost predicate Rebound(s: Snapshot, t: Shape, x: nat, t': Shape)
  {
    x < |s.nodes| && x in Ids(t) && s.nodes[x].Arc? &&
    var N1 := WithNeighbours(s.nodes, t, x);
    N1[x].leftEdge.At? && N1[x].rightEdge.At? &&
    var le, re := N1[x].leftEdge.idx, N1[x].rightEdge.idx;
    Ids(t') == Ids(t) - {x, le, re} + {|s.nodes|} && le != re && le in Ids(t) && re in Ids(t)
  }

  /** The two edges either side of an interior arc are distinct nodes of the tree. */
  lemma RemovedEdges(N: seq<Node>, t: Shape, x: nat)
    requires Encodes(N, t, Nil) && Distinct(t) && Full(t) && x in Ids(t) && N[x].Arc?
    requires N[x].leftEdge == LeftEdgeOf(t, x) != Nil && N[x].rightEdge == RightEdgeOf(t, x) != Nil
    ensures N[x].leftEdge.idx != N[x].rightEdge.idx && N[x].leftEdge.idx in Ids(t) && N[x].rightEdge.idx in Ids(t)
  {
    var p, o := RemoveBounds(N, t, x);
  }

  /** The circle event at the head of the queue belongs to an interior arc, which points back at it. */
  lemma HeadCircle(N: seq<Node>, t: Shape, q: seq<Event>, x: nat)
    requires |q| >= 1 && CirclesOwned(N, t, q) && !q[0].isNewSite && q[0].arc == At(x)
    ensures Interior(Leaves(t), x) && x < |N| && N[x].Arc? && N[x].intersecEvent == EventId(q[0].id)
  {
    assert q[0] in q;
  }

  /** Verification plumbing: refreshing the neighbour fields and then removing keeps the old arcs and complements. */
  lemma KeptTwice(N: seq<Node>, N1: seq<Node>, N2: seq<Node>, x: nat)
    requires |N1| == |N| && x < |N| && N[x].Arc? && ArcsKept(N, N1) && ArcsKept(N1, N2) && ComplementsKept(N1, N2)
    requires forall i :: 0 <= i < |N| && i != x ==> N1[i] == N[i]
    ensures ArcsKept(N, N2) && ComplementsKept(N, N2)
  {
  }

  /** An interior leaf of the tree is an arc node of it below the root. */
  lemma ArcIsLeafOf(N: seq<Node>, t: Shape, x: nat)
    requires Encodes(N, t, Nil) && Full(t) && Interior(Leaves(t), x)
    ensures x in Ids(t) && x < |N| && N[x].Arc? && x != t.id
  {
    LeavesInIds(t);
    LeavesAreArcs(N, t, Nil);
    assert N[t.id].Arc? ==> t.Leaf?;
    if t.Leaf? {
      assert Leaves(t) == [t.id];
    }
    assert x != t.id;
  }

  /** Two arcs of a tree with at least two leaves lie below its root. */
  lemma RemovedRoot(N: seq<Node>, t: Shape, L: seq<nat>, B: seq<nat>, A: seq<nat>, l: nat, r: nat)
    requires Encodes(N, t, Nil) && Full(t) && L == Leaves(t) == B + A && l in B && r in A
    ensures l in L && r in L && l != t.id && r != t.id
  {
    LeavesInIds(t);
    LeavesAreArcs(N, t, Nil);
    assert t.Fork?;
  }

  /** Verification plumbing: Removable, taken apart into its conjuncts. */
  lemma RemovableHolds(s: Snapshot, t: Shape, x: nat, pos: RPoint, t': Shape)
    requires Removable(s, t, x, pos, t') == true
    ensures Removable(s, t, x, pos, t')
  {
  }

  /** The edges recorded on a removable arc are its bounds on the beach line, left one first. */
  lemma RemovableBounds(s: Snapshot, t: Shape, x: nat, pos: RPoint, t': Shape)
    requires Removable(s, t, x, pos, t') == true
    ensures x < |s.nodes| && x in Ids(t) && s.nodes[x].Arc? && BoundedArc(t, x)
    ensures var N1 := WithNeighbours(s.nodes, t, x);
      Bounds(t, x) == [N1[x].leftEdge.idx, N1[x].rightEdge.idx]
  {
    RemovableHolds(s, t, x, pos, t');
  }

  /**
   * HandleIntersecEvent once the arc `x` is removed, leaving tree `t'`, and
   * its old neighbours are rechecked: the outcome is CircleStep and the step
   * invariant holds on the new tree.
   */
  lemma CircleDone(s: Snapshot, t: Shape, t': Shape, x: nat, pos: RPoint, geo: Numerics, sweepline: real)
    requires |s.events| >= 1 && Removable(s, t, x, pos, t') == true
    ensures var N1 := WithNeighbours(s.nodes, t, x);
      var s2 := Snapshot(Removal(N1, x, pos), s.events, s.nextId);
      var s' := Recheck(Recheck(s2, t', N1[x].leftArc.idx, geo, sweepline), t', N1[x].rightArc.idx, geo, sweepline);
      CircleStep(s, t, t', x, pos, geo, sweepline) == s' && Stepped(s, t, s', t')
  {
    RemovableHolds(s, t, x, pos, t');
    var N1 := WithNeighbours(s.nodes, t, x);
    RecheckTwice(Snapshot(Removal(N1, x, pos), s.events, s.nextId), t', N1[x].leftArc.idx, N1[x].rightArc.idx,
                 geo, sweepline);
    CircleStepIs(s, t, t', x, pos, geo, sweepline);
  }

  /** Unfolds CircleStep where the arc can be removed. */
  lemma CircleStepIs(s: Snapshot, t: Shape, t': Shape, x: nat, pos: RPoint, geo: Numerics, sweepline: real)
    requires x < |s.nodes| && x in Ids(t) && s.nodes[x].Arc?
    requires var N1 := WithNeighbours(s.nodes, t, x); RemovalOk(N1, x) && N1[x].leftArc.At? && N1[x].rightArc.At?
    ensures var N1 := WithNeighbours(s.nodes, t, x);
      var s2 := Snapshot(Removal(N1, x, pos), s.events, s.nextId);
      CircleStep(s, t, t', x, pos, geo, sweepline) ==
        Recheck(Recheck(s2, t', N1[x].leftArc.idx, geo, sweepline), t', N1[x].rightArc.idx, geo, sweepline)
  {
  }

  /** When a site event heads a ready queue the step invariant holds: no arc points at it. */
  lemma ReadySite(s: Snapshot, t: Shape)
    requires Ready(s, t) && s.events[0].isNewSite
    ensures StepInv(s.nodes, t, s.events, s.nextId)
  {
    var q := s.events;
    assert q[0] in q;
    PendingSub(s.nodes, t, q, q[1..]);
    SortedTail(q, 0);
  }

  /** When a site event heads a ready queue the state is sound. */
  lemma ReadySound(s: Snapshot, t: Shape)
    requires Ready(s, t) == true && s.events[0].isNewSite
    ensures Sound(s, t) == true
  {
    ReadyHolds(s, t);
    ReadySite(s, t);
    assert Sound(s, t);
  }

  /** Verification plumbing: a queue sorted from `k` is sorted from any later index. */
  lemma SortedTail(q: seq<Event>, k: nat)
    requires SortedFrom(q, k)
    ensures SortedFrom(q, k + 1)
  {
  }

  /** Once the handled event leaves the queue, the rest is sorted with unique identities. */
  lemma StepDone(q: seq<Event>, next: nat)
    requires |q| >= 1 && UniqueIds(q) && IdsBelow(q, next) && SortedFrom(q, 1)
    ensures UniqueIds(q[1..]) && IdsBelow(q[1..], next) && SortedFrom(q[1..], 0)
  {
    forall i, j | 0 <= i < j < |q[1..]| ensures q[1..][i].id != q[1..][j].id && InOrder(q[1..][i], q[1..][j]) {
      assert q[1..][i] == q[i + 1] && q[1..][j] == q[j + 1];
    }
  }

  // ----- HandleSiteEvent on an empty tree -----

  /**
   * The seeding loop can run on the queue `q`: it reads q[1] on every round,
   * and as long as q[1] is as high as q[0] the two sites differ once rounded.
   */
  predicate SeedOk(q: seq<Event>)
  {
    |q| >= 2 && (q[0].y == q[1].y ==> RoundPoint(q[0].pos) != RoundPoint(q[1].pos) && SeedOk(q[1..]))
  }

  /** The start the seeding loop gives both edges between the sites of q[0] and q[1]. */
  function SeedStart(a: Event, b: Event, mapSize: int): RPoint
  {
    RPoint(a.pos.x + (b.pos.x - a.pos.x) / 2.0, 10.0 * mapSize as real)
  }

  /** New arcs carry no event and new edges no complement. */
  ghost predicate FreshTail(N: seq<Node>, from: nat)
  {
    forall i :: from <= i < |N| ==>
      (N[i].Arc? ==> N[i].intersecEvent == NoEvent) && (N[i].Edge? ==> N[i].complement == Nil)
  }

  /**
   * One round of the seeding loop: arc `cur`, whose focus is the site of `a`,
   * is split at the site of `b`, and both new edges are given the two sites
   * and the start between them, which also forgets their complements.
   */
  function SeedRound(N: seq<Node>, cur: nat, a: Event, b: Event, mapSize: int): (r: seq<Node>)
    requires cur < |N| && N[cur].Arc? && N[cur].focus == RoundPoint(a.pos) && ParentOk(N, cur)
    requires RoundPoint(a.pos) != RoundPoint(b.pos)
    ensures var n := |N|;
      |r| == n + 5 && r[n + 3] == NewArc(RoundPoint(b.pos), At(n + 2)) && r[n + 2].Edge? &&
      r[n].Edge? && r[n].firstSite == RoundPoint(a.pos) && r[n].secondSite == RoundPoint(b.pos) &&
      r[n + 2].firstSite == RoundPoint(b.pos) && r[n + 2].secondSite == RoundPoint(a.pos) &&
      r[n].start == r[n + 2].start == SeedStart(a, b, mapSize)
    ensures ArcsKept(N, r) && ComplementsKept(N, r) && FreshTail(r, |N|)
    ensures forall i :: 0 <= i < |N| && At(i) != N[cur].parent ==> r[i] == N[i]
  {
    var n, site, start := |N|, RoundPoint(b.pos), SeedStart(a, b, mapSize);
    var N1 := Split(N, cur, b.y, site);
    var N2 := N1[n := UpdateMembers(N1[n], N1[n + 1].focus, N1[n + 3].focus, start)];
    N2[n + 2 := UpdateMembers(N2[n + 2], N2[n + 3].focus, N2[n + 4].focus, start)]
  }

  /**
   * `R` grew from `N` by seeding from arc `cur`: old arcs and complements are
   * kept, new arcs carry no event, new edges no complement, and the old nodes
   * are untouched apart from the parent of `cur`, whose child link moves.
   */
  ghost predicate SeedFrame(N: seq<Node>, R: seq<Node>, cur: nat)
    requires cur < |N|
  {
    ArcsKept(N, R) && ComplementsKept(N, R) && FreshTail(R, |N|) &&
    forall i :: 0 <= i < |N| && At(i) != N[cur].parent ==> R[i] == N[i]
  }

  /** `p` is what is left of `q` after dropping a run of equally high events, and p[0] ends the run. */
  ghost predicate RunDropped(q: seq<Event>, p: seq<Event>)
  {
    2 <= |p| <= |q| && p == q[|q| - |p|..] && p[0].y != p[1].y &&
    forall k :: 0 <= k < |q| - |p| ==> q[k].y == q[k + 1].y
  }

  /**
   * The seeding loop of HandleSiteEvent: while the first two events are
   * equally high, the current arc `cur` (whose focus is the first site) is
   * split at the second site (SeedRound), the new middle arc becomes current,
   * and the first event leaves the queue.  The result is the arena and the
   * queue after the loop.
   */
  ghost function Seeded(N: seq<Node>, cur: nat, q: seq<Event>, mapSize: int): (r: (seq<Node>, seq<Event>))
    requires SeedOk(q) && cur < |N| && N[cur].Arc? && N[cur].focus == RoundPoint(q[0].pos) && ParentOk(N, cur)
    ensures RunDropped(q, r.1) && SeedFrame(N, r.0, cur)
    decreases |q|
  {
    if q[0].y != q[1].y then
      assert SeedFrame(N, N, cur);
      (N, q)
    else
      var N3 := SeedRound(N, cur, q[0], q[1], mapSize);
      var r := Seeded(N3, |N| + 3, q[1..], mapSize);
      SeedCompose(N, N3, r.0, cur);
      RunSuffix(q, r.1);
      r
  }

  /** Verification plumbing: two equally high queued sites round to different points, read off `SeedOk`. */
  lemma SeedDistinct(q: seq<Event>)
    requires SeedOk(q) && q[0].y == q[1].y
    ensures RoundPoint(q[0].pos) != RoundPoint(q[1].pos)
  {
  }

  /** One round of the seeding loop, from arena `N` to arena `M`, and what the next round needs. */
  lemma SeedUnfold(N: seq<Node>, cur: nat, q: seq<Event>, M: seq<Node>, mapSize: int)
    requires SeedOk(q) && cur < |N| && N[cur].Arc? && N[cur].focus == RoundPoint(q[0].pos) && ParentOk(N, cur)
    requires q[0].y == q[1].y && RoundPoint(q[0].pos) != RoundPoint(q[1].pos)
    requires M == SeedRound(N, cur, q[0], q[1], mapSize)
    ensures SeedOk(q[1..]) && M[|N| + 3].Arc? && M[|N| + 3].focus == RoundPoint(q[1..][0].pos)
    ensures ParentOk(M, |N| + 3)
    ensures Seeded(N, cur, q, mapSize) == Seeded(M, |N| + 3, q[1..], mapSize)
  {
    assert q[1..][0] == q[1] && M[|N| + 3] == NewArc(RoundPoint(q[1].pos), At(|N| + 2));
  }

  /** The facts about one seeding round and the rounds after it add up. */
  lemma SeedCompose(N: seq<Node>, N3: seq<Node>, R: seq<Node>, cur: nat)
    requires cur < |N| && |N3| == |N| + 5 && N3[|N| + 3].parent == At(|N| + 2)
    requires ArcsKept(N, N3) && ComplementsKept(N, N3) && FreshTail(N3, |N|)
    requires forall i :: 0 <= i < |N| && At(i) != N[cur].parent ==> N3[i] == N[i]
    requires SeedFrame(N3, R, |N| + 3)
    ensures SeedFrame(N, R, cur)
  {
    forall i | |N| <= i < |N3|
      ensures (R[i].Arc? ==> R[i].intersecEvent == NoEvent) && (R[i].Edge? ==> R[i].complement == Nil)
    {
      assert R[i].Arc? == N3[i].Arc?;
    }
  }

  /** Dropping one more equally high event in front of a run. */
  lemma RunSuffix(q: seq<Event>, p: seq<Event>)
    requires |q| >= 2 && q[0].y == q[1].y && RunDropped(q[1..], p)
    ensures RunDropped(q, p)
  {
    assert q[1..][|q[1..]| - |p|..] == q[|q| - |p|..];
    forall k | 1 <= k < |q| - |p| ensures q[k].y == q[k + 1].y {
      assert q[1..][k - 1] == q[k] && q[1..][k] == q[k + 1];
    }
  }

  /** Every queued event is a site event. */
  predicate AllSites(q: seq<Event>)
  {
    forall e :: e in q ==> e.isNewSite
  }

  /**
   * HandleSiteEvent on an empty tree, for a queue of site events: the tree
   * is the first site's arc alone, whatever the seeding loop built beside it,
   * and the step invariant holds with the queue the loop leaves.
   */
  lemma SeedKeeps(q: seq<Event>, next: nat, mapSize: int)
    requires SeedOk(q) && AllSites(q) && UniqueIds(q) && IdsBelow(q, next) && SortedFrom(q, 0)
    ensures var N0 := [NewArc(RoundPoint(q[0].pos), Nil)];
      var r := Seeded(N0, 0, q, mapSize);
      r.0[0] == N0[0] && RunDropped(q, r.1) && AllSites(r.1) &&
      StepInv(r.0, Leaf(0), r.1, next) && Encodes(r.0, Leaf(0), Nil) && Distinct(Leaf(0)) && Full(Leaf(0)) &&
      ComplementsOk(r.0)
  {
    var N0 := [NewArc(RoundPoint(q[0].pos), Nil)];
    var r := Seeded(N0, 0, q, mapSize);
    assert r.0[0] == N0[0];
    SuffixQueue(q, r.1, next);
    LoneArc(r.0, r.1, next);
  }

  /** What is left of a queue of site events after a run is dropped is one too. */
  lemma SuffixQueue(q: seq<Event>, p: seq<Event>, next: nat)
    requires AllSites(q) && UniqueIds(q) && IdsBelow(q, next) && SortedFrom(q, 0)
    requires |p| <= |q| && p == q[|q| - |p|..]
    ensures AllSites(p) && UniqueIds(p) && IdsBelow(p, next) && SortedFrom(p, 0)
  {
    forall e | e in p ensures e in q {
      var j :| 0 <= j < |p| && p[j] == e;
      assert e == q[|q| - |p| + j];
    }
    forall i, j | 0 <= i < j < |p| ensures p[i].id != p[j].id && InOrder(p[i], p[j]) {
      assert p[i] == q[|q| - |p| + i] && p[j] == q[|q| - |p| + j];
    }
    forall i | 0 <= i < |p| ensures p[i].id < next {
      assert p[i] == q[|q| - |p| + i];
    }
  }

  /** An arena whose only tree node in use is the lone arc 0, beside fresh nodes, is ready for site events. */
  lemma LoneArc(R: seq<Node>, p: seq<Event>, next: nat)
    requires |R| >= 1 && R[0].Arc? && R[0].parent == Nil && R[0].intersecEvent == NoEvent && FreshTail(R, 1)
    requires |p| >= 1 && AllSites(p) && UniqueIds(p) && IdsBelow(p, next) && SortedFrom(p, 0)
    ensures StepInv(R, Leaf(0), p, next) && Encodes(R, Leaf(0), Nil) && Distinct(Leaf(0)) && Full(Leaf(0))
    ensures ComplementsOk(R)
  {
    assert Leaves(Leaf(0)) == [0];
    forall e | e in p[1..] ensures e in p {
      var j :| 0 <= j < |p[1..]| && p[1..][j] == e;
      assert e == p[j + 1];
    }
  }

  /** Collected edges stay edges in an arena that only grew and kept its tags. */
  lemma EdgesKept(N: seq<Node>, N': seq<Node>, CE: seq<nat>)
    requires EdgesOk(N, CE) && |N| <= |N'| && forall i :: 0 <= i < |N| ==> N'[i].Edge? == N[i].Edge?
    ensures EdgesOk(N', CE)
  {
  }

  /** The constructor's queue holds site events only, sorted, with identities 0 .. |sites| - 1. */
  lemma SiteQueueReady(sites: seq<RPoint>)
    ensures var q := SiteQueue(sites, 0);
      UniqueIds(q) && IdsBelow(q, |sites|) && SortedFrom(q, 0) && AllSites(q)
  {
    var q := SiteQueue(sites, 0);
    SiteQueueSorted(sites, 0);
    SiteQueueUnique(sites, 0);
    SiteQueueEvents(sites, 0);
    assert forall j :: 0 <= j < |q| ==> IsSiteEvent(q[j], 0, |sites|);
  }

  // ----- sites apart -----

  /** No two queued site events fall on the same point once rounded. */
  ghost predicate SitesApart(q: seq<Event>)
  {
    forall e1, e2 :: e1 in q && e2 in q && e1.isNewSite && e2.isNewSite && e1 != e2 ==>
      RoundPoint(e1.pos) != RoundPoint(e2.pos)
  }

  /** No queued site falls, once rounded, on the focus of an arc of the beach line `t`. */
  ghost predicate FociApart(N: seq<Node>, t: Shape, q: seq<Event>)
  {
    forall z, e :: z in Leaves(t) && z < |N| && N[z].Arc? && e in q && e.isNewSite ==>
      N[z].focus != RoundPoint(e.pos)
  }

  /**
   * The queued sites of state `s` are pairwise apart and apart from every
   * focus on the beach line `t`, so that no split is asked for at a site
   * that coincides with the focus above it.
   */
  ghost predicate Apart(s: Snapshot, t: Shape)
  {
    SitesApart(s.events) && FociApart(s.nodes, t, s.events)
  }

  /** The input positions are pairwise distinct once rounded. */
  predicate RoundedApart(ps: seq<RPoint>)
  {
    forall j, k :: 0 <= j < k < |ps| ==> RoundPoint(ps[j]) != RoundPoint(ps[k])
  }

  /** Arcs stay arcs with the same focus; the arena only grows. */
  ghost predicate FociKept(N: seq<Node>, N': seq<Node>)
  {
    |N| <= |N'| && forall i :: 0 <= i < |N| && N[i].Arc? ==> N'[i].Arc? && N'[i].focus == N[i].focus
  }

  /** The constructor's queue of input sites that differ once rounded is apart, before there is a tree. */
  lemma StartApart(sites: seq<RPoint>, t: Shape)
    requires RoundedApart(sites)
    ensures Apart(Snapshot([], SiteQueue(sites, 0), |sites|), t)
  {
    SiteQueueMembers(sites, 0);
    var q := SiteQueue(sites, 0);
    forall e1, e2 | e1 in q && e2 in q && e1.isNewSite && e2.isNewSite && e1 != e2
      ensures RoundPoint(e1.pos) != RoundPoint(e2.pos)
    {
      var j, k := e1.id, e2.id;
      assert j != k;
      if j < k {
        assert RoundPoint(sites[j]) != RoundPoint(sites[k]);
      } else {
        assert RoundPoint(sites[k]) != RoundPoint(sites[j]);
      }
    }
  }

  /** Dropping an event adds none. */
  lemma DroppedIn(q: seq<Event>, ev: EventRef)
    ensures forall f :: f in Dropped(q, ev) ==> f in q
  {
    if ev.EventId? {
      RemoveFirstFacts(q, ev.id);
      var r := RemoveFirst(q, ev.id);
      forall f | f in r ensures f in q {
        assert f in multiset(r);
      }
    }
  }

  /** CheckForIntersectionEvent queues no site event and keeps every focus. */
  lemma RecheckSites(s: Snapshot, t: Shape, x: nat, geo: Numerics, sweepline: real)
    ensures var s' := Recheck(s, t, x, geo, sweepline);
      (forall f :: f in s'.events && f.isNewSite ==> f in s.events) && FociKept(s.nodes, s'.nodes) &&
      |s'.nodes| == |s.nodes|
  {
    if RecheckOk(s, t, x) {
      var q := Dropped(s.events, s.nodes[x].intersecEvent);
      DroppedIn(s.events, s.nodes[x].intersecEvent);
      var c := Probe(s.nodes, t, x, geo, 0.0);
      if Qualifies(c.0, c.2, sweepline) {
        var e := Event(s.nextId, c.1, false, At(x), c.2);
        var i := InsertIndex(q, 1, c.2, c.1.x);
        InsertContents(q, i, e);
        forall f | f in Insert(q, i, e) && f.isNewSite ensures f in s.events {
          assert f in multiset(Insert(q, i, e));
        }
      }
    }
  }

  /** Both rechecks after a split queue no site event and keep every focus. */
  lemma RecheckedSites(s1: Snapshot, t1: Shape, n: nat, geo: Numerics, sweepline: real)
    ensures var s' := Rechecked(s1, t1, n, geo, sweepline);
      (forall f :: f in s'.events && f.isNewSite ==> f in s1.events) && FociKept(s1.nodes, s'.nodes) &&
      |s'.nodes| == |s1.nodes|
  {
    RecheckSites(s1, t1, n + 1, geo, sweepline);
    RecheckSites(Recheck(s1, t1, n + 1, geo, sweepline), t1, n + 4, geo, sweepline);
  }

  /**
   * A step that queues no site event, keeps the foci of the old arcs and
   * gives new arcs only foci from `extra`, keeps the sites apart once the
   * head leaves the queue, when no site left in it falls on `extra`.
   */
  lemma ApartKept(N: seq<Node>, t: Shape, q: seq<Event>, N': seq<Node>, t': Shape, q': seq<Event>,
                  extra: set<IPoint>)
    requires SitesApart(q) && FociApart(N, t, q) && |q'| >= 1
    requires forall f :: f in q' && f.isNewSite ==> f in q
    requires forall f :: f in q'[1..] && f.isNewSite ==> RoundPoint(f.pos) !in extra
    requires forall z :: z in Leaves(t') && z < |N'| && N'[z].Arc? ==>
      N'[z].focus in extra || (z in Leaves(t) && z < |N| && N[z].Arc? && N'[z].focus == N[z].focus)
    ensures SitesApart(q'[1..]) && FociApart(N', t', q'[1..])
  {
    forall f | f in q'[1..] ensures f in q' {
      var j :| 0 <= j < |q'[1..]| && q'[1..][j] == f;
      assert f == q'[j + 1];
    }
  }

  /** The sites left behind the head of a queue with unique identities differ from the head. */
  lemma BehindHead(q: seq<Event>)
    requires |q| >= 1 && UniqueIds(q)
    ensures forall f :: f in q[1..] ==> f in q && f != q[0]
  {
    forall f | f in q[1..] ensures f in q && f != q[0] {
      var j :| 0 <= j < |q[1..]| && q[1..][j] == f;
      assert f == q[j + 1];
    }
  }

  /**
   * HandleSiteEvent on a beach line keeps the sites apart: the new arcs
   * have the old focus or the handled site, which leaves the queue.
   */
  lemma SiteApart(s: Snapshot, t: Shape, e: Event, geo: Numerics)
    requires Sound(s, t) == true && e == s.events[0] && e.isNewSite && Apart(s, t)
    ensures var r := SiteStep(s, t, e, geo);
      |r.0.events| >= 1 && Apart(Snapshot(r.0.nodes, r.0.events[1..], r.0.nextId), r.1)
  {
    assert e in s.events;
    SiteQueued(s, t, e, geo);
    SiteFoci(s, t, e, geo);
    LocatedArc(s, t, e, geo);
    SoundHolds(s, t);
    var N, a := s.nodes, Locate(s.nodes, t, e.y, e.pos.x, geo);
    ArcIsLeaf(N, t, a);
    var r := SiteStep(s, t, e, geo);
    var extra := {RoundPoint(e.pos), N[a].focus};
    forall f | f in r.0.events[1..] && f.isNewSite ensures RoundPoint(f.pos) !in extra {
      assert f in s.events && f != e;
    }
    ApartKept(N, t, s.events, r.0.nodes, r.1, r.0.events, extra);
  }

  /** HandleSiteEvent queues no site event, and the handled one stays at the head only. */
  lemma SiteQueued(s: Snapshot, t: Shape, e: Event, geo: Numerics)
    requires Sound(s, t) == true && e == s.events[0] && e.isNewSite && FociApart(s.nodes, t, s.events)
    ensures var r := SiteStep(s, t, e, geo).0;
      |r.events| >= 1 && (forall f :: f in r.events && f.isNewSite ==> f in s.events) &&
      (forall f :: f in r.events[1..] ==> f != e)
  {
    SiteHead(s, t, e, geo);
    SiteSites(s, t, e, geo);
  }

  /** The handled site event heads the queue HandleSiteEvent leaves, and only there. */
  lemma SiteHead(s: Snapshot, t: Shape, e: Event, geo: Numerics)
    requires Sound(s, t) == true && e == s.events[0] && e.isNewSite && FociApart(s.nodes, t, s.events)
    ensures var r := SiteStep(s, t, e, geo).0;
      |r.events| >= 1 && forall f :: f in r.events[1..] ==> f != e
  {
    assert e in s.events;
    SiteKeeps(s, t, e, geo);
    BehindHead(SiteStep(s, t, e, geo).0.events);
  }

  /** HandleSiteEvent queues no site event. */
  lemma SiteSites(s: Snapshot, t: Shape, e: Event, geo: Numerics)
    requires Sound(s, t) == true && e in s.events && e.isNewSite && FociApart(s.nodes, t, s.events)
    ensures forall f :: f in SiteStep(s, t, e, geo).0.events && f.isNewSite ==> f in s.events
  {
    LocatedArc(s, t, e, geo);
    LocatedApart(s, t, e, geo);
    var N, a := s.nodes, Locate(s.nodes, t, e.y, e.pos.x, geo);
    var site, n, sweepline := RoundPoint(e.pos), |N|, RoundToInt(e.y) as real;
    SiteParts(s, t, e, geo);
    DroppedIn(s.events, N[a].intersecEvent);
    RecheckedSites(Splitting(s, a, site, geo), Subst(t, a, SplitShape(n)), n, geo, sweepline);
  }

  /**
   * After HandleSiteEvent every arc of the new beach line has the handled
   * site as its focus, or the focus of the split arc, or is an old arc
   * keeping its focus.
   */
  lemma SiteFoci(s: Snapshot, t: Shape, e: Event, geo: Numerics)
    requires Sound(s, t) == true && e in s.events && e.isNewSite && FociApart(s.nodes, t, s.events)
    ensures var N, a, r := s.nodes, Locate(s.nodes, t, e.y, e.pos.x, geo), SiteStep(s, t, e, geo);
      a < |N| && N[a].Arc? && forall z :: z in Leaves(r.1) && z < |r.0.nodes| && r.0.nodes[z].Arc? ==>
        r.0.nodes[z].focus == RoundPoint(e.pos) || r.0.nodes[z].focus == N[a].focus ||
        (z in Leaves(t) && z < |N| && N[z].Arc? && r.0.nodes[z].focus == N[z].focus)
  {
    LocatedArc(s, t, e, geo);
    LocatedApart(s, t, e, geo);
    SoundHolds(s, t);
    var N, a := s.nodes, Locate(s.nodes, t, e.y, e.pos.x, geo);
    var site, n, sweepline := RoundPoint(e.pos), |N|, RoundToInt(e.y) as real;
    SiteParts(s, t, e, geo);
    var s1, t1 := Splitting(s, a, site, geo), Subst(t, a, SplitShape(n));
    var s3 := Rechecked(s1, t1, n, geo, sweepline);
    RecheckedSites(s1, t1, n, geo, sweepline);
    SplitKeepsFoci(N, t, a, YOfIntersection(N[a].focus, site, geo), site);
    forall z | z in Leaves(t1) && z < |s3.nodes| && s3.nodes[z].Arc?
      ensures s3.nodes[z].focus == site || s3.nodes[z].focus == N[a].focus ||
        (z in Leaves(t) && z < n && N[z].Arc? && s3.nodes[z].focus == N[z].focus)
    {
      assert z < |s1.nodes| && s1.nodes[z].Arc?;
    }
  }

  /** After a split every arc of the new beach line has the site or the old focus, or is an old arc. */
  lemma SplitKeepsFoci(N: seq<Node>, t: Shape, a: nat, y: real, site: IPoint)
    requires Encodes(N, t, Nil) && Distinct(t) && a in Ids(t) && a < |N| && N[a].Arc? && N[a].focus != site
    requires ParentOk(N, a)
    ensures var N1, n := Split(N, a, y, site), |N|;
      forall z :: z in Leaves(Subst(t, a, SplitShape(n))) ==>
        z < |N1| && N1[z].Arc? &&
        (N1[z].focus == site || N1[z].focus == N[a].focus || (z in Leaves(t) && z < n && N[z].Arc? && N1[z] == N[z]))
  {
    var N1, n := Split(N, a, y, site), |N|;
    LeafPosition(N, t, Nil, a);
    LeavesAreArcs(N, t, Nil);
    SplitLeafIds(t, a, n);
    forall z | z in Leaves(Subst(t, a, SplitShape(n)))
      ensures z < |N1| && N1[z].Arc? &&
        (N1[z].focus == site || N1[z].focus == N[a].focus || (z in Leaves(t) && z < n && N[z].Arc? && N1[z] == N[z]))
    {
      if z in Leaves(t) && z != a {
        var j :| 0 <= j < |Leaves(t)| && Leaves(t)[j] == z;
        assert z < n && N[z].Arc?;
      }
    }
  }

  /** The leaves after splitting leaf `a` of `t`: the three new arcs and the old leaves other than `a`. */
  lemma SplitLeafIds(t: Shape, a: nat, n: nat)
    requires Distinct(t) && a in Ids(t) && Leaves(t) == Before(t, a) + [a] + After(t, a)
    ensures forall z :: z in Leaves(Subst(t, a, SplitShape(n))) ==>
      z == n + 1 || z == n + 3 || z == n + 4 || (z in Leaves(t) && z != a)
  {
    LeavesDistinct(t);
    SplitLeaves(t, a, n);
    var B, A := Before(t, a), After(t, a);
    forall z | z in Leaves(Subst(t, a, SplitShape(n)))
      ensures z == n + 1 || z == n + 3 || z == n + 4 || (z in Leaves(t) && z != a)
    {
      if z in B {
        var j :| 0 <= j < |B| && B[j] == z;
        assert Leaves(t)[j] == z && Leaves(t)[|B|] == a;
      } else if z in A {
        var j :| 0 <= j < |A| && A[j] == z;
        assert Leaves(t)[|B| + 1 + j] == z && Leaves(t)[|B|] == a;
      }
    }
  }

  /** HandleIntersecEvent keeps the sites apart: the arcs left keep their foci and no site is queued. */
  lemma CircleApart(s: Snapshot, t: Shape, x: nat, pos: RPoint, t': Shape, geo: Numerics, sweepline: real)
    requires |s.events| >= 1 && Removable(s, t, x, pos, t') == true && Apart(s, t)
    ensures var r := CircleStep(s, t, t', x, pos, geo, sweepline);
      |r.events| >= 1 && Apart(Snapshot(r.nodes, r.events[1..], r.nextId), t')
  {
    RemovableHolds(s, t, x, pos, t');
    CircleDone(s, t, t', x, pos, geo, sweepline);
    var N1 := WithNeighbours(s.nodes, t, x);
    var N2 := Removal(N1, x, pos);
    KeptTwice(s.nodes, N1, N2, x);
    var s2 := Snapshot(N2, s.events, s.nextId);
    var s3 := Recheck(s2, t', N1[x].leftArc.idx, geo, sweepline);
    var r := Recheck(s3, t', N1[x].rightArc.idx, geo, sweepline);
    RecheckSites(s2, t', N1[x].leftArc.idx, geo, sweepline);
    RecheckSites(s3, t', N1[x].rightArc.idx, geo, sweepline);
    RemovedLeaves(t, t', x);
    LeavesAreArcs(s.nodes, t, Nil);
    ApartKept(s.nodes, t, s.events, r.nodes, t', r.events, {});
  }

  /**
   * The first site event keeps the sites apart: the lone arc has the first
   * site as its focus, and every site left behind the run differs from it.
   */
  lemma SeedApart(q: seq<Event>, next: nat, mapSize: int)
    requires SeedOk(q) && AllSites(q) && UniqueIds(q) && SitesApart(q)
    ensures var r := Seeded([NewArc(RoundPoint(q[0].pos), Nil)], 0, q, mapSize);
      |r.1| >= 1 && Apart(Snapshot(r.0, r.1[1..], next), Leaf(0))
  {
    var N0 := [NewArc(RoundPoint(q[0].pos), Nil)];
    var r := Seeded(N0, 0, q, mapSize);
    assert Leaves(Leaf(0)) == [0];
    assert r.0[0].focus == RoundPoint(q[0].pos);
    RunBehind(q, r.1);
  }

  /** The events left behind a dropped run's end are events of the queue other than its head. */
  lemma RunBehind(q: seq<Event>, p: seq<Event>)
    requires RunDropped(q, p) && UniqueIds(q)
    ensures forall f :: f in p[1..] ==> f in q && f != q[0]
  {
    var d := |q| - |p|;
    forall f | f in p[1..] ensures f in q && f != q[0] {
      var j :| 0 <= j < |p[1..]| && p[1..][j] == f;
      assert f == q[d + 1 + j];
      assert q[0].id != q[d + 1 + j].id;
    }
  }

  // ----- collected edges -----

  /** No edge is collected twice. */
  predicate NoDuplicates(s: seq<nat>)
  {
    forall i, j :: 0 <= i < j < |s| ==> s[i] != s[j]
  }

  /** No collected edge is still a node of the tree `t`. */
  ghost predicate OffTree(CE: seq<nat>, t: Shape)
  {
    forall k :: 0 <= k < |CE| ==> CE[k] !in Ids(t)
  }

  /**
   * Collecting the two edges `le` and `re` of the removed arc `x`, which
   * leave the tree as the new edge `n` joins it, keeps the collected edges
   * without duplicates and off the tree.
   */
  lemma CollectedOff(CE: seq<nat>, t: Shape, t': Shape, x: nat, le: nat, re: nat, n: nat)
    requires NoDuplicates(CE) && OffTree(CE, t) && forall k :: 0 <= k < |CE| ==> CE[k] < n
    requires le < n && re < n
    requires Ids(t') == Ids(t) - {x, le, re} + {n} && le != re && le in Ids(t) && re in Ids(t)
    ensures NoDuplicates(CE + [le, re]) && OffTree(CE + [le, re], t')
  {
    var CE' := CE + [le, re];
    forall i, j | 0 <= i < j < |CE'| ensures CE'[i] != CE'[j] {
      if j < |CE| {
        assert CE'[i] == CE[i] && CE'[j] == CE[j];
      } else if i < |CE| {
        assert CE'[i] == CE[i] && CE[i] !in Ids(t);
      }
    }
    forall k | 0 <= k < |CE'| ensures CE'[k] !in Ids(t') {
      if k < |CE| {
        assert CE'[k] == CE[k] && CE[k] !in Ids(t) && CE[k] < n;
      } else {
        assert CE'[k] == le || CE'[k] == re;
      }
    }
  }

  /** A site step grows the tree only by the five new nodes, so the collected edges stay off it. */
  lemma SplitOffTree(s: Snapshot, t: Shape, e: Event, geo: Numerics, CE: seq<nat>)
    requires Sound(s, t) == true && FociApart(s.nodes, t, s.events) && e in s.events && e.isNewSite
    requires EdgesOk(s.nodes, CE) && OffTree(CE, t)
    ensures OffTree(CE, SiteStep(s, t, e, geo).1)
  {
    LocatedArc(s, t, e, geo);
    LocatedApart(s, t, e, geo);
    SoundHolds(s, t);
    SiteParts(s, t, e, geo);
    SplitOff(CE, t, Locate(s.nodes, t, e.y, e.pos.x, geo), |s.nodes|);
  }

  /** Splitting arc `a` adds only nodes from `n` on, so edges below `n` off the tree stay off it. */
  lemma SplitOff(CE: seq<nat>, t: Shape, a: nat, n: nat)
    requires OffTree(CE, t) && Distinct(t) && a in Ids(t) && forall k :: 0 <= k < |CE| ==> CE[k] < n
    ensures OffTree(CE, Subst(t, a, SplitShape(n)))
  {
    IdsSubst(t, a, SplitShape(n));
    assert Ids(Fork(n + 2, Leaf(n + 3), Leaf(n + 4))) == {n + 2, n + 3, n + 4};
    assert Ids(SplitShape(n)) == {n, n + 1, n + 2, n + 3, n + 4};
  }

  // ----- the engine's invariant -----

  /**
   * The invariant of the engine between steps, on state `s`, tree `t`, root
   * `root` and collected edges `CE`: the queue is sorted with fresh, unique
   * identities; arcs refer to handed out identities; complements and
   * collected edges are edges.  Until the diagram is finished no edge is
   * collected twice and no collected edge is still in the tree.  Without a
   * tree there are no nodes, no collected edges and only site events; with
   * one, `root` is the root of `t`, the tree the arena holds, and the queue
   * agrees with the beach line.
   */
  ghost predicate Invariant(s: Snapshot, t: Shape, root: Ref, CE: seq<nat>, finished: bool)
  {
    UniqueIds(s.events) && IdsBelow(s.events, s.nextId) && SortedFrom(s.events, 0) &&
    EventsBelow(s.nodes, s.nextId) && ComplementsOk(s.nodes) && EdgesOk(s.nodes, CE) &&
    (finished ==> s.events == []) && (!finished ==> NoDuplicates(CE) && OffTree(CE, t)) &&
    (root == Nil ==> s.nodes == [] && CE == [] && AllSites(s.events)) &&
    (root != Nil ==>
       root == At(t.id) && Encodes(s.nodes, t, Nil) && Distinct(t) &&
       (s.events != [] ==> Full(t)) && Pending(s.nodes, t, s.events))
  }

  /**
   * Once the handled event `s'.events[0]` leaves the queue, the invariant
   * holds on the new tree `t'` with its root, for edges collected in `s`.
   */
  lemma HandledInvariant(s: Snapshot, t: Shape, s': Snapshot, t': Shape, root: Ref, CE: seq<nat>, finished: bool)
    requires Stepped(s, t, s', t') == true && EdgesOk(s.nodes, CE) && root == At(t'.id) && !finished
    requires NoDuplicates(CE) && OffTree(CE, t')
    ensures |s'.events| >= 1 && Invariant(Snapshot(s'.nodes, s'.events[1..], s'.nextId), t', root, CE, finished)
  {
    EdgesKept(s.nodes, s'.nodes, CE);
    StepDone(s'.events, s'.nextId);
  }

  /** Collecting two edges of the arena keeps EdgesOk. */
  lemma CollectedEdges(N: seq<Node>, CE: seq<nat>, a: nat, b: nat)
    requires EdgesOk(N, CE) && a < |N| && N[a].Edge? && b < |N| && N[b].Edge?
    ensures EdgesOk(N, CE + [a, b])
  {
    var CE' := CE + [a, b];
    forall k | 0 <= k < |CE'| ensures CE'[k] < |N| && N[CE'[k]].Edge? {
      if k < |CE| {
        assert CE'[k] == CE[k];
      } else {
        assert CE'[k] == a || CE'[k] == b;
      }
    }
  }

  /** The edges either side of a removable arc were edges before its neighbour fields were refreshed. */
  lemma NeighbourEdges(N: seq<Node>, t: Shape, x: nat)
    requires x < |N| && x in Ids(t) && N[x].Arc? && RemovalOk(WithNeighbours(N, t, x), x) == true
    ensures var N1 := WithNeighbours(N, t, x);
      N1[x].leftEdge.idx < |N| && N[N1[x].leftEdge.idx].Edge? &&
      N1[x].rightEdge.idx < |N| && N[N1[x].rightEdge.idx].Edge?
  {
    var N1 := WithNeighbours(N, t, x);
    assert N[N1[x].leftEdge.idx] == N1[N1[x].leftEdge.idx];
    assert N[N1[x].rightEdge.idx] == N1[N1[x].rightEdge.idx];
  }

  /**
   * A circle event handled and dropped: the engine's invariant holds on the
   * state CircleStep leaves once its head is gone, with the tree `t'` and
   * both edges of the removed arc collected.  (The invariant is stated
   * `== true` so that it is handed on whole.)
   */
  lemma CircleInvariant(s: Snapshot, t: Shape, x: nat, pos: RPoint, t': Shape, geo: Numerics, sweepline: real,
                        CE: seq<nat>)
    requires |s.events| >= 1 && Removable(s, t, x, pos, t') == true && EdgesOk(s.nodes, CE)
    requires Rebound(s, t, x, t') && NoDuplicates(CE) && OffTree(CE, t)
    ensures var N1 := WithNeighbours(s.nodes, t, x);
      var r := CircleStep(s, t, t', x, pos, geo, sweepline);
      |r.events| >= 1 &&
      Invariant(Snapshot(r.nodes, r.events[1..], r.nextId), t', At(t'.id),
                CE + [N1[x].leftEdge.idx, N1[x].rightEdge.idx], false) == true
  {
    var N1 := WithNeighbours(s.nodes, t, x);
    var CE' := CE + [N1[x].leftEdge.idx, N1[x].rightEdge.idx];
    NeighbourEdges(s.nodes, t, x);
    CollectedEdges(s.nodes, CE, N1[x].leftEdge.idx, N1[x].rightEdge.idx);
    CollectedOff(CE, t, t', x, N1[x].leftEdge.idx, N1[x].rightEdge.idx, |s.nodes|);
    CircleDone(s, t, t', x, pos, geo, sweepline);
    HandledInvariant(s, t, CircleStep(s, t, t', x, pos, geo, sweepline), t', At(t'.id), CE', false);
  }

  /** Verification plumbing: the invariant, taken apart into its conjuncts. */
  lemma InvariantHolds(s: Snapshot, t: Shape, root: Ref, CE: seq<nat>, finished: bool)
    requires Invariant(s, t, root, CE, finished) == true
    ensures Invariant(s, t, root, CE, finished)
  {
  }

  /**
   * A circle event at the head of the queue of a state that keeps the
   * invariant belongs to an arc of the beach line.  That arc can be removed,
   * leaving the tree `t'`, and the invariant holds again once the event is
   * handled and dropped.
   */
  lemma CircleReady(s: Snapshot, t: Shape, root: Ref, CE: seq<nat>, finished: bool, geo: Numerics)
    returns (t': Shape)
    requires Invariant(s, t, root, CE, finished) == true && Apart(s, t) && s.events != [] && !s.events[0].isNewSite
    ensures var e := s.events[0];
      e.arc.At? && root == At(t.id) && !finished && Removable(s, t, e.arc.idx, e.pos, t') == true &&
      var x := e.arc.idx;
      var N1 := WithNeighbours(s.nodes, t, x);
      var r := CircleStep(s, t, t', x, e.pos, geo, e.y);
      |r.events| >= 1 &&
      Invariant(Snapshot(r.nodes, r.events[1..], r.nextId), t', At(t'.id),
                CE + [N1[x].leftEdge.idx, N1[x].rightEdge.idx], false) == true &&
      Apart(Snapshot(r.nodes, r.events[1..], r.nextId), t')
  {
    InvariantHolds(s, t, root, CE, finished);
    var e := s.events[0];
    assert e in s.events;
    t' := RemovalKeeps(s, t, e.arc.idx, e.pos);
    CircleInvariant(s, t, e.arc.idx, e.pos, t', geo, e.y, CE);
    CircleApart(s, t, e.arc.idx, e.pos, t', geo, e.y);
  }

  /**
   * The constructor's state: an empty arena and the queue of all sites,
   * before any tree; the sites are apart when the input positions differ
   * once rounded.
   */
  lemma StartInvariant(sites: seq<RPoint>, s: Snapshot, t: Shape, root: Ref, CE: seq<nat>, finished: bool)
    requires s == Snapshot([], SiteQueue(sites, 0), |sites|) && root == Nil && CE == [] && !finished
    ensures Invariant(s, t, root, CE, finished)
    ensures RoundedApart(sites) ==> Apart(s, t)
  {
    SiteQueueReady(sites);
    if RoundedApart(sites) {
      StartApart(sites, t);
    }
  }

  /**
   * Before the first site event: the arena and the collected edges are
   * empty, and the invariant holds once the beach line is seeded and the
   * head of the queue dropped.
   */
  lemma SeedReady(s: Snapshot, t: Shape, root: Ref, CE: seq<nat>, finished: bool, mapSize: int)
    requires Invariant(s, t, root, CE, finished) == true && root == Nil && SeedOk(s.events)
    ensures s.nodes == [] && CE == [] && !finished
    ensures var r := Seeded([NewArc(RoundPoint(s.events[0].pos), Nil)], 0, s.events, mapSize);
      |r.1| >= 1 && Invariant(Snapshot(r.0, r.1[1..], s.nextId), Leaf(0), At(0), CE, finished) == true &&
      (Apart(s, t) ==> Apart(Snapshot(r.0, r.1[1..], s.nextId), Leaf(0)))
  {
    InvariantHolds(s, t, root, CE, finished);
    SeedSettles(s.events, s.nextId, mapSize);
    if Apart(s, t) {
      SeedApart(s.events, s.nextId, mapSize);
    }
  }

  /** Once a seeded run is handled and the head dropped, the queue agrees with the lone arc. */
  lemma SeedSettles(q: seq<Event>, next: nat, mapSize: int)
    requires SeedOk(q) && AllSites(q) && UniqueIds(q) && IdsBelow(q, next) && SortedFrom(q, 0)
    ensures var r := Seeded([NewArc(RoundPoint(q[0].pos), Nil)], 0, q, mapSize);
      |r.1| >= 1 && Invariant(Snapshot(r.0, r.1[1..], next), Leaf(0), At(0), [], false)
  {
    SeedKeeps(q, next, mapSize);
    var r := Seeded([NewArc(RoundPoint(q[0].pos), Nil)], 0, q, mapSize);
    StepDone(r.1, next);
  }

  /**
   * Before a site event on a beach line whose sites are apart: the state is
   * ready for it, and the invariant and the apartness hold once the step is
   * taken and the head of the queue dropped.
   */
  lemma SplitReady(s: Snapshot, t: Shape, root: Ref, CE: seq<nat>, finished: bool, e: Event, geo: Numerics)
    requires Invariant(s, t, root, CE, finished) == true && root != Nil && Apart(s, t)
    requires s.events != [] && e == s.events[0] && e.isNewSite
    ensures root == At(t.id) && !finished && Encodes(s.nodes, t, Nil) && Ready(s, t) == true
    ensures var r := SiteStep(s, t, e, geo);
      |r.0.events| >= 1 &&
      var s' := Snapshot(r.0.nodes, r.0.events[1..], r.0.nextId);
      Invariant(s', r.1, At(r.1.id), CE, finished) == true && Apart(s', r.1)
  {
    InvariantHolds(s, t, root, CE, finished);
    assert !finished && EdgesOk(s.nodes, CE) && NoDuplicates(CE) && OffTree(CE, t);
    ReadySound(s, t);
    var r := SiteStep(s, t, e, geo);
    assert |r.0.events| >= 1 && Apart(Snapshot(r.0.nodes, r.0.events[1..], r.0.nextId), r.1) by {
      SiteApart(s, t, e, geo);
    }
    assert Invariant(Snapshot(r.0.nodes, r.0.events[1..], r.0.nextId), r.1, At(r.1.id), CE, false) == true by {
      SiteInvariant(s, t, CE, e, geo);
    }
  }

  /** A site step with the head of the queue dropped keeps the invariant, for the same collected edges. */
  lemma SiteInvariant(s: Snapshot, t: Shape, CE: seq<nat>, e: Event, geo: Numerics)
    requires Sound(s, t) == true && FociApart(s.nodes, t, s.events) && e == s.events[0] && e.isNewSite
    requires EdgesOk(s.nodes, CE) && NoDuplicates(CE) && OffTree(CE, t)
    ensures var r := SiteStep(s, t, e, geo);
      |r.0.events| >= 1 && Invariant(Snapshot(r.0.nodes, r.0.events[1..], r.0.nextId), r.1, At(r.1.id), CE, false) == true
  {
    assert e in s.events;
    SiteKeeps(s, t, e, geo);
    SplitOffTree(s, t, e, geo, CE);
    var r := SiteStep(s, t, e, geo);
    HandledInvariant(s, t, r.0, r.1, At(r.1.id), CE, false);
  }
}
