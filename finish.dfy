/**
 * The finishing pass that runs once the queue is empty: ClearTree collects the
 * edges still in the tree and cuts it up, ShortenEdges clips the collected
 * edges to the working area shrunk by the cut border and forgets the ones
 * that lie outside it.  Where an edge leaves the area is the oracle
 * `geo.untilBorder` (EdgeUntilBorder).
 */
module Finish {
  import opened Geometry
  import opened Nodes
  import opened Shapes
  import opened Steps

  // ----- ClearTree -----

  /** The start test of ClearTree: inside the square [0, mapSize] x [0, mapSize]. */
  predicate InMap(p: RPoint, mapSize: int)
  {
    0.0 <= p.x <= mapSize as real && 0.0 <= p.y <= mapSize as real
  }

  /** `b` is `a`, or the edge `a` with its complement forgotten. */
  predicate Recomplemented(a: Node, b: Node)
  {
    b == a || (a.Edge? && b == a.(complement := Nil))
  }

  /** Complements come in pairs: an edge's complement has it as complement. */
  ghost predicate Symmetric(N: seq<Node>)
  {
    forall i :: 0 <= i < |N| && N[i].Edge? && N[i].complement.At? ==>
      N[i].complement.idx < |N| && N[N[i].complement.idx].Edge? && N[N[i].complement.idx].complement == At(i)
  }

  /**
   * The work ClearTree does on edge `i` once its subtrees are done: an edge
   * starting in the map gets the end where its ray leaves the area and is
   * collected; any other edge and its complement forget each other.
   */
  ghost function Visit(N: seq<Node>, CE: seq<nat>, i: nat, geo: Numerics, mapSize: int): (r: (seq<Node>, seq<nat>))
    requires i < |N| && N[i].Edge? && ComplementsOk(N)
    ensures |r.0| == |N| && ComplementsOk(r.0)
    ensures forall j :: 0 <= j < |N| ==> Recomplemented(N[j], r.0[j]) || j == i
    ensures Symmetric(N) ==> Symmetric(r.0)
    ensures InMap(N[i].start, mapSize) ==>
      r.1 == CE + [i] && r.0[i] == N[i].(end := geo.untilBorder(N[i].start, N[i].direction))
    ensures !InMap(N[i].start, mapSize) ==> r.1 == CE && r.0[i] == N[i].(complement := Nil)
  {
    var e := N[i];
    if InMap(e.start, mapSize) then
      (N[i := e.(end := geo.untilBorder(e.start, e.direction))], CE + [i])
    else if e.complement.At? then
      var c := e.complement.idx;
      var N1 := N[c := N[c].(complement := Nil)];
      (N1[i := N1[i].(complement := Nil)], CE)
    else (N, CE)
  }

  /** Only nodes in `S` may have changed beyond forgetting their complement. */
  ghost predicate Outside(N: seq<Node>, M: seq<Node>, S: set<nat>)
  {
    |M| == |N| && forall j :: 0 <= j < |N| && j !in S ==> Recomplemented(N[j], M[j])
  }

  /**
   * ClearTree on the subtree `t`: the right subtree, then the left one, each
   * followed by cutting the link to it, then the edge itself.  Arcs are left
   * alone.  Nodes outside the subtree at most forget their complement.
   */
  ghost function Clear(N: seq<Node>, CE: seq<nat>, t: Shape, par: Ref, geo: Numerics, mapSize: int)
    : (r: (seq<Node>, seq<nat>))
    requires Encodes(N, t, par) && Distinct(t) && ComplementsOk(N)
    ensures ComplementsOk(r.0) && Outside(N, r.0, Ids(t))
    ensures Symmetric(N) ==> Symmetric(r.0)
    decreases t
  {
    match t
    case Leaf(_) => (N, CE)
    case Bare(i) =>
      var v := Visit(N, CE, i, geo, mapSize);
      assert Outside(N, v.0, Ids(t));
      v
    case Fork(i, l, rt) =>
      var r1 := Clear(N, CE, rt, At(i), geo, mapSize);
      var N1 := r1.0[i := r1.0[i].(rightChild := Nil)];
      CutRight(N, r1.0, N1, t, par);
      var r2 := Clear(N1, r1.1, l, At(i), geo, mapSize);
      var N2 := r2.0[i := r2.0[i].(leftChild := Nil)];
      CutLeft(N, N1, r2.0, N2, t, par);
      var v := Visit(N2, r2.1, i, geo, mapSize);
      VisitOutside(N, N2, v.0, t);
      v
  }

  /** A `Recomplemented` node keeps its tree links. */
  lemma RecomplementedLinks(a: Node, b: Node)
    requires Recomplemented(a, b)
    ensures Links(a) == Links(b) && a.Edge? == b.Edge?
  {
  }

  /** Complement fields and tags are all that ComplementsOk and Symmetric look at. */
  lemma SameComplements(M: seq<Node>, M': seq<Node>, i: nat)
    requires i < |M| && M[i].Edge? && |M'| == |M| && M'[i].Edge? && M'[i].complement == M[i].complement
    requires forall j :: 0 <= j < |M| && j != i ==> M'[j] == M[j]
    ensures ComplementsOk(M) ==> ComplementsOk(M')
    ensures Symmetric(M) ==> Symmetric(M')
  {
  }

  /** After the right subtree is cleared and cut off, the left subtree is still read from the arena. */
  lemma CutRight(N: seq<Node>, M: seq<Node>, N1: seq<Node>, t: Shape, par: Ref)
    requires t.Fork? && Encodes(N, t, par) && Distinct(t)
    requires ComplementsOk(M) && Outside(N, M, Ids(t.right)) && (Symmetric(N) ==> Symmetric(M))
    requires N1 == M[t.id := M[t.id].(rightChild := Nil)]
    ensures Encodes(N1, t.left, At(t.id)) && ComplementsOk(N1) && (Symmetric(N) ==> Symmetric(N1))
    ensures Outside(N, N1, Ids(t.right) + {t.id})
  {
    var i := t.id;
    RecomplementedLinks(N[i], M[i]);
    SameComplements(M, N1, i);
    forall j | j in Ids(t.left) ensures j < |N1| && Links(N1[j]) == Links(N[j]) {
      RecomplementedLinks(N[j], M[j]);
    }
    EncodesFrame(N, N1, t.left, At(i));
  }

  /** After the left subtree is cleared and cut off, the edge can be visited. */
  lemma CutLeft(N: seq<Node>, N1: seq<Node>, M: seq<Node>, N2: seq<Node>, t: Shape, par: Ref)
    requires t.Fork? && Encodes(N, t, par) && Distinct(t)
    requires Outside(N, N1, Ids(t.right) + {t.id}) && N1[t.id].Edge?
    requires ComplementsOk(M) && Outside(N1, M, Ids(t.left)) && (Symmetric(N1) ==> Symmetric(M))
    requires N2 == M[t.id := M[t.id].(leftChild := Nil)]
    ensures t.id < |N2| && N2[t.id].Edge? && ComplementsOk(N2) && (Symmetric(N1) ==> Symmetric(N2))
    ensures Outside(N, N2, Ids(t))
  {
    var i := t.id;
    RecomplementedLinks(N1[i], M[i]);
    SameComplements(M, N2, i);
  }

  /** Visiting the edge at the root adds nothing outside the subtree. */
  lemma VisitOutside(N: seq<Node>, N2: seq<Node>, V: seq<Node>, t: Shape)
    requires Outside(N, N2, Ids(t)) && |V| == |N2| && t.id in Ids(t)
    requires forall j :: 0 <= j < |N2| ==> Recomplemented(N2[j], V[j]) || j == t.id
    ensures Outside(N, V, Ids(t))
  {
  }

  /** The order in which ClearTree finishes the edges of `t`: right subtree, left subtree, the edge. */
  function PostOrder(t: Shape): (P: seq<nat>)
    ensures forall k :: 0 <= k < |P| ==> P[k] in Ids(t)
  {
    match t
    case Leaf(_) => []
    case Bare(i) => [i]
    case Fork(i, l, r) => PostOrder(r) + PostOrder(l) + [i]
  }

  /** The edges of `P` whose start lies in the map, in the order of `P`. */
  ghost function InMapOf(N: seq<Node>, P: seq<nat>, mapSize: int): (C: seq<nat>)
  {
    if |P| == 0 then []
    else
      var head := if P[0] < |N| && N[P[0]].Edge? && InMap(N[P[0]].start, mapSize) then [P[0]] else [];
      head + InMapOf(N, P[1..], mapSize)
  }

  lemma InMapOfOne(N: seq<Node>, i: nat, mapSize: int)
    ensures InMapOf(N, [i], mapSize) == if i < |N| && N[i].Edge? && InMap(N[i].start, mapSize) then [i] else []
  {
    assert [i][1..] == [];
  }

  lemma {:induction false} InMapOfAppend(N: seq<Node>, A: seq<nat>, B: seq<nat>, mapSize: int)
    ensures InMapOf(N, A + B, mapSize) == InMapOf(N, A, mapSize) + InMapOf(N, B, mapSize)
    decreases |A|
  {
    if |A| > 0 {
      assert (A + B)[1..] == A[1..] + B;
      InMapOfAppend(N, A[1..], B, mapSize);
    } else {
      assert A + B == B;
    }
  }

  /** InMapOf depends only on the tags and starts of the nodes it looks at. */
  lemma {:induction false} InMapOfFrame(N: seq<Node>, M: seq<Node>, P: seq<nat>, mapSize: int)
    requires |M| == |N| && forall p :: p in P && p < |N| ==> Recomplemented(N[p], M[p])
    ensures InMapOf(N, P, mapSize) == InMapOf(M, P, mapSize)
    decreases |P|
  {
    if |P| > 0 {
      InMapOfFrame(N, M, P[1..], mapSize);
    }
  }

  /**
   * ClearTree collects exactly the edges of the subtree whose start lies in
   * the map, in the order it finishes them.
   */
  lemma {:induction false} ClearCollects(N: seq<Node>, CE: seq<nat>, t: Shape, par: Ref, geo: Numerics, mapSize: int)
    requires Encodes(N, t, par) && Distinct(t) && ComplementsOk(N)
    ensures Clear(N, CE, t, par, geo, mapSize).1 == CE + InMapOf(N, PostOrder(t), mapSize)
    decreases t
  {
    match t
    case Leaf(_) =>
    case Bare(i) =>
      InMapOfOne(N, i, mapSize);
    case Fork(i, l, rt) =>
      var r1 := Clear(N, CE, rt, At(i), geo, mapSize);
      ClearCollects(N, CE, rt, At(i), geo, mapSize);
      var N1 := r1.0[i := r1.0[i].(rightChild := Nil)];
      CutRight(N, r1.0, N1, t, par);
      var r2 := Clear(N1, r1.1, l, At(i), geo, mapSize);
      ClearCollects(N1, r1.1, l, At(i), geo, mapSize);
      var N2 := r2.0[i := r2.0[i].(leftChild := Nil)];
      CutLeft(N, N1, r2.0, N2, t, par);
      ClearForkIs(N, CE, t, par, geo, mapSize);
      ForkCollects(N, N1, r1.0, r2.0, N2, CE, r1.1, r2.1, t, mapSize);
  }

  /** Unfolds Clear at a fork. */
  lemma ClearForkIs(N: seq<Node>, CE: seq<nat>, t: Shape, par: Ref, geo: Numerics, mapSize: int)
    requires t.Fork? && Encodes(N, t, par) && Distinct(t) && ComplementsOk(N)
    ensures var i := t.id;
      var r1 := Clear(N, CE, t.right, At(i), geo, mapSize);
      var N1 := r1.0[i := r1.0[i].(rightChild := Nil)];
      Encodes(N1, t.left, At(i)) && ComplementsOk(N1) &&
      var r2 := Clear(N1, r1.1, t.left, At(i), geo, mapSize);
      var N2 := r2.0[i := r2.0[i].(leftChild := Nil)];
      i < |N2| && N2[i].Edge? && ComplementsOk(N2) &&
      Clear(N, CE, t, par, geo, mapSize) == Visit(N2, r2.1, i, geo, mapSize)
  {
    var i := t.id;
    var r1 := Clear(N, CE, t.right, At(i), geo, mapSize);
    var N1 := r1.0[i := r1.0[i].(rightChild := Nil)];
    CutRight(N, r1.0, N1, t, par);
    var r2 := Clear(N1, r1.1, t.left, At(i), geo, mapSize);
    var N2 := r2.0[i := r2.0[i].(leftChild := Nil)];
    CutLeft(N, N1, r2.0, N2, t, par);
  }

  /** The collections of the two subtrees and of the fork's edge add up. */
  lemma ForkCollects(N: seq<Node>, N1: seq<Node>, M1: seq<Node>, M2: seq<Node>, N2: seq<Node>,
                     CE: seq<nat>, C1: seq<nat>, C2: seq<nat>, t: Shape, mapSize: int)
    requires t.Fork? && Distinct(t) && t.id < |N| && N[t.id].Edge?
    requires Outside(N, M1, Ids(t.right)) && N1 == M1[t.id := M1[t.id].(rightChild := Nil)]
    requires Outside(N1, M2, Ids(t.left)) && N2 == M2[t.id := M2[t.id].(leftChild := Nil)]
    requires C1 == CE + InMapOf(N, PostOrder(t.right), mapSize)
    requires C2 == C1 + InMapOf(N1, PostOrder(t.left), mapSize)
    ensures N2[t.id].Edge? && N2[t.id].start == N[t.id].start
    ensures (if InMap(N2[t.id].start, mapSize) then C2 + [t.id] else C2) ==
            CE + InMapOf(N, PostOrder(t), mapSize)
  {
    var i := t.id;
    assert i !in Ids(t.right) && i !in Ids(t.left);
    assert Recomplemented(N[i], M1[i]);
    RecomplementedLinks(N[i], M1[i]);
    assert Recomplemented(N1[i], M2[i]);
    RecomplementedLinks(N1[i], M2[i]);
    LeftFrame(N, N1, M1, t, mapSize);
    InMapOfFork(N, t, mapSize);
    InMapOfOne(N, i, mapSize);
    Concat(CE, InMapOf(N, PostOrder(t.right), mapSize), InMapOf(N, PostOrder(t.left), mapSize),
           InMapOf(N, [i], mapSize), C1, C2, InMap(N[i].start, mapSize), i);
  }

  /** Verification plumbing: the collected list of a fork is the concatenation of its parts. */
  lemma Concat(CE: seq<nat>, A: seq<nat>, B: seq<nat>, C: seq<nat>, C1: seq<nat>, C2: seq<nat>, keep: bool, i: nat)
    requires C1 == CE + A && C2 == C1 + B && C == (if keep then [i] else [])
    ensures (if keep then C2 + [i] else C2) == CE + (A + B + C)
  {
  }

  /** Clearing the right subtree does not change which edges of the left one start in the map. */
  lemma LeftFrame(N: seq<Node>, N1: seq<Node>, M1: seq<Node>, t: Shape, mapSize: int)
    requires t.Fork? && Distinct(t) && t.id < |N| && N[t.id].Edge?
    requires Outside(N, M1, Ids(t.right)) && M1[t.id].Edge? && N1 == M1[t.id := M1[t.id].(rightChild := Nil)]
    ensures InMapOf(N1, PostOrder(t.left), mapSize) == InMapOf(N, PostOrder(t.left), mapSize)
  {
    forall p | p in PostOrder(t.left) && p < |N| ensures Recomplemented(N[p], N1[p]) {
      assert p in Ids(t.left);
    }
    InMapOfFrame(N, N1, PostOrder(t.left), mapSize);
  }

  lemma InMapOfFork(N: seq<Node>, t: Shape, mapSize: int)
    requires t.Fork?
    ensures InMapOf(N, PostOrder(t), mapSize) ==
      InMapOf(N, PostOrder(t.right), mapSize) + InMapOf(N, PostOrder(t.left), mapSize) + InMapOf(N, [t.id], mapSize)
  {
    InMapOfAppend(N, PostOrder(t.right), PostOrder(t.left), mapSize);
    InMapOfAppend(N, PostOrder(t.right) + PostOrder(t.left), [t.id], mapSize);
  }



  /**
   * What ClearTree leaves of node `a` of the subtree: an arc untouched; an
   * edge with both child links cut and its sites, start and direction kept;
   * an edge starting in the map ends where its ray leaves the area and may
   * have lost its complement, any other edge keeps its end and has no
   * complement.
   */
  ghost predicate Cleared(a: Node, b: Node, geo: Numerics, mapSize: int)
  {
    if a.Arc? then b == a
    else
      b.Edge? && b.parent == a.parent && b.firstSite == a.firstSite && b.secondSite == a.secondSite &&
      b.start == a.start && b.direction == a.direction && b.leftChild == Nil && b.rightChild == Nil &&
      if InMap(a.start, mapSize) then
        b.end == geo.untilBorder(a.start, a.direction) && (b.complement == a.complement || b.complement == Nil)
      else
        b.end == a.end && b.complement == Nil
  }

  lemma ClearedThen(a: Node, b: Node, c: Node, geo: Numerics, mapSize: int)
    requires Cleared(a, b, geo, mapSize) && Recomplemented(b, c)
    ensures Cleared(a, c, geo, mapSize)
  {
  }

  lemma ClearedFrom(a: Node, a': Node, b: Node, geo: Numerics, mapSize: int)
    requires Recomplemented(a, a') && Cleared(a', b, geo, mapSize)
    ensures Cleared(a, b, geo, mapSize)
  {
  }

  /** Every node of the subtree ends up as Cleared describes. */
  lemma {:induction false} ClearNodes(N: seq<Node>, CE: seq<nat>, t: Shape, par: Ref, geo: Numerics, mapSize: int)
    requires Encodes(N, t, par) && Distinct(t) && ComplementsOk(N)
    ensures forall j :: j in Ids(t) ==> j < |N| && Cleared(N[j], Clear(N, CE, t, par, geo, mapSize).0[j], geo, mapSize)
    decreases t
  {
    match t
    case Leaf(_) =>
    case Bare(i) =>
    case Fork(i, l, rt) =>
      var r1 := Clear(N, CE, rt, At(i), geo, mapSize);
      ClearNodes(N, CE, rt, At(i), geo, mapSize);
      var N1 := r1.0[i := r1.0[i].(rightChild := Nil)];
      CutRight(N, r1.0, N1, t, par);
      var r2 := Clear(N1, r1.1, l, At(i), geo, mapSize);
      ClearNodes(N1, r1.1, l, At(i), geo, mapSize);
      var N2 := r2.0[i := r2.0[i].(leftChild := Nil)];
      CutLeft(N, N1, r2.0, N2, t, par);
      ClearForkIs(N, CE, t, par, geo, mapSize);
      ForkNodes(N, N1, r1.0, r2.0, N2, Visit(N2, r2.1, i, geo, mapSize).0, t, geo, mapSize);
  }

  /** The Cleared facts for both subtrees and the fork's edge add up. */
  lemma ForkNodes(N: seq<Node>, N1: seq<Node>, M1: seq<Node>, M2: seq<Node>, N2: seq<Node>, V: seq<Node>,
                  t: Shape, geo: Numerics, mapSize: int)
    requires t.Fork? && Distinct(t) && t.id < |N| && N[t.id].Edge?
    requires forall j :: j in Ids(t) ==> j < |N|
    requires Outside(N, M1, Ids(t.right)) && N1 == M1[t.id := M1[t.id].(rightChild := Nil)]
    requires Outside(N1, M2, Ids(t.left)) && N2 == M2[t.id := M2[t.id].(leftChild := Nil)]
    requires forall j :: j in Ids(t.right) ==> Cleared(N[j], M1[j], geo, mapSize)
    requires forall j :: j in Ids(t.left) ==> Cleared(N1[j], M2[j], geo, mapSize)
    requires |V| == |N2| && forall j :: 0 <= j < |N2| && j != t.id ==> Recomplemented(N2[j], V[j])
    requires InMap(N2[t.id].start, mapSize) ==> V[t.id] == N2[t.id].(end := geo.untilBorder(N2[t.id].start, N2[t.id].direction))
    requires !InMap(N2[t.id].start, mapSize) ==> V[t.id] == N2[t.id].(complement := Nil)
    ensures forall j :: j in Ids(t) ==> Cleared(N[j], V[j], geo, mapSize)
  {
    var i := t.id;
    assert i !in Ids(t.right) && i !in Ids(t.left);
    assert Recomplemented(N[i], M1[i]);
    assert Recomplemented(N1[i], M2[i]);
    forall j | j in Ids(t) ensures Cleared(N[j], V[j], geo, mapSize) {
      if j in Ids(t.right) {
        assert j !in Ids(t.left) && j != i;
        ClearedThen(N[j], M1[j], M2[j], geo, mapSize);
        ClearedThen(N[j], M2[j], V[j], geo, mapSize);
      } else if j in Ids(t.left) {
        assert j !in Ids(t.right) && j != i;
        ClearedFrom(N[j], N1[j], M2[j], geo, mapSize);
        ClearedThen(N[j], M2[j], V[j], geo, mapSize);
      }
    }
  }

  /**
   * With complements in pairs, ClearTree leaves no link between an edge
   * that starts outside the map and its complement, on either side.
   */
  lemma ClearSevers(N: seq<Node>, CE: seq<nat>, t: Shape, par: Ref, geo: Numerics, mapSize: int)
    requires Encodes(N, t, par) && Distinct(t) && ComplementsOk(N) && Symmetric(N)
    ensures var M := Clear(N, CE, t, par, geo, mapSize).0;
      forall j :: j in Ids(t) && N[j].Edge? && !InMap(N[j].start, mapSize) ==>
        M[j].Edge? && M[j].complement == Nil && forall k :: 0 <= k < |M| && M[k].Edge? ==> M[k].complement != At(j)
  {
    ClearNodes(N, CE, t, par, geo, mapSize);
  }

  /** The edges of `P` that InMapOf keeps are edges of the arena. */
  lemma {:induction false} InMapOfEdges(N: seq<Node>, P: seq<nat>, mapSize: int)
    ensures EdgesOk(N, InMapOf(N, P, mapSize))
    decreases |P|
  {
    if |P| > 0 {
      InMapOfEdges(N, P[1..], mapSize);
    }
  }

  /** What ClearTree leaves of a tree read from the root: its root edge, if any, without children. */
  function Stump(t: Shape): (u: Shape)
    ensures u.id == t.id && Ids(u) <= Ids(t) && Distinct(u)
  {
    match t
    case Fork(i, _, _) => Bare(i)
    case _ => t
  }

  /**
   * ClearTree on the whole tree: the root is all that is left of it, arcs are
   * untouched, edges stay edges, and every collected edge is an edge.
   */
  lemma ClearFrame(N: seq<Node>, CE: seq<nat>, t: Shape, geo: Numerics, mapSize: int)
    requires Encodes(N, t, Nil) && Distinct(t) && ComplementsOk(N) && EdgesOk(N, CE)
    ensures var r := Clear(N, CE, t, Nil, geo, mapSize);
      Encodes(r.0, Stump(t), Nil) && EdgesOk(r.0, r.1) && |r.0| == |N| &&
      forall j :: 0 <= j < |N| ==> r.0[j].Edge? == N[j].Edge? && (N[j].Arc? ==> r.0[j] == N[j])
  {
    var r := Clear(N, CE, t, Nil, geo, mapSize);
    ClearNodes(N, CE, t, Nil, geo, mapSize);
    ClearCollects(N, CE, t, Nil, geo, mapSize);
    InMapOfEdges(N, PostOrder(t), mapSize);
    assert forall j :: 0 <= j < |N| ==> r.0[j].Edge? == N[j].Edge? && (N[j].Arc? ==> r.0[j] == N[j]) by {
      forall j | 0 <= j < |N| ensures r.0[j].Edge? == N[j].Edge? && (N[j].Arc? ==> r.0[j] == N[j]) {
        if j !in Ids(t) {
          assert Recomplemented(N[j], r.0[j]);
        }
      }
    }
    assert Cleared(N[t.id], r.0[t.id], geo, mapSize);
  }

  // ----- ShortenEdges -----

  /** The margin tests of ShortenEdges, for the area shrunk by `cut` on every side. */
  predicate Above(p: RPoint, mapSize: int, cut: int) { p.y >= (mapSize - cut) as real }
  predicate Below(p: RPoint, cut: int) { p.y <= cut as real }
  predicate LeftOf(p: RPoint, cut: int) { p.x <= cut as real }
  predicate RightOf(p: RPoint, mapSize: int, cut: int) { p.x >= (mapSize - cut) as real }

  /** `p` is beyond some margin. */
  predicate Out(p: RPoint, mapSize: int, cut: int)
  {
    Above(p, mapSize, cut) || Below(p, cut) || LeftOf(p, cut) || RightOf(p, mapSize, cut)
  }

  /** `p` and `q` are beyond the same margin. */
  predicate SameSide(p: RPoint, q: RPoint, mapSize: int, cut: int)
  {
    (Above(p, mapSize, cut) && Above(q, mapSize, cut)) || (Below(p, cut) && Below(q, cut)) ||
    (LeftOf(p, cut) && LeftOf(q, cut)) || (RightOf(p, mapSize, cut) && RightOf(q, mapSize, cut))
  }

  /**
   * The first loop of ShortenEdges on one edge: the edge and whether it is to
   * be forgotten.  An edge with both ends beyond one margin is forgotten as
   * it is; otherwise an end beyond a margin is moved to where the ray (from
   * the other end, backwards for the start) leaves the area, and the edge is
   * forgotten when both ends are still out.
   */
  function Shorten(e: Node, geo: Numerics, mapSize: int, cut: int): (r: (Node, bool))
    requires e.Edge?
    ensures r.0.Edge? && r.0 == e.(start := r.0.start, end := r.0.end)
    ensures SameSide(e.start, e.end, mapSize, cut) ==> r == (e, true)
    ensures !Out(e.start, mapSize, cut) && !Out(e.end, mapSize, cut) ==> r == (e, false)
    ensures !SameSide(e.start, e.end, mapSize, cut) ==>
      (Out(e.start, mapSize, cut) ==> r.0.start == geo.untilBorder(e.end, Neg(e.direction))) &&
      (!Out(e.start, mapSize, cut) ==> r.0.start == e.start) &&
      (Out(e.end, mapSize, cut) ==> r.0.end == geo.untilBorder(r.0.start, e.direction)) &&
      (!Out(e.end, mapSize, cut) ==> r.0.end == e.end) &&
      (r.1 <==> Out(r.0.start, mapSize, cut) && Out(r.0.end, mapSize, cut))
  {
    if SameSide(e.start, e.end, mapSize, cut) then (e, true)
    else
      var e1 := if Out(e.start, mapSize, cut) then e.(start := geo.untilBorder(e.end, Neg(e.direction))) else e;
      var e2 := if Out(e.end, mapSize, cut) then e1.(end := geo.untilBorder(e1.start, e1.direction)) else e1;
      (e2, Out(e2.start, mapSize, cut) && Out(e2.end, mapSize, cut))
  }

  /** Only ends of edges have changed: tags, arcs and complements are as they were. */
  ghost predicate EndsOnly(N: seq<Node>, M: seq<Node>)
  {
    |M| == |N| &&
    forall j :: 0 <= j < |N| ==>
      if N[j].Arc? then M[j] == N[j] else M[j].Edge? && M[j] == N[j].(start := M[j].start, end := M[j].end)
  }

  /**
   * The first loop of ShortenEdges over the collected edges `CE`, in order:
   * the arena and the list of edges to forget.
   */
  ghost function Pass1(N: seq<Node>, CE: seq<nat>, geo: Numerics, mapSize: int, cut: int)
    : (r: (seq<Node>, seq<nat>))
    requires EdgesOk(N, CE)
    ensures EndsOnly(N, r.0) && EdgesOk(r.0, CE)
    ensures forall k :: 0 <= k < |r.1| ==> r.1[k] in CE
    decreases |CE|
  {
    if |CE| == 0 then (N, [])
    else
      var p := Pass1(N, CE[..|CE| - 1], geo, mapSize, cut);
      var i := CE[|CE| - 1];
      var s := Shorten(p.0[i], geo, mapSize, cut);
      (p.0[i := s.0], p.1 + if s.1 then [i] else [])
  }

  /** One more round of the first loop of ShortenEdges: edge CE[k] is shortened in the arena so far. */
  lemma Pass1Step(N: seq<Node>, CE: seq<nat>, k: nat, geo: Numerics, mapSize: int, cut: int)
    requires k < |CE| && EdgesOk(N, CE[..k]) && EdgesOk(N, CE)
    ensures EdgesOk(N, CE[..k + 1])
    ensures var p := Pass1(N, CE[..k], geo, mapSize, cut);
      var i := CE[k];
      var e := Shorten(p.0[i], geo, mapSize, cut);
      Pass1(N, CE[..k + 1], geo, mapSize, cut) == (p.0[i := e.0], p.1 + if e.1 then [i] else [])
  {
    var prefix := CE[..k + 1];
    assert prefix[..|prefix| - 1] == CE[..k] && prefix[|prefix| - 1] == CE[k];
    forall j | 0 <= j < |prefix| ensures prefix[j] < |N| && N[prefix[j]].Edge? {
      assert prefix[j] == CE[j];
    }
  }

  /** `List.Remove` on the collected edges: drops the first occurrence of `x`, if any. */
  function RemoveOne(s: seq<nat>, x: nat): (r: seq<nat>)
    ensures |r| <= |s| && forall y :: y in r ==> y in s
  {
    if |s| == 0 then []
    else if s[0] == x then s[1..]
    else [s[0]] + RemoveOne(s[1..], x)
  }

  /**
   * The second loop of ShortenEdges: for each edge to forget, in order, its
   * complement forgets it, and the edge leaves the collected list.
   */
  ghost function Pass2(N: seq<Node>, CE: seq<nat>, F: seq<nat>): (r: (seq<Node>, seq<nat>))
    requires ComplementsOk(N) && forall k :: 0 <= k < |F| ==> F[k] < |N| && N[F[k]].Edge?
    ensures ComplementsOk(r.0) && Outside(N, r.0, {})
    ensures forall y :: y in r.1 ==> y in CE
    decreases |F|
  {
    if |F| == 0 then (N, CE)
    else
      var p := Pass2(N, CE, F[..|F| - 1]);
      var i := F[|F| - 1];
      assert Recomplemented(N[i], p.0[i]);
      var e := p.0[i];
      var M := if e.complement.At? then p.0[e.complement.idx := p.0[e.complement.idx].(complement := Nil)] else p.0;
      assert Outside(N, M, {});
      (M, RemoveOne(p.1, i))
  }

  /** ShortenEdges on the collected edges `CE`: the arena and the collected edges afterwards. */
  ghost function Shortened(N: seq<Node>, CE: seq<nat>, geo: Numerics, mapSize: int, cut: int)
    : (r: (seq<Node>, seq<nat>))
    requires EdgesOk(N, CE) && ComplementsOk(N)
  {
    var p := Pass1(N, CE, geo, mapSize, cut);
    EndsOnlyKeeps(N, p.0);
    Pass2(p.0, CE, p.1)
  }

  /** Changing ends keeps complements in range and in pairs. */
  lemma EndsOnlyKeeps(N: seq<Node>, M: seq<Node>)
    requires EndsOnly(N, M)
    ensures ComplementsOk(N) ==> ComplementsOk(M)
    ensures Symmetric(N) ==> Symmetric(M)
  {
  }

  /** The collected edges the first loop marks: those Shorten says to forget, in order. */
  ghost function Forgotten(N: seq<Node>, CE: seq<nat>, geo: Numerics, mapSize: int, cut: int): (F: seq<nat>)
    requires EdgesOk(N, CE)
    decreases |CE|
  {
    if |CE| == 0 then []
    else
      var i := CE[|CE| - 1];
      Forgotten(N, CE[..|CE| - 1], geo, mapSize, cut) + if Shorten(N[i], geo, mapSize, cut).1 then [i] else []
  }

  /** An edge is marked exactly when it is collected and Shorten says to forget it. */
  lemma {:induction false} ForgottenMembers(N: seq<Node>, CE: seq<nat>, geo: Numerics, mapSize: int, cut: int, x: nat)
    requires EdgesOk(N, CE)
    ensures x in Forgotten(N, CE, geo, mapSize, cut) <==> x in CE && Shorten(N[x], geo, mapSize, cut).1
    decreases |CE|
  {
    if |CE| > 0 {
      var init := CE[..|CE| - 1];
      ForgottenMembers(N, init, geo, mapSize, cut, x);
      assert CE == init + [CE[|CE| - 1]];
    }
  }

  /**
   * With no edge collected twice, the first loop shortens every collected
   * edge once, from its state before the loop, marks exactly the ones
   * Forgotten lists, and leaves every other node alone.
   */
  lemma {:induction false} Pass1Unique(N: seq<Node>, CE: seq<nat>, geo: Numerics, mapSize: int, cut: int)
    requires EdgesOk(N, CE) && NoDuplicates(CE)
    ensures var r := Pass1(N, CE, geo, mapSize, cut);
      r.1 == Forgotten(N, CE, geo, mapSize, cut) &&
      (forall j :: 0 <= j < |N| && j in CE ==> r.0[j] == Shorten(N[j], geo, mapSize, cut).0) &&
      (forall j :: 0 <= j < |N| && j !in CE ==> r.0[j] == N[j])
    decreases |CE|
  {
    if |CE| > 0 {
      var init, i := CE[..|CE| - 1], CE[|CE| - 1];
      assert CE == init + [i];
      assert i !in init;
      Pass1Unique(N, init, geo, mapSize, cut);
    }
  }

  /** The collected edges that are not in `F`, in order. */
  function Without(s: seq<nat>, F: seq<nat>): (r: seq<nat>)
    ensures forall y :: y in r <==> y in s && y !in F
  {
    if |s| == 0 then []
    else (if s[0] in F then [] else [s[0]]) + Without(s[1..], F)
  }

  lemma {:induction false} WithoutNone(s: seq<nat>, F: seq<nat>)
    requires forall y :: y in s ==> y !in F
    ensures Without(s, F) == s
    decreases |s|
  {
    if |s| > 0 {
      WithoutNone(s[1..], F);
    }
  }

  lemma {:induction false} WithoutUnique(s: seq<nat>, F: seq<nat>)
    requires NoDuplicates(s)
    ensures NoDuplicates(Without(s, F))
    decreases |s|
  {
    if |s| > 0 {
      WithoutUnique(s[1..], F);
      assert s[0] !in s[1..];
    }
  }

  /** On a list without duplicates, List.Remove drops the one occurrence. */
  lemma {:induction false} RemoveOneIsWithout(s: seq<nat>, x: nat)
    requires NoDuplicates(s)
    ensures RemoveOne(s, x) == Without(s, [x])
    decreases |s|
  {
    if |s| > 0 {
      if s[0] == x {
        assert x !in s[1..];
        WithoutNone(s[1..], [x]);
      } else {
        RemoveOneIsWithout(s[1..], x);
      }
    }
  }

  lemma {:induction false} WithoutTwice(s: seq<nat>, A: seq<nat>, x: nat)
    ensures Without(Without(s, A), [x]) == Without(s, A + [x])
    decreases |s|
  {
    if |s| > 0 {
      var W := Without(s[1..], A);
      WithoutTwice(s[1..], A, x);
      assert (s[0] in A + [x]) == (s[0] in A || s[0] == x);
      if s[0] in A {
        assert Without(s, A) == W;
      } else {
        assert Without(s, A) == [s[0]] + W;
        assert ([s[0]] + W)[1..] == W;
        assert Without([s[0]] + W, [x]) == (if s[0] == x then [] else [s[0]]) + Without(W, [x]);
      }
    }
  }


  /** With no edge collected twice, the second loop leaves exactly the unmarked edges, in order. */
  lemma {:induction false} Pass2Removes(N: seq<Node>, CE: seq<nat>, F: seq<nat>)
    requires ComplementsOk(N) && forall k :: 0 <= k < |F| ==> F[k] < |N| && N[F[k]].Edge?
    requires NoDuplicates(CE)
    ensures Pass2(N, CE, F).1 == Without(CE, F)
    decreases |F|
  {
    if |F| == 0 {
      WithoutNone(CE, F);
    } else {
      var init, i := F[..|F| - 1], F[|F| - 1];
      Pass2Removes(N, CE, init);
      WithoutUnique(CE, init);
      RemoveOneIsWithout(Without(CE, init), i);
      WithoutTwice(CE, init, i);
      assert init + [i] == F;
    }
  }

  /**
   * With complements in pairs, after the second loop only marked edges may
   * still refer to a marked edge, and an edge that lost its complement had
   * a marked one.
   */
  lemma {:induction false} Pass2Severs(P: seq<Node>, CE: seq<nat>, F: seq<nat>)
    requires ComplementsOk(P) && Symmetric(P) && forall k :: 0 <= k < |F| ==> F[k] < |P| && P[F[k]].Edge?
    ensures var M := Pass2(P, CE, F).0;
      (forall k, i :: 0 <= k < |M| && M[k].Edge? && M[k].complement == At(i) && i in F ==> k in F) &&
      (forall x :: 0 <= x < |P| && P[x].Edge? && P[x].complement.At? && M[x].Edge? && M[x].complement == Nil ==>
         P[x].complement.idx in F)
    decreases |F|
  {
    if |F| > 0 {
      var init, i := F[..|F| - 1], F[|F| - 1];
      Pass2Severs(P, CE, init);
      var M' := Pass2(P, CE, init).0;
      var M := Pass2(P, CE, F).0;
      assert F == init + [i];
      assert Recomplemented(P[i], M'[i]);
      var e := M'[i];
      assert M == if e.complement.At? then M'[e.complement.idx := M'[e.complement.idx].(complement := Nil)] else M';
      forall k, j | 0 <= k < |M| && M[k].Edge? && M[k].complement == At(j) && j in F ensures k in F {
        assert Recomplemented(P[k], M'[k]);
        assert !(e.complement.At? && e.complement.idx == k);
        assert M[k] == M'[k];
        if j != i {
          assert j in init;
        } else {
          assert P[k].complement == At(i);
          assert P[i].complement == At(k);
          assert e.complement == Nil;
          assert k in init;
        }
      }
      forall x | 0 <= x < |P| && P[x].Edge? && P[x].complement.At? && M[x].Edge? && M[x].complement == Nil
        ensures P[x].complement.idx in F
      {
        assert Recomplemented(P[x], M'[x]);
        if e.complement.At? && e.complement.idx == x {
          assert P[i].complement == At(x);
          assert P[x].complement == At(i);
        } else {
          assert M[x] == M'[x];
        }
      }
    }
  }

  /**
   * ShortenEdges on collected edges without duplicates: the edges left are
   * the collected ones Shorten does not forget, in their order; each
   * collected edge is shortened once from its state before, and may lose its
   * complement; an edge with both ends inside the margins keeps its ends;
   * nodes that were not collected at most lose their complement.
   */
  lemma ShortenKeeps(N: seq<Node>, CE: seq<nat>, geo: Numerics, mapSize: int, cut: int)
    requires EdgesOk(N, CE) && ComplementsOk(N) && NoDuplicates(CE)
    ensures var r, F := Shortened(N, CE, geo, mapSize, cut), Forgotten(N, CE, geo, mapSize, cut);
      r.1 == Without(CE, F) && |r.0| == |N| &&
      (forall j :: 0 <= j < |N| && j in CE ==> Recomplemented(Shorten(N[j], geo, mapSize, cut).0, r.0[j])) &&
      (forall j :: 0 <= j < |N| && j in CE && !Out(N[j].start, mapSize, cut) && !Out(N[j].end, mapSize, cut) ==>
         Recomplemented(N[j], r.0[j]) && j in r.1) &&
      (forall j :: 0 <= j < |N| && j !in CE ==> Recomplemented(N[j], r.0[j]))
  {
    var p := Pass1(N, CE, geo, mapSize, cut);
    Pass1Unique(N, CE, geo, mapSize, cut);
    EndsOnlyKeeps(N, p.0);
    Pass2Removes(p.0, CE, p.1);
    forall j | 0 <= j < |N| && j in CE && !Out(N[j].start, mapSize, cut) && !Out(N[j].end, mapSize, cut)
      ensures j !in p.1
    {
      ForgottenMembers(N, CE, geo, mapSize, cut, j);
    }
  }

  /**
   * With complements in pairs, after ShortenEdges no edge that is kept
   * refers to a forgotten one; in particular a forgotten edge's kept
   * complement has no complement any more.
   */
  lemma ShortenSevers(N: seq<Node>, CE: seq<nat>, geo: Numerics, mapSize: int, cut: int)
    requires EdgesOk(N, CE) && ComplementsOk(N) && Symmetric(N)
    ensures var M, F := Shortened(N, CE, geo, mapSize, cut).0, Pass1(N, CE, geo, mapSize, cut).1;
      (forall k, i :: 0 <= k < |M| && M[k].Edge? && M[k].complement == At(i) && i in F ==> k in F) &&
      (forall i :: 0 <= i < |N| && i in F && N[i].Edge? && N[i].complement.At? && N[i].complement.idx !in F ==>
         N[i].complement.idx < |M| && M[N[i].complement.idx].Edge? && M[N[i].complement.idx].complement == Nil)
  {
    var p := Pass1(N, CE, geo, mapSize, cut);
    EndsOnlyKeeps(N, p.0);
    Pass2Severs(p.0, CE, p.1);
    var M := Shortened(N, CE, geo, mapSize, cut).0;
    forall i | 0 <= i < |N| && i in p.1 && N[i].Edge? && N[i].complement.At? && N[i].complement.idx !in p.1
      ensures N[i].complement.idx < |M| && M[N[i].complement.idx].Edge? && M[N[i].complement.idx].complement == Nil
    {
      var c := N[i].complement.idx;
      assert p.0[c].complement == At(i);
      assert Recomplemented(p.0[c], M[c]);
    }
  }

  /** ShortenEdges keeps the tree links and the arcs, and keeps only collected edges. */
  lemma ShortenedFrame(N: seq<Node>, CE: seq<nat>, geo: Numerics, mapSize: int, cut: int)
    requires EdgesOk(N, CE) && ComplementsOk(N)
    ensures var r := Shortened(N, CE, geo, mapSize, cut);
      |r.0| == |N| && EdgesOk(r.0, r.1) && ComplementsOk(r.0) &&
      forall j :: 0 <= j < |N| ==> Links(r.0[j]) == Links(N[j]) && (N[j].Arc? ==> r.0[j] == N[j])
  {
    var p := Pass1(N, CE, geo, mapSize, cut);
    EndsOnlyKeeps(N, p.0);
    var r := Pass2(p.0, CE, p.1);
    forall j | 0 <= j < |N| ensures Links(r.0[j]) == Links(N[j]) && (N[j].Arc? ==> r.0[j] == N[j]) {
      RecomplementedLinks(p.0[j], r.0[j]);
    }
    forall k | 0 <= k < |r.1| ensures r.1[k] < |r.0| && r.0[r.1[k]].Edge? {
      assert r.1[k] in r.1;
      RecomplementedLinks(p.0[r.1[k]], r.0[r.1[k]]);
    }
  }

  /**
   * The empty-queue branch of RunAlgorithm on a beach line: ClearTree from
   * the root, then ShortenEdges.  Only the root is left of the tree, arcs are
   * untouched, and every collected edge is an edge with complements in range.
   */
  ghost function Finale(N: seq<Node>, CE: seq<nat>, t: Shape, geo: Numerics, mapSize: int, cut: int)
    : (r: (seq<Node>, seq<nat>))
    requires Encodes(N, t, Nil) && Distinct(t) && ComplementsOk(N) && EdgesOk(N, CE)
    ensures EdgesOk(r.0, r.1) && ComplementsOk(r.0) && Encodes(r.0, Stump(t), Nil) && |r.0| == |N|
    ensures forall j :: 0 <= j < |N| ==> r.0[j].Arc? == N[j].Arc? && (N[j].Arc? ==> r.0[j] == N[j])
  {
    ClearFrame(N, CE, t, geo, mapSize);
    var c := Clear(N, CE, t, Nil, geo, mapSize);
    ShortenedFrame(c.0, c.1, geo, mapSize, cut);
    var r := Shortened(c.0, c.1, geo, mapSize, cut);
    EncodesFrame(c.0, r.0, Stump(t), Nil);
    r
  }

  /**
   * Finishing keeps the engine's invariant: once the queue is empty,
   * clearing the tree and clipping the collected edges leave an arena that
   * the stump of the tree still describes, and the diagram may be marked
   * finished.  (The invariant is stated `== true` so that it is handed on
   * whole.)
   */
  lemma FinaleInvariant(s: Snapshot, t: Shape, root: Ref, CE: seq<nat>, finished: bool, geo: Numerics,
                        mapSize: int, cut: int)
    requires Invariant(s, t, root, CE, finished) == true && s.events == [] && root != Nil
    ensures root == At(t.id) && Encodes(s.nodes, t, Nil) && Distinct(t) && ComplementsOk(s.nodes) && EdgesOk(s.nodes, CE)
    ensures var r := Finale(s.nodes, CE, t, geo, mapSize, cut);
      Invariant(Snapshot(r.0, [], s.nextId), Stump(t), root, r.1, true) == true
  {
    InvariantHolds(s, t, root, CE, finished);
    var r := Finale(s.nodes, CE, t, geo, mapSize, cut);
    assert EventsBelow(r.0, s.nextId) by {
      forall i | 0 <= i < |r.0| && r.0[i].Arc? ensures r.0[i] == s.nodes[i] {
      }
    }
  }

  /** ClearTree finishes each edge of a tree with distinct nodes once. */
  lemma {:induction false} PostOrderDistinct(t: Shape)
    requires Distinct(t)
    ensures NoDuplicates(PostOrder(t))
  {
    match t
    case Leaf(_) =>
    case Bare(_) =>
    case Fork(i, l, r) =>
      PostOrderDistinct(l);
      PostOrderDistinct(r);
      var R, L := PostOrder(r), PostOrder(l);
      var P := R + L + [i];
      forall j, k | 0 <= j < k < |P| ensures P[j] != P[k] {
        if k < |R| {
          assert P[j] == R[j] && P[k] == R[k];
        } else if j >= |R| && k < |R| + |L| {
          assert P[j] == L[j - |R|] && P[k] == L[k - |R|];
        } else if j < |R| {
          assert P[j] == R[j] && P[j] in Ids(r);
        } else {
          assert P[j] == L[j - |R|] && P[j] in Ids(l);
        }
      }
  }

  /** InMapOf keeps some of its input, in order, so it keeps it free of duplicates. */
  lemma {:induction false} InMapOfSub(N: seq<Node>, P: seq<nat>, mapSize: int)
    ensures forall c :: c in InMapOf(N, P, mapSize) ==> c in P
    ensures NoDuplicates(P) ==> NoDuplicates(InMapOf(N, P, mapSize))
    decreases |P|
  {
    if |P| > 0 {
      InMapOfSub(N, P[1..], mapSize);
      var C, T := InMapOf(N, P, mapSize), InMapOf(N, P[1..], mapSize);
      forall c | c in C ensures c in P {
        if c in T {
          assert c in P[1..];
        }
      }
      if NoDuplicates(P) {
        assert NoDuplicates(P[1..]) by {
          forall j, k | 0 <= j < k < |P[1..]| ensures P[1..][j] != P[1..][k] {
            assert P[1..][j] == P[j + 1] && P[1..][k] == P[k + 1];
          }
        }
        assert P[0] !in P[1..] by {
          forall k | 0 <= k < |P[1..]| ensures P[1..][k] != P[0] {
            assert P[1..][k] == P[k + 1];
          }
        }
      }
    }
  }

  /** Edges collected off the tree, then the tree's edges in the map: still no edge twice. */
  lemma ClearUnique(N: seq<Node>, CE: seq<nat>, t: Shape, geo: Numerics, mapSize: int)
    requires Encodes(N, t, Nil) && Distinct(t) && ComplementsOk(N) && NoDuplicates(CE) && OffTree(CE, t)
    ensures NoDuplicates(Clear(N, CE, t, Nil, geo, mapSize).1)
  {
    ClearCollects(N, CE, t, Nil, geo, mapSize);
    PostOrderDistinct(t);
    InMapOfSub(N, PostOrder(t), mapSize);
    var C := InMapOf(N, PostOrder(t), mapSize);
    var all := CE + C;
    forall j, k | 0 <= j < k < |all| ensures all[j] != all[k] {
      if k < |CE| {
        assert all[j] == CE[j] && all[k] == CE[k];
      } else if j >= |CE| {
        assert all[j] == C[j - |CE|] && all[k] == C[k - |CE|];
      } else {
        assert all[k] == C[k - |CE|] && all[k] in C && all[k] in Ids(t);
        assert all[j] == CE[j] && CE[j] !in Ids(t);
      }
    }
  }

  /**
   * The empty-queue branch the first time it is taken: the collected edges
   * then hold no edge twice, ClearTree appends the tree's edges that start
   * in the map, and the diagram keeps exactly those of them ShortenEdges
   * does not forget, in order.
   */
  lemma FinaleEdges(s: Snapshot, t: Shape, root: Ref, CE: seq<nat>, finished: bool, geo: Numerics,
                    mapSize: int, cut: int)
    requires Invariant(s, t, root, CE, finished) == true && s.events == [] && root != Nil && !finished
    ensures Encodes(s.nodes, t, Nil) && Distinct(t) && ComplementsOk(s.nodes) && EdgesOk(s.nodes, CE)
    ensures NoDuplicates(CE)
    ensures var c := Clear(s.nodes, CE, t, Nil, geo, mapSize);
      c.1 == CE + InMapOf(s.nodes, PostOrder(t), mapSize) && NoDuplicates(c.1) &&
      Finale(s.nodes, CE, t, geo, mapSize, cut).1 == Without(c.1, Forgotten(c.0, c.1, geo, mapSize, cut))
  {
    InvariantHolds(s, t, root, CE, finished);
    var c := Clear(s.nodes, CE, t, Nil, geo, mapSize);
    ClearCollects(s.nodes, CE, t, Nil, geo, mapSize);
    ClearUnique(s.nodes, CE, t, geo, mapSize);
    ClearFrame(s.nodes, CE, t, geo, mapSize);
    ShortenKeeps(c.0, c.1, geo, mapSize, cut);
  }

  /** Without a tree there is nothing to clear or clip, and the diagram may be marked finished. */
  lemma EmptyInvariant(s: Snapshot, t: Shape, root: Ref, CE: seq<nat>, finished: bool)
    requires Invariant(s, t, root, CE, finished) == true && s.events == [] && root == Nil
    ensures s.nodes == [] && CE == []
    ensures Invariant(Snapshot([], [], s.nextId), t, root, [], true) == true
  {
    InvariantHolds(s, t, root, CE, finished);
  }
}
