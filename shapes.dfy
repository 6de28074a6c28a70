/**
 * The shape of the beach line, as a ghost tree of arena indices, and the
 * predicate that ties it to the arena's parent and child links.
 *
 * `Leaf(i)` is an arc, `Fork(i, l, r)` an edge with both children, and
 * `Bare(i)` an edge whose two child links have been cut (what `ClearTree`
 * leaves behind).  The in-order sequence of leaves is the beach line from left
 * to right.
 */
module Shapes {
  import opened Nodes

  datatype Shape = Leaf(id: nat) | Bare(id: nat) | Fork(id: nat, left: Shape, right: Shape)

  function Ids(t: Shape): set<nat>
  {
    match t
    case Fork(i, l, r) => {i} + Ids(l) + Ids(r)
    case _ => {t.id}
  }

  /** No index occurs twice: the arena really holds a tree. */
  predicate Distinct(t: Shape)
  {
    match t
    case Fork(i, l, r) =>
      i !in Ids(l) && i !in Ids(r) && Ids(l) !! Ids(r) && Distinct(l) && Distinct(r)
    case _ => true
  }

  /** No edge has lost its children. */
  predicate Full(t: Shape)
  {
    match t
    case Bare(_) => false
    case Fork(_, l, r) => Full(l) && Full(r)
    case Leaf(_) => true
  }

  /** The in-order sequence of arcs. */
  function Leaves(t: Shape): seq<nat>
  {
    match t
    case Leaf(i) => [i]
    case Bare(_) => []
    case Fork(_, l, r) => Leaves(l) + Leaves(r)
  }

  /** The part of a node the tree structure depends on. */
  function Links(n: Node): (bool, Ref, Ref, Ref)
  {
    match n
    case Arc(_, _, _, _, _, _, _) => (true, n.parent, Nil, Nil)
    case Edge(_, _, _, _, _, _, _, _, _) => (false, n.parent, n.leftChild, n.rightChild)
  }

  /** The arena, read from index `t.id` with parent link `par`, is the tree `t`. */
  ghost predicate Encodes(nodes: seq<Node>, t: Shape, par: Ref)
    ensures Encodes(nodes, t, par) ==> forall i :: i in Ids(t) ==> i < |nodes|
    decreases t
  {
    t.id < |nodes| && nodes[t.id].parent == par &&
    match t
    case Leaf(i) => nodes[i].Arc?
    case Bare(i) => nodes[i].Edge? && nodes[i].leftChild == Nil && nodes[i].rightChild == Nil
    case Fork(i, l, r) =>
      nodes[i].Edge? && nodes[i].leftChild == At(l.id) && nodes[i].rightChild == At(r.id) &&
      Encodes(nodes, l, At(i)) && Encodes(nodes, r, At(i))
  }

  lemma {:induction false} LeavesInIds(t: Shape)
    ensures forall k :: 0 <= k < |Leaves(t)| ==> Leaves(t)[k] in Ids(t)
  {
    match t
    case Fork(i, l, r) =>
      LeavesInIds(l);
      LeavesInIds(r);
      forall k | 0 <= k < |Leaves(t)| ensures Leaves(t)[k] in Ids(t) {
        if k < |Leaves(l)| { assert Leaves(t)[k] == Leaves(l)[k]; }
        else { assert Leaves(t)[k] == Leaves(r)[k - |Leaves(l)|]; }
      }
    case _ =>
  }

  /** Leaf indices of a distinct tree occur once each. */
  lemma {:induction false} LeavesDistinct(t: Shape)
    requires Distinct(t)
    ensures forall j, k :: 0 <= j < k < |Leaves(t)| ==> Leaves(t)[j] != Leaves(t)[k]
  {
    match t
    case Fork(i, l, r) =>
      LeavesDistinct(l);
      LeavesDistinct(r);
      LeavesInIds(l);
      LeavesInIds(r);
      var L, a, b := Leaves(t), Leaves(l), Leaves(r);
      forall j, k | 0 <= j < k < |L| ensures L[j] != L[k] {
        if k < |a| {
          assert L[j] == a[j] && L[k] == a[k];
        } else if j >= |a| {
          assert L[j] == b[j - |a|] && L[k] == b[k - |a|];
        } else {
          assert L[j] == a[j] && L[k] == b[k - |a|];
          assert L[j] in Ids(l) && L[k] in Ids(r);
        }
      }
    case _ =>
  }

  /** In an encoded tree, the leaves are exactly the arcs among its nodes. */
  lemma {:induction false} LeavesAreArcs(nodes: seq<Node>, t: Shape, par: Ref)
    requires Encodes(nodes, t, par)
    ensures forall k :: 0 <= k < |Leaves(t)| ==> Leaves(t)[k] < |nodes| && nodes[Leaves(t)[k]].Arc?
    ensures forall i :: i in Ids(t) ==> i < |nodes|
  {
    match t
    case Fork(i, l, r) =>
      LeavesAreArcs(nodes, l, At(i));
      LeavesAreArcs(nodes, r, At(i));
      var L, a, b := Leaves(t), Leaves(l), Leaves(r);
      forall k | 0 <= k < |L| ensures L[k] < |nodes| && nodes[L[k]].Arc? {
        if k < |a| { assert L[k] == a[k]; } else { assert L[k] == b[k - |a|]; }
      }
    case _ =>
  }

  /** Only the links of the tree's own nodes matter. */
  lemma {:induction false} EncodesFrame(nodes: seq<Node>, nodes': seq<Node>, t: Shape, par: Ref)
    requires Encodes(nodes, t, par) == true
    requires forall i :: i in Ids(t) ==> i < |nodes'| && Links(nodes'[i]) == Links(nodes[i])
    ensures Encodes(nodes', t, par)
  {
    assert Links(nodes'[t.id]) == Links(nodes[t.id]);
    match t
    case Fork(i, l, r) =>
      EncodesFrame(nodes, nodes', l, At(i));
      EncodesFrame(nodes, nodes', r, At(i));
    case _ =>
  }

  /** A tree whose root alone has been given a new parent link. */
  lemma Reparent(nodes: seq<Node>, nodes': seq<Node>, t: Shape, par: Ref, par': Ref)
    requires Encodes(nodes, t, par) == true && Distinct(t) == true
    requires t.id < |nodes'| && Links(nodes'[t.id]) == Links(nodes[t.id].(parent := par'))
    requires forall i :: i in Ids(t) && i != t.id ==> i < |nodes'| && Links(nodes'[i]) == Links(nodes[i])
    ensures Encodes(nodes', t, par')
  {
    match t
    case Fork(i, l, r) =>
      EncodesFrame(nodes, nodes', l, At(i));
      EncodesFrame(nodes, nodes', r, At(i));
    case _ =>
  }

  // ----- subtrees, parents and grafting -----

  /** The subtree whose root is `x`. */
  function SubAt(t: Shape, x: nat): (s: Shape)
    requires x in Ids(t)
    ensures s.id == x && Ids(s) <= Ids(t)
  {
    if t.id == x then t
    else match t
      case Fork(i, l, r) => if x in Ids(l) then SubAt(l, x) else SubAt(r, x)
  }

  /** The parent link of `x`, when the whole tree hangs from `par`. */
  function ParentIn(t: Shape, x: nat, par: Ref): (p: Ref)
    requires x in Ids(t)
    ensures x != t.id ==> p.At? && p.idx in Ids(t)
    ensures x != t.id && Distinct(t) ==> p.idx !in Ids(SubAt(t, x))
    ensures x == t.id ==> p == par
    decreases t
  {
    if t.id == x then par
    else match t
      case Fork(i, l, r) =>
        if x in Ids(l) then ParentIn(l, x, At(i)) else ParentIn(r, x, At(i))
  }

  /** `t` with the subtree rooted at `x` replaced by `s`. */
  function Subst(t: Shape, x: nat, s: Shape): (u: Shape)
    requires x in Ids(t)
    ensures x == t.id ==> u == s
    ensures x != t.id ==> u.id == t.id
  {
    if t.id == x then s
    else match t
      case Fork(i, l, r) =>
        if x in Ids(l) then Fork(i, Subst(l, x, s), r) else Fork(i, l, Subst(r, x, s))
  }

  /** `after` is `before` with the child link to `x` redirected to `y`. */
  ghost predicate SlotSwapped(before: Node, after: Node, x: nat, y: nat)
  {
    before.Edge? && after.Edge? && after.parent == before.parent &&
    if before.leftChild == At(x) then after.leftChild == At(y) && after.rightChild == before.rightChild
    else after.leftChild == before.leftChild && after.rightChild == At(y)
  }

  lemma {:induction false} SubtreeEncodes(nodes: seq<Node>, t: Shape, par: Ref, x: nat)
    requires Encodes(nodes, t, par) == true && Distinct(t) == true && x in Ids(t)
    ensures Encodes(nodes, SubAt(t, x), ParentIn(t, x, par)) && Distinct(SubAt(t, x))
  {
    if t.id != x {
      match t
      case Fork(i, l, r) =>
        if x in Ids(l) { SubtreeEncodes(nodes, l, At(i), x); }
        else { SubtreeEncodes(nodes, r, At(i), x); }
    }
  }

  /**
   * Rebinding one child slot: if the arena agrees with the old one on every
   * node outside the replaced subtree, except that the parent slot of `x` now
   * holds `s`, and `s` is encoded under that parent, the arena encodes the
   * substituted tree.
   */
  lemma {:induction false} Graft(nodes: seq<Node>, nodes': seq<Node>, t: Shape, par: Ref, x: nat, s: Shape)
    requires Encodes(nodes, t, par) == true && Distinct(t) == true && x in Ids(t)
    requires Encodes(nodes', s, ParentIn(t, x, par)) == true
    requires forall i :: i in Ids(t) && i !in Ids(SubAt(t, x)) && At(i) != ParentIn(t, x, par) ==>
               i < |nodes'| && Links(nodes'[i]) == Links(nodes[i])
    requires x != t.id ==> var p := ParentIn(t, x, par).idx;
               p < |nodes'| && SlotSwapped(nodes[p], nodes'[p], x, s.id)
    ensures Encodes(nodes', Subst(t, x, s), par)
  {
    if t.id != x {
      match t
      case Fork(i, l, r) =>
        if x in Ids(l) {
          if l.id == x {
            assert nodes[i].leftChild == At(x);
          } else {
            Graft(nodes, nodes', l, At(i), x, s);
            assert Links(nodes'[i]) == Links(nodes[i]);
          }
          EncodesFrame(nodes, nodes', r, At(i));
        } else {
          if r.id == x {
            assert nodes[i].leftChild != At(x);
          } else {
            Graft(nodes, nodes', r, At(i), x, s);
            assert Links(nodes'[i]) == Links(nodes[i]);
          }
          EncodesFrame(nodes, nodes', l, At(i));
        }
    }
  }

  lemma {:induction false} IdsSubst(t: Shape, x: nat, s: Shape)
    requires Distinct(t) && x in Ids(t)
    ensures Ids(Subst(t, x, s)) == (Ids(t) - Ids(SubAt(t, x))) + Ids(s)
  {
    if t.id != x {
      match t
      case Fork(i, l, r) =>
        if x in Ids(l) { IdsSubst(l, x, s); } else { IdsSubst(r, x, s); }
    }
  }

  lemma {:induction false} DistinctSubst(t: Shape, x: nat, s: Shape)
    requires Distinct(t) == true && x in Ids(t) && Distinct(s) == true
    requires Ids(s) !! (Ids(t) - Ids(SubAt(t, x)))
    ensures Distinct(Subst(t, x, s))
  {
    if t.id != x {
      match t
      case Fork(i, l, r) =>
        if x in Ids(l) {
          DistinctSubst(l, x, s);
          IdsSubst(l, x, s);
        } else {
          DistinctSubst(r, x, s);
          IdsSubst(r, x, s);
        }
    }
  }

  lemma {:induction false} FullSubst(t: Shape, x: nat, s: Shape)
    requires Full(t) == true && x in Ids(t) && Full(s) == true
    ensures Full(Subst(t, x, s))
  {
    if t.id != x {
      match t
      case Fork(i, l, r) =>
        if x in Ids(l) { FullSubst(l, x, s); } else { FullSubst(r, x, s); }
    }
  }

  // ----- the beach line left and right of a node -----

  /** The arcs to the left of the subtree rooted at `x`. */
  function Before(t: Shape, x: nat): seq<nat>
    requires x in Ids(t)
  {
    if t.id == x then []
    else match t
      case Fork(i, l, r) => if x in Ids(l) then Before(l, x) else Leaves(l) + Before(r, x)
  }

  /** The arcs to the right of the subtree rooted at `x`. */
  function After(t: Shape, x: nat): seq<nat>
    requires x in Ids(t)
  {
    if t.id == x then []
    else match t
      case Fork(i, l, r) => if x in Ids(l) then After(l, x) + Leaves(r) else After(r, x)
  }

  /** The beach line is what lies left of a subtree, the subtree, and what lies right of it. */
  lemma {:induction false} LeavesSplit(t: Shape, x: nat)
    requires x in Ids(t)
    ensures Leaves(t) == Before(t, x) + Leaves(SubAt(t, x)) + After(t, x)
  {
    if t.id != x {
      match t
      case Fork(i, l, r) =>
        var m := Leaves(SubAt(t, x));
        if x in Ids(l) {
          LeavesSplit(l, x);
          assert Leaves(t) == (Before(l, x) + m + After(l, x)) + Leaves(r);
        } else {
          LeavesSplit(r, x);
          assert Leaves(t) == Leaves(l) + (Before(r, x) + m + After(r, x));
        }
    }
  }

  /** Substituting a subtree replaces exactly its stretch of the beach line. */
  lemma {:induction false} LeavesSubst(t: Shape, x: nat, s: Shape)
    requires x in Ids(t)
    ensures Leaves(Subst(t, x, s)) == Before(t, x) + Leaves(s) + After(t, x)
  {
    if t.id != x {
      match t
      case Fork(i, l, r) =>
        if x in Ids(l) { LeavesSubst(l, x, s); } else { LeavesSubst(r, x, s); }
    }
  }

  /** What lies left of a node inside a subtree, seen from the whole tree. */
  lemma {:induction false} BeforeNested(t: Shape, p: nat, x: nat)
    requires Distinct(t) && p in Ids(t) && x in Ids(SubAt(t, p))
    ensures x in Ids(t)
    ensures Before(t, x) == Before(t, p) + Before(SubAt(t, p), x)
    ensures After(t, x) == After(SubAt(t, p), x) + After(t, p)
  {
    if t.id != p {
      match t
      case Fork(i, l, r) =>
        var u := SubAt(t, p);
        if p in Ids(l) {
          assert u == SubAt(l, p);
          BeforeNested(l, p, x);
          assert x in Ids(l) && x != i;
          assert After(t, x) == After(u, x) + After(l, p) + Leaves(r);
        } else {
          assert u == SubAt(r, p);
          BeforeNested(r, p, x);
          assert x in Ids(r) && x !in Ids(l) && x != i;
          assert Before(t, x) == Leaves(l) + Before(r, p) + Before(u, x);
        }
    }
  }

  /** An arc of the tree is one of its leaves: it splits the beach line around itself. */
  lemma {:induction false} LeafPosition(nodes: seq<Node>, t: Shape, par: Ref, x: nat)
    requires Encodes(nodes, t, par) && Distinct(t) && x in Ids(t) && nodes[x].Arc?
    ensures SubAt(t, x) == Leaf(x)
    ensures Leaves(t) == Before(t, x) + [x] + After(t, x)
  {
    SubtreeEncodes(nodes, t, par, x);
    LeavesSplit(t, x);
  }

  /** A leaf's index in `Leaves(t)` is where `Before` ends. */
  lemma LeafIndex(t: Shape, x: nat, k: nat)
    requires Distinct(t) && k < |Leaves(t)| && Leaves(t)[k] == x && x in Ids(t)
    requires Leaves(t) == Before(t, x) + [x] + After(t, x)
    ensures |Before(t, x)| == k
    ensures Before(t, x) == Leaves(t)[..k] && After(t, x) == Leaves(t)[k + 1..]
  {
    LeavesDistinct(t);
    var L := Leaves(t);
    var b := |Before(t, x)|;
    assert L[b] == x;
    assert L[..k] == Before(t, x);
    assert L[k + 1..] == After(t, x);
  }

  /** The leftmost and rightmost arcs of a subtree (of a full one, see ExtremesAreLeaves). */
  function Leftmost(t: Shape): nat
  {
    match t
    case Leaf(i) => i
    case Bare(i) => i
    case Fork(_, l, _) => Leftmost(l)
  }

  function Rightmost(t: Shape): nat
  {
    match t
    case Leaf(i) => i
    case Bare(i) => i
    case Fork(_, _, r) => Rightmost(r)
  }

  lemma {:induction false} ExtremesAreLeaves(t: Shape)
    requires Full(t)
    ensures |Leaves(t)| > 0
    ensures Leaves(t)[0] == Leftmost(t) && Leaves(t)[|Leaves(t)| - 1] == Rightmost(t)
  {
    match t
    case Leaf(_) =>
    case Fork(_, l, r) =>
      ExtremesAreLeaves(l);
      ExtremesAreLeaves(r);
  }

  /** The parent of a node is a fork with that node's subtree as one of its children. */
  lemma {:induction false} ParentChild(t: Shape, x: nat, par: Ref)
    requires Distinct(t) && x in Ids(t) && x != t.id
    ensures var q := ParentIn(t, x, par).idx;
      q in Ids(t) && SubAt(t, q).Fork? && (SubAt(t, q).left == SubAt(t, x) || SubAt(t, q).right == SubAt(t, x))
  {
    match t
    case Fork(i, l, r) =>
      if x in Ids(l) {
        if l.id != x {
          ParentChild(l, x, At(i));
          var q := ParentIn(l, x, At(i)).idx;
          assert SubAt(t, q) == SubAt(l, q);
        }
      } else {
        if r.id != x {
          ParentChild(r, x, At(i));
          var q := ParentIn(r, x, At(i)).idx;
          assert q !in Ids(l);
          assert SubAt(t, q) == SubAt(r, q);
        }
      }
  }

  lemma {:induction false} FullSubAt(t: Shape, x: nat)
    requires Full(t) && x in Ids(t)
    ensures Full(SubAt(t, x))
  {
    if t.id != x {
      match t
      case Fork(i, l, r) =>
        if x in Ids(l) { FullSubAt(l, x); } else { FullSubAt(r, x); }
    }
  }

  /** A subtree of a subtree is a subtree. */
  lemma {:induction false} SubAtNested(t: Shape, p: nat, x: nat)
    requires Distinct(t) && p in Ids(t) && x in Ids(SubAt(t, p))
    ensures x in Ids(t) && SubAt(t, x) == SubAt(SubAt(t, p), x)
  {
    if t.id != p {
      match t
      case Fork(i, l, r) =>
        if p in Ids(l) {
          SubAtNested(l, p, x);
          assert x != i && x !in Ids(r);
        } else {
          SubAtNested(r, p, x);
          assert x != i && x !in Ids(l);
        }
    }
  }
}
