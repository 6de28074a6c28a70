/**
 * Neighbours on the beach line, read off the path from the root to an arc.
 *
 * The left bounding edge of an arc is the nearest ancestor that has the arc in
 * its right subtree; the left neighbouring arc is the rightmost arc of that
 * ancestor's left subtree.  Symmetrically on the right.  The lemmas
 * `Predecessor` and `Successor` show that these are the arcs just before and
 * just after the arc in the in-order beach line.
 */
module Paths {
  import opened Nodes
  import opened Shapes

  /** The edges from the root down to the parent of `x`. */
  function Path(t: Shape, x: nat): (P: seq<Shape>)
    requires x in Ids(t)
    ensures |P| == 0 <==> x == t.id
    ensures forall j :: 0 <= j < |P| ==> P[j].Fork?
  {
    if t.id == x then []
    else match t
      case Fork(i, l, r) =>
        var c := if x in Ids(l) then l else r;
        var Q := Path(c, x);
        assert forall j :: 0 <= j < |Q| ==> ([t] + Q)[j + 1] == Q[j];
        [t] + Q
  }

  /** How consecutive entries of the path hang together. */
  lemma {:induction false} PathFacts(t: Shape, x: nat)
    requires x in Ids(t)
    ensures var P := Path(t, x);
      (|P| > 0 ==> P[0] == t) &&
      (forall j :: 0 <= j < |P| ==> x in Ids(P[j]) && P[j].id != x && Ids(P[j]) <= Ids(t)) &&
      (Full(t) ==> forall j :: 0 <= j < |P| ==> Full(P[j])) &&
      (Distinct(t) ==> forall j :: 0 <= j < |P| ==> Distinct(P[j])) &&
      (forall j :: 0 <= j < |P| - 1 ==>
         P[j + 1] == (if x in Ids(P[j].left) then P[j].left else P[j].right)) &&
      (|P| > 0 ==> (if x in Ids(P[|P| - 1].left) then P[|P| - 1].left else P[|P| - 1].right).id == x)
  {
    if t.id != x {
      match t
      case Fork(i, l, r) =>
        var c := if x in Ids(l) then l else r;
        PathFacts(c, x);
        var P, Q := Path(t, x), Path(c, x);
        assert P == [t] + Q;
        forall j | 0 <= j < |P|
          ensures x in Ids(P[j]) && P[j].id != x && Ids(P[j]) <= Ids(t)
          ensures Full(t) ==> Full(P[j])
          ensures Distinct(t) ==> Distinct(P[j])
        {
          if j > 0 {
            assert P[j] == Q[j - 1];
          }
        }
        forall j | 0 <= j < |P| - 1
          ensures P[j + 1] == (if x in Ids(P[j].left) then P[j].left else P[j].right)
        {
          if j > 0 {
            assert P[j] == Q[j - 1] && P[j + 1] == Q[j];
          } else {
            assert P[1] == Q[0] == c;
          }
        }
        if |Q| > 0 {
          assert P[|P| - 1] == Q[|Q| - 1];
        }
    }
  }

  /** `x` lies in the right subtree of the edge `f`. */
  predicate TurnsRight(f: Shape, x: nat)
  {
    f.Fork? && x in Ids(f.right)
  }

  /** `x` lies in the left subtree of the edge `f`. */
  predicate TurnsLeft(f: Shape, x: nat)
  {
    f.Fork? && x in Ids(f.left)
  }

  /** The deepest position on `P` where the path turns right, or -1. */
  function LastRightTurn(P: seq<Shape>, x: nat): (k: int)
    ensures -1 <= k < |P|
    ensures k >= 0 ==> TurnsRight(P[k], x)
    ensures forall j :: k < j < |P| ==> !TurnsRight(P[j], x)
  {
    if |P| == 0 then -1
    else
      var k := LastRightTurn(P[1..], x);
      assert forall j :: 0 <= j < |P| - 1 ==> P[1..][j] == P[j + 1];
      if k >= 0 then k + 1 else if TurnsRight(P[0], x) then 0 else -1
  }

  /** The deepest position on `P` where the path turns left, or -1. */
  function LastLeftTurn(P: seq<Shape>, x: nat): (k: int)
    ensures -1 <= k < |P|
    ensures k >= 0 ==> TurnsLeft(P[k], x)
    ensures forall j :: k < j < |P| ==> !TurnsLeft(P[j], x)
  {
    if |P| == 0 then -1
    else
      var k := LastLeftTurn(P[1..], x);
      assert forall j :: 0 <= j < |P| - 1 ==> P[1..][j] == P[j + 1];
      if k >= 0 then k + 1 else if TurnsLeft(P[0], x) then 0 else -1
  }

  /** The last right turn is the one position that turns right with no right turn below it. */
  lemma LastRightTurnIs(P: seq<Shape>, x: nat, k: int)
    requires -1 <= k < |P| && (k >= 0 ==> TurnsRight(P[k], x))
    requires forall j :: k < j < |P| ==> !TurnsRight(P[j], x)
    ensures LastRightTurn(P, x) == k
  {
  }

  /** The last left turn is the one position that turns left with no left turn below it. */
  lemma LastLeftTurnIs(P: seq<Shape>, x: nat, k: int)
    requires -1 <= k < |P| && (k >= 0 ==> TurnsLeft(P[k], x))
    requires forall j :: k < j < |P| ==> !TurnsLeft(P[j], x)
    ensures LastLeftTurn(P, x) == k
  {
  }

  /** The nearest ancestor having `x` in its right subtree. */
  function LeftEdgeOf(t: Shape, x: nat): Ref
    requires x in Ids(t)
  {
    var P := Path(t, x);
    var k := LastRightTurn(P, x);
    if k < 0 then Nil else At(P[k].id)
  }

  /** The nearest ancestor having `x` in its left subtree. */
  function RightEdgeOf(t: Shape, x: nat): Ref
    requires x in Ids(t)
  {
    var P := Path(t, x);
    var k := LastLeftTurn(P, x);
    if k < 0 then Nil else At(P[k].id)
  }

  /** The rightmost arc left of `x`'s left edge. */
  function LeftArcOf(t: Shape, x: nat): Ref
    requires x in Ids(t)
  {
    var P := Path(t, x);
    var k := LastRightTurn(P, x);
    if k < 0 then Nil else At(Rightmost(P[k].left))
  }

  /** The leftmost arc right of `x`'s right edge. */
  function RightArcOf(t: Shape, x: nat): Ref
    requires x in Ids(t)
  {
    var P := Path(t, x);
    var k := LastLeftTurn(P, x);
    if k < 0 then Nil else At(Leftmost(P[k].right))
  }

  /** The left arc found on the path is the arc just before `x` on the beach line. */
  lemma {:induction false} Predecessor(t: Shape, x: nat)
    requires Distinct(t) && Full(t) && x in Ids(t)
    ensures var P := Path(t, x); var k := LastRightTurn(P, x);
      (k < 0 <==> Before(t, x) == []) &&
      (k >= 0 ==> Before(t, x)[|Before(t, x)| - 1] == Rightmost(P[k].left))
  {
    if t.id != x {
      match t
      case Fork(i, l, r) =>
        var P, Q := Path(t, x), Path(if x in Ids(l) then l else r, x);
        assert P[1..] == Q;
        var k, k' := LastRightTurn(P, x), LastRightTurn(Q, x);
        assert k == (if k' >= 0 then k' + 1 else if TurnsRight(t, x) then 0 else -1);
        if k' >= 0 {
          assert P[k] == Q[k'];
        }
        if x in Ids(l) {
          Predecessor(l, x);
          assert !TurnsRight(t, x);
          assert Before(t, x) == Before(l, x);
        } else {
          Predecessor(r, x);
          ExtremesAreLeaves(l);
          var B := Before(r, x);
          assert Before(t, x) == Leaves(l) + B;
          if k' < 0 {
            assert B == [] && k == 0;
          }
        }
    }
  }

  /** The right arc found on the path is the arc just after `x` on the beach line. */
  lemma {:induction false} Successor(t: Shape, x: nat)
    requires Distinct(t) && Full(t) && x in Ids(t)
    ensures var P := Path(t, x); var k := LastLeftTurn(P, x);
      (k < 0 <==> After(t, x) == []) &&
      (k >= 0 ==> After(t, x)[0] == Leftmost(P[k].right))
  {
    if t.id != x {
      match t
      case Fork(i, l, r) =>
        var P := Path(t, x);
        assert P[1..] == Path(if x in Ids(l) then l else r, x);
        if x in Ids(l) {
          Successor(l, x);
          ExtremesAreLeaves(r);
        } else {
          Successor(r, x);
          assert !TurnsLeft(t, x);
        }
    }
  }

  /**
   * For the arc at position `k` of the beach line: its left arc is the one at
   * `k - 1` (none at the left end), its right arc the one at `k + 1` (none at
   * the right end), and a bounding edge is missing exactly when the
   * neighbouring arc on that side is.
   */
  lemma Neighbours(nodes: seq<Node>, t: Shape, par: Ref, x: nat, k: nat)
    requires Encodes(nodes, t, par) && Distinct(t) && Full(t)
    requires k < |Leaves(t)| && Leaves(t)[k] == x
    ensures x in Ids(t)
    ensures LeftArcOf(t, x) == (if k == 0 then Nil else At(Leaves(t)[k - 1]))
    ensures RightArcOf(t, x) == (if k == |Leaves(t)| - 1 then Nil else At(Leaves(t)[k + 1]))
    ensures LeftEdgeOf(t, x) == Nil <==> k == 0
    ensures RightEdgeOf(t, x) == Nil <==> k == |Leaves(t)| - 1
  {
    LeavesInIds(t);
    LeavesAreArcs(nodes, t, par);
    LeafPosition(nodes, t, par, x);
    LeafIndex(t, x, k);
    Predecessor(t, x);
    Successor(t, x);
    var L := Leaves(t);
    assert |After(t, x)| == |L| - k - 1;
    if k > 0 {
      assert Before(t, x)[k - 1] == L[k - 1];
    }
    if k < |L| - 1 {
      assert After(t, x)[0] == L[k + 1];
    }
  }

  /** Every edge on the path is encoded below its predecessor on the path. */
  lemma {:induction false} PathEncodes(nodes: seq<Node>, t: Shape, par: Ref, x: nat)
    requires Encodes(nodes, t, par) && x in Ids(t)
    ensures var P := Path(t, x);
      forall j :: 0 <= j < |P| ==> Encodes(nodes, P[j], if j == 0 then par else At(P[j - 1].id))
    ensures x != t.id ==> ParentIn(t, x, par) == At(Path(t, x)[|Path(t, x)| - 1].id)
  {
    if t.id != x {
      match t
      case Fork(i, l, r) =>
        var c := if x in Ids(l) then l else r;
        PathEncodes(nodes, c, At(i), x);
        var P, Q := Path(t, x), Path(c, x);
        assert P == [t] + Q;
        forall j | 0 <= j < |P| ensures Encodes(nodes, P[j], if j == 0 then par else At(P[j - 1].id)) {
          if j > 0 {
            assert P[j] == Q[j - 1];
            if j > 1 { assert P[j - 1] == Q[j - 2]; }
          }
        }
    }
  }

  /**
   * The child links met on the way up from `x`: at path position `j` the
   * left link leads back towards `x` exactly when the path turns left there,
   * and the right link exactly when it turns right.
   */
  lemma PathLinks(nodes: seq<Node>, t: Shape, x: nat, j: nat)
    requires Encodes(nodes, t, Nil) == true && Distinct(t) == true && x in Ids(t)
    requires j < |Path(t, x)|
    ensures var P := Path(t, x);
      P[j].id < |nodes| &&
      var e := nodes[P[j].id];
      var below := if j + 1 < |P| then P[j + 1].id else x;
      e.Edge? &&
      (e.parent == Nil <==> j == 0) &&
      (j > 0 ==> e.parent == At(P[j - 1].id)) &&
      e.leftChild != At(P[j].id) && e.rightChild != At(P[j].id) &&
      (j + 1 < |P| ==> e.leftChild != At(x) && e.rightChild != At(x)) &&
      (e.leftChild == At(below) <==> !TurnsRight(P[j], x)) &&
      (e.rightChild == At(below) <==> !TurnsLeft(P[j], x)) &&
      e.leftChild == At(P[j].left.id) && e.rightChild == At(P[j].right.id)
  {
    PathEncodes(nodes, t, Nil, x);
    PathFacts(t, x);
    var P := Path(t, x);
    var f := P[j];
    assert Encodes(nodes, f, if j == 0 then Nil else At(P[j - 1].id));
    assert f.left.id in Ids(f.left) && f.right.id in Ids(f.right);
    if j + 1 < |P| {
      var g := P[j + 1];
      assert g.id in Ids(g) && x in Ids(g) && g.id != x;
      assert Ids(g) <= Ids(f.left) || Ids(g) <= Ids(f.right);
    }
  }

  /** Every entry of the path is the subtree rooted at its own index. */
  lemma {:induction false} PathSubAt(t: Shape, x: nat)
    requires Distinct(t) && x in Ids(t)
    ensures var P := Path(t, x);
      forall j :: 0 <= j < |P| ==> P[j].id in Ids(t) && SubAt(t, P[j].id) == P[j]
  {
    if t.id != x {
      match t
      case Fork(i, l, r) =>
        var c := if x in Ids(l) then l else r;
        PathSubAt(c, x);
        PathFacts(c, x);
        var P, Q := Path(t, x), Path(c, x);
        assert P == [t] + Q;
        forall j | 0 <= j < |P| ensures P[j].id in Ids(t) && SubAt(t, P[j].id) == P[j] {
          if j > 0 {
            assert P[j] == Q[j - 1];
            assert Q[j - 1].id in Ids(Q[j - 1]);
            assert Q[j - 1].id in Ids(c) && Q[j - 1].id != i;
          }
        }
    }
  }

  /** Deeper entries of the path lie strictly inside shallower ones. */
  lemma {:induction false} PathNested(t: Shape, x: nat, i: nat, j: nat)
    requires Distinct(t) && x in Ids(t) && i < j < |Path(t, x)|
    ensures Ids(Path(t, x)[j]) <= Ids(Path(t, x)[i]) - {Path(t, x)[i].id}
    decreases j - i
  {
    PathFacts(t, x);
    var P := Path(t, x);
    assert Distinct(P[i]);
    if j > i + 1 {
      PathNested(t, x, i + 1, j);
    }
  }

  /** The parent of `x` is the last entry of its path. */
  lemma {:induction false} PathParent(t: Shape, x: nat, par: Ref)
    requires x in Ids(t) && x != t.id
    ensures ParentIn(t, x, par) == At(Path(t, x)[|Path(t, x)| - 1].id)
  {
    match t
    case Fork(i, l, r) =>
      var c := if x in Ids(l) then l else r;
      var P, Q := Path(t, x), Path(c, x);
      assert P == [t] + Q;
      if c.id != x {
        PathParent(c, x, At(i));
        assert P[|P| - 1] == Q[|Q| - 1];
      }
  }
}
