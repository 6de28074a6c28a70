/**
 * The event queue: a list of site and circle events kept in sweep order
 * (higher y first, then smaller x), whose position 0 is the event being
 * handled.  Events are values; `id` stands for the identity of the event
 * object, which is what `List.Remove` compares.
 */
module Queue {
  import opened Geometry
  import opened Nodes

  /** A site event (`isNewSite`) or the circle event of the arc `arc`, due at sweep line `y`. */
  datatype Event = Event(id: nat, pos: RPoint, isNewSite: bool, arc: Ref, y: real)

  /** The insertion loop steps past `e` for a key (y, x): e is higher, or as high and further left. */
  predicate StepsPast(e: Event, y: real, x: real)
  {
    e.y > y || (e.y == y && e.pos.x < x)
  }

  /** `a` may stand before `b`: it is higher, or as high and not further right. */
  predicate InOrder(a: Event, b: Event)
  {
    a.y > b.y || (a.y == b.y && a.pos.x <= b.pos.x)
  }

  /** The queue is in sweep order from index `start` on. */
  predicate SortedFrom(q: seq<Event>, start: nat)
  {
    forall i, j :: start <= i < j < |q| ==> InOrder(q[i], q[j])
  }

  /**
   * Where InsertNewEvent puts an event with key (y, x) when it starts looking
   * at `start`: the first index from `start` on whose event it does not step
   * past, or the end of the queue.
   */
  function InsertIndex(q: seq<Event>, start: nat, y: real, x: real): (i: nat)
    requires start <= |q|
    ensures start <= i <= |q|
    ensures forall j :: start <= j < i ==> StepsPast(q[j], y, x)
    ensures i < |q| ==> !StepsPast(q[i], y, x)
    ensures forall j :: start <= j < |q| && q[j].y == y && q[j].pos.x == x ==> i <= j
    decreases |q| - start
  {
    if start == |q| || !StepsPast(q[start], y, x) then start else InsertIndex(q, start + 1, y, x)
  }

  /** `List.Insert`. */
  function Insert(q: seq<Event>, i: nat, e: Event): (r: seq<Event>)
    requires i <= |q|
    ensures |r| == |q| + 1 && r[i] == e
    ensures forall j :: 0 <= j < i ==> r[j] == q[j]
    ensures forall j :: i <= j < |q| ==> r[j + 1] == q[j]
  {
    q[..i] + [e] + q[i..]
  }

  /** Insertion adds exactly the one event. */
  lemma InsertContents(q: seq<Event>, i: nat, e: Event)
    requires i <= |q|
    ensures multiset(Insert(q, i, e)) == multiset(q) + multiset{e}
  {
    assert q == q[..i] + q[i..];
  }

  /** Inserting at InsertIndex keeps a queue sorted from `start` on. */
  lemma InsertKeepsSorted(q: seq<Event>, start: nat, e: Event)
    requires start <= |q| && SortedFrom(q, start)
    ensures SortedFrom(Insert(q, InsertIndex(q, start, e.y, e.pos.x), e), start)
  {
    var i := InsertIndex(q, start, e.y, e.pos.x);
    var r := Insert(q, i, e);
    forall a, b | start <= a < b < |r| ensures InOrder(r[a], r[b]) {
      if b < i {
        assert r[a] == q[a] && r[b] == q[b];
      } else if b == i {
        assert StepsPast(q[a], e.y, e.pos.x);
      } else if a == i {
        assert r[b] == q[b - 1];
        assert !StepsPast(q[i], e.y, e.pos.x);
        if b - 1 > i {
          assert InOrder(q[i], q[b - 1]);
        }
      } else if a < i {
        assert r[a] == q[a] && r[b] == q[b - 1];
      } else {
        assert r[a] == q[a - 1] && r[b] == q[b - 1];
      }
    }
  }

  /** The index of the first event with identity `id`, or |q| when there is none. */
  function Find(q: seq<Event>, id: nat): (k: nat)
    ensures k <= |q|
    ensures k < |q| ==> q[k].id == id
    ensures forall j :: 0 <= j < k ==> q[j].id != id
  {
    if |q| == 0 then 0
    else if q[0].id == id then 0
    else 1 + Find(q[1..], id)
  }

  /** `List.Remove`: drops the first event with identity `id`, if any. */
  function RemoveFirst(q: seq<Event>, id: nat): (r: seq<Event>)
  {
    var k := Find(q, id);
    if k == |q| then q else q[..k] + q[k + 1..]
  }

  /**
   * Removal drops exactly one event with that identity, the first, and keeps
   * the others in order; it changes nothing when there is none.
   */
  lemma RemoveFirstFacts(q: seq<Event>, id: nat)
    ensures var r, k := RemoveFirst(q, id), Find(q, id);
      (k == |q| <==> forall j :: 0 <= j < |q| ==> q[j].id != id) &&
      (k == |q| ==> r == q) &&
      (k < |q| ==>
         |r| == |q| - 1 && multiset(r) + multiset{q[k]} == multiset(q) &&
         (forall j :: 0 <= j < k ==> r[j] == q[j]) &&
         (forall j :: k <= j < |r| ==> r[j] == q[j + 1]))
  {
    var r, k := RemoveFirst(q, id), Find(q, id);
    if k < |q| {
      assert q[k].id == id && r == q[..k] + q[k + 1..];
      MultisetRemoveAt(q, k);
      forall j | k <= j < |r| ensures r[j] == q[j + 1] {
        assert r[j] == q[k + 1..][j - k];
      }
    }
  }

  /** Dropping the element at `k` leaves the others, as a multiset. */
  lemma MultisetRemoveAt<T>(xs: seq<T>, k: nat)
    requires k < |xs|
    ensures multiset(xs[..k] + xs[k + 1..]) + multiset{xs[k]} == multiset(xs)
  {
    assert xs == xs[..k] + [xs[k]] + xs[k + 1..];
  }

  /** Removal keeps a queue sorted from `start` on when the removed event lies there. */
  lemma RemoveKeepsSorted(q: seq<Event>, start: nat, id: nat)
    requires SortedFrom(q, start)
    requires forall j :: 0 <= j < start && j < |q| ==> q[j].id != id
    ensures SortedFrom(RemoveFirst(q, id), start)
  {
    RemoveFirstFacts(q, id);
    var r, k := RemoveFirst(q, id), Find(q, id);
    if k < |q| {
      forall a, b | start <= a < b < |r| ensures InOrder(r[a], r[b]) {
        var a', b' := if a < k then a else a + 1, if b < k then b else b + 1;
        assert r[a] == q[a'] && r[b] == q[b'];
      }
    }
  }

  /** No two events share an identity. */
  predicate UniqueIds(q: seq<Event>)
  {
    forall i, j :: 0 <= i < j < |q| ==> q[i].id != q[j].id
  }

  /** With unique identities, removal leaves no event with that identity, and keeps identities unique. */
  lemma RemoveUnique(q: seq<Event>, id: nat)
    requires UniqueIds(q)
    ensures UniqueIds(RemoveFirst(q, id))
    ensures forall j :: 0 <= j < |RemoveFirst(q, id)| ==> RemoveFirst(q, id)[j].id != id
    ensures forall e :: e in RemoveFirst(q, id) ==> e in q
  {
    RemoveFirstFacts(q, id);
    var r, k := RemoveFirst(q, id), Find(q, id);
    if k < |q| {
      forall a | 0 <= a < |r| ensures r[a].id != id && r[a] in q {
        var a' := if a < k then a else a + 1;
        assert r[a] == q[a'];
      }
      forall a, b | 0 <= a < b < |r| ensures r[a].id != r[b].id {
        var a', b' := if a < k then a else a + 1, if b < k then b else b + 1;
        assert r[a] == q[a'] && r[b] == q[b'];
      }
    }
  }

  /** Every queued identity was handed out already. */
  predicate IdsBelow(q: seq<Event>, next: nat)
  {
    forall i :: 0 <= i < |q| ==> q[i].id < next
  }

  /** A fresh identity keeps identities unique. */
  lemma InsertUnique(q: seq<Event>, i: nat, e: Event, next: nat)
    requires UniqueIds(q) && IdsBelow(q, next) && i <= |q| && e.id == next
    ensures UniqueIds(Insert(q, i, e)) && IdsBelow(Insert(q, i, e), next + 1)
  {
    var r := Insert(q, i, e);
    forall a, b | 0 <= a < b < |r| ensures r[a].id != r[b].id {
      if a != i && b != i {
        var a', b' := if a < i then a else a - 1, if b < i then b else b - 1;
        assert r[a] == q[a'] && r[b] == q[b'];
      } else if a == i {
        assert r[b] == q[b - 1];
      } else {
        assert r[a] == q[a];
      }
    }
    forall a | 0 <= a < |r| ensures r[a].id < next + 1 {
      if a < i { assert r[a] == q[a]; } else if a > i { assert r[a] == q[a - 1]; }
    }
  }

  /**
   * The queue the constructor builds: each input site, in input order, is
   * inserted from index 0 as a site event due at its own y; identities are
   * handed out from `firstId` on.
   */
  function SiteQueue(sites: seq<RPoint>, firstId: nat): (q: seq<Event>)
    ensures |q| == |sites|
  {
    if |sites| == 0 then []
    else
      var q := SiteQueue(sites[..|sites| - 1], firstId);
      var s := sites[|sites| - 1];
      Insert(q, InsertIndex(q, 0, s.y, s.x), SiteEvent(firstId + |sites| - 1, s))
  }

  /** The constructor's queue after k + 1 sites: the event of site k inserted into the queue after k. */
  lemma SiteQueueStep(input: seq<RPoint>, k: nat)
    requires k < |input|
    ensures var q := SiteQueue(input[..k], 0);
      SiteQueue(input[..k + 1], 0) == Insert(q, InsertIndex(q, 0, input[k].y, input[k].x), SiteEvent(k, input[k]))
  {
    var all := input[..k + 1];
    assert all[..|all| - 1] == input[..k];
    assert all[|all| - 1] == input[k];
  }

  /** The site event the constructor queues for `s`. */
  function SiteEvent(id: nat, s: RPoint): Event
  {
    Event(id, s, true, Nil, s.y)
  }

  /** The constructor's queue is in sweep order. */
  lemma {:induction false} SiteQueueSorted(sites: seq<RPoint>, firstId: nat)
    ensures SortedFrom(SiteQueue(sites, firstId), 0)
  {
    if |sites| > 0 {
      var s := sites[|sites| - 1];
      SiteQueueSorted(sites[..|sites| - 1], firstId);
      InsertKeepsSorted(SiteQueue(sites[..|sites| - 1], firstId), 0, SiteEvent(firstId + |sites| - 1, s));
    }
  }

  /**
   * Every event of the constructor's queue is a site event due at its own y,
   * with an identity in [firstId, firstId + |sites|).
   */
  lemma {:induction false} SiteQueueEvents(sites: seq<RPoint>, firstId: nat)
    ensures forall j :: 0 <= j < |sites| ==> IsSiteEvent(SiteQueue(sites, firstId)[j], firstId, firstId + |sites|)
  {
    if |sites| > 0 {
      var init := sites[..|sites| - 1];
      SiteQueueEvents(init, firstId);
      var q := SiteQueue(init, firstId);
      var s := sites[|sites| - 1];
      var i := InsertIndex(q, 0, s.y, s.x);
      var e := SiteEvent(firstId + |sites| - 1, s);
      var r := Insert(q, i, e);
      forall j | 0 <= j < |r| ensures IsSiteEvent(r[j], firstId, firstId + |sites|) {
        if j < i { assert r[j] == q[j]; } else if j > i { assert r[j] == q[j - 1]; } else { assert r[j] == e; }
      }
    }
  }

  /** `e` is a site event due at its own y, with an identity in [lo, hi). */
  predicate IsSiteEvent(e: Event, lo: nat, hi: nat)
  {
    e.isNewSite && e.arc == Nil && e.y == e.pos.y && lo <= e.id < hi
  }

  /** No two events of the constructor's queue share an identity. */
  lemma {:induction false} SiteQueueUnique(sites: seq<RPoint>, firstId: nat)
    ensures UniqueIds(SiteQueue(sites, firstId))
  {
    if |sites| > 0 {
      var init := sites[..|sites| - 1];
      SiteQueueUnique(init, firstId);
      SiteQueueEvents(init, firstId);
      var q := SiteQueue(init, firstId);
      var s := sites[|sites| - 1];
      var i := InsertIndex(q, 0, s.y, s.x);
      var e := SiteEvent(firstId + |sites| - 1, s);
      assert forall j :: 0 <= j < |q| ==> IsSiteEvent(q[j], firstId, firstId + |init|);
      InsertUnique(q, i, e, firstId + |init|);
    }
  }

  /** Each event of the constructor's queue is the site event of the input site its identity numbers. */
  lemma {:induction false} SiteQueueMembers(sites: seq<RPoint>, firstId: nat)
    ensures forall e :: e in SiteQueue(sites, firstId) ==>
      firstId <= e.id < firstId + |sites| && e == SiteEvent(e.id, sites[e.id - firstId])
  {
    if |sites| > 0 {
      var init := sites[..|sites| - 1];
      SiteQueueMembers(init, firstId);
      var q := SiteQueue(init, firstId);
      var s := sites[|sites| - 1];
      var e := SiteEvent(firstId + |sites| - 1, s);
      InsertContents(q, InsertIndex(q, 0, s.y, s.x), e);
      forall f | f in SiteQueue(sites, firstId)
        ensures firstId <= f.id < firstId + |sites| && f == SiteEvent(f.id, sites[f.id - firstId])
      {
        assert f in multiset(SiteQueue(sites, firstId));
        if f != e {
          assert f in multiset(q);
          assert sites[f.id - firstId] == init[f.id - firstId];
        }
      }
    }
  }

  /** The constructor's queue holds exactly the input sites. */
  lemma {:induction false} SiteQueuePositions(sites: seq<RPoint>, firstId: nat)
    ensures multiset(PositionsOf(SiteQueue(sites, firstId))) == multiset(sites)
  {
    if |sites| > 0 {
      var init := sites[..|sites| - 1];
      SiteQueuePositions(init, firstId);
      var q := SiteQueue(init, firstId);
      var s := sites[|sites| - 1];
      var i, e := InsertIndex(q, 0, s.y, s.x), SiteEvent(firstId + |sites| - 1, s);
      SiteQueueLast(sites, firstId);
      PositionsInsert(q, i, e);
      MultisetLast(sites);
    }
  }

  /** The constructor's queue of a non-empty input: the last site inserted into the queue of the others. */
  lemma SiteQueueLast(sites: seq<RPoint>, firstId: nat)
    requires |sites| > 0
    ensures var q, s := SiteQueue(sites[..|sites| - 1], firstId), sites[|sites| - 1];
      SiteQueue(sites, firstId) == Insert(q, InsertIndex(q, 0, s.y, s.x), SiteEvent(firstId + |sites| - 1, s))
  {
  }

  /** A non-empty sequence holds its last element and the ones before it. */
  lemma MultisetLast<T>(xs: seq<T>)
    requires |xs| > 0
    ensures multiset(xs) == multiset(xs[..|xs| - 1]) + multiset{xs[|xs| - 1]}
  {
    assert xs == xs[..|xs| - 1] + [xs[|xs| - 1]];
  }

  /** The positions of the events, in queue order. */
  function PositionsOf(q: seq<Event>): (ps: seq<RPoint>)
    ensures |ps| == |q| && forall j :: 0 <= j < |q| ==> ps[j] == q[j].pos
  {
    seq(|q|, j requires 0 <= j < |q| => q[j].pos)
  }

  lemma PositionsInsert(q: seq<Event>, i: nat, e: Event)
    requires i <= |q|
    ensures multiset(PositionsOf(Insert(q, i, e))) == multiset(PositionsOf(q)) + multiset{e.pos}
  {
    var r := Insert(q, i, e);
    assert PositionsOf(r) == PositionsOf(q)[..i] + [e.pos] + PositionsOf(q)[i..];
    assert PositionsOf(q) == PositionsOf(q)[..i] + PositionsOf(q)[i..];
  }
}
