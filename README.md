# Fortune's sweep for Voronoi diagrams — a Dafny model of its combinatorial core

This project models the core of a Unity/C# implementation of Fortune's sweep-line
algorithm for Voronoi diagrams: the engine `Voronoi` (event queue, beach-line
tree, collected edges), the beach-line tree surgery of `VParabola`, and the
bookkeeping of `VEdge`.
The floating-point geometry the algorithm consults is kept abstract. It is a
record of uninterpreted functions (`Nodes.Numerics`):
- the current end of an edge;
- the meeting parameters of two rays;
- the distance to a focus;
- where a ray leaves the working area;
- the y that `GetYOfIntersection` yields for a site level with the focus (`levelY`), where the source divides by zero.

What the code builds on those functions is modelled as written. The model proves:
- which arc a site falls on;
- how the tree is rewired;
- which events are queued, dropped or fire;
- which edges are collected, clipped and forgotten.

Structure (one module per file):

- `geometry.dfy` (`Geometry`): integer and real points and Unity's `Mathf.RoundToInt` (round half to even).
- `treenode.dfy` (`Nodes`): the tree nodes as records in an arena.
  - `VTreeNode`, `VParabola` and `VEdge` become one `Node` datatype (`Arc` | `Edge`).
  - Object references become arena indices (`Ref = Nil | At(i)`).
  - Event references become event identities.
- `vedge.dfy` (`Edges`): the edge constructors and `UpdateMembers`, including the integer bisector direction.
- `queue.dfy` (`Queue`): the sorted event list, `InsertNewEvent`'s search and `List.Remove` by reference.
- `shapes.dfy`, `paths.dfy` (`Shapes`, `Paths`): a ghost tree `Shape` that describes what the arena holds, with its leaves in order, its sub-trees, and paths from the root.
  - `Encodes(nodes, t, parent)` ties every parent, child and tag in the arena to the tree.
- `vparabola.dfy` (`Beach`): the class `Arena` (the heap of beach-line objects) and its methods.
  - The methods are `ReplaceWithNewNodes`, `UpdateNeighbors`, `CheckForIntersection` and `RemoveParabola`.
  - Each is proved equal to a function of the old arena, and the effect on the in-order sequence of arcs is proved.
- `steps.dfy` (`Steps`): what one event does to the arena and the queue, as functions (`SiteStep`, `CircleStep`, `Recheck`, `Seeded`), and the invariant the engine keeps between events.
- `finish.dfy` (`Finish`): `ClearTree` and `ShortenEdges` as functions, and what they collect, clip, forget and sever.
- `voronoi.dfy` (`Fortune`): the class `Voronoi` with the source's fields.
  - Its methods mutate `events`, `sites`, `completeEdges`, `root`, `sitesLeft` and `finished` in place.
  - `RunAlgorithm` is proved to keep `Valid()` and to perform exactly one step of the functions above.

Behaviour kept as the code has it, where a prose description of the algorithm reads otherwise:
- **Seeding keeps the first arc as `root`.** `root` stays the first arc. In the first seeding round, `ReplaceWithNewNodes` gives the new outer edge the root arc's parent, which is null. Each later round splits the previous round's middle arc, so its outer edge takes that arc's slot as the left child of the previous round's right edge (`VParabola.cs:55-64`, `Voronoi.cs:122-129`). The seeded chain therefore hangs from no node that `root` reaches, and `root` stays the lone first arc (`Voronoi.cs:115-136`). The model's live tree after seeding is `Leaf(0)`, with `root == At(0)`.
- **One decrement per run.** `sitesLeft` drops by one for a whole run of equally high first sites (`Voronoi.cs:54`, `135`).
- **Sites ordered by y.** `ReplaceWithNewNodes` orders the two sites by y (`VParabola.cs:48`), although its comment says x (`VParabola.cs:42`). `Beach.SplitSites` states the y order.

## Model

| member | source | states |
|---|---|---|
| Geometry.RoundToInt | Voronoi.cs:208 | the result is within 0.5 of the argument, and an exact tie goes to the even integer |
| Geometry.RoundToIntUnique | Voronoi.cs:208 | any integer within 0.5 that breaks ties to even is the rounded value, so rounding is fully determined |
| Geometry.RoundToIntOfInt | Voronoi.cs:208 | an integer rounds to itself |
| Geometry.RoundPoint | Voronoi.cs:83 | `Vector2Int.RoundToInt` rounds each coordinate separately |
| Geometry.RoundPointOfGrid | Voronoi.cs:83 | a point with integer coordinates is unchanged by rounding |
| Queue.InsertIndex | Voronoi.cs:91-97 | the search stops at the first index ≥ startIndex whose event is neither higher nor equally high and further left; every event it passes is one of those; it stops before any event with the same y and x |
| Queue.Insert | Voronoi.cs:98-99 | `List.Insert`: the new event is at the index, the events before it keep their places, and those after it move up by one |
| Queue.InsertContents | Voronoi.cs:99 | insertion adds exactly one event: the new multiset is the old one plus the event |
| Queue.InsertKeepsSorted | Voronoi.cs:90-99 | a queue ordered by (y descending, x ascending) from startIndex on stays ordered after inserting at the searched index |
| Queue.Find | Voronoi.cs:167 | `List.Remove` matches the first event with the same identity: the index found holds it and no earlier event has that identity |
| Queue.RemoveFirstFacts | Voronoi.cs:201 | removal of an absent event leaves the queue unchanged; otherwise exactly that one event leaves, and the others keep their order |
| Queue.RemoveKeepsSorted | Voronoi.cs:201 | removing an event keeps a sorted suffix sorted |
| Queue.RemoveUnique | Voronoi.cs:201 | after the removal, no event with that identity is left, and no event is new |
| Queue.InsertUnique | Voronoi.cs:98 | a freshly created event is distinct from every queued one, so identities stay unique |
| Queue.SiteQueue | Voronoi.cs:28-33 | the constructor queues one event per input site |
| Queue.SiteQueueStep | Voronoi.cs:28-33 | each constructor round inserts site k, with identity k, where InsertNewEvent's search puts it |
| Queue.SiteQueueSorted | Voronoi.cs:28-33 | the initial queue is ordered by (y descending, x ascending) |
| Queue.SiteQueueEvents | Voronoi.cs:80-84 | every initial event is a site event whose key is its own y |
| Queue.SiteQueueUnique | Voronoi.cs:28-33 | the initial events have distinct identities |
| Queue.SiteQueueMembers | Voronoi.cs:28-33 | every initial event is the site event of the input site its identity numbers |
| Queue.SiteQueuePositions | Voronoi.cs:28-33 | the initial queue holds exactly the input positions, as a multiset |
| Nodes.NewArc | VParabola.cs:15-24 | a new parabola has the given focus and parent, no pending event and no neighbours |
| Edges.Direction | VEdge.cs:37-44 | for sites at different heights the direction is (s2.y − s1.y, −(s2.x − s1.x)), which is perpendicular to s2 − s1; for equally high sites its x is ±0.01 with the sign of its y; its x is never 0 |
| Edges.DirectionSwap | VEdge.cs:38-44 | swapping the sites negates the direction |
| Edges.UpdateMembers | VEdge.cs:31-46 | the edge gets both sites, the start and the computed direction, its complement is reset to null, and its links and end are kept |
| Edges.NewEdge | VEdge.cs:16-21 | the four-argument constructor gives no children, no complement and the computed direction |
| Edges.NewEdgeDirected | VEdge.cs:23-29 | the five-argument constructor is the four-argument one with the supplied direction instead of the computed one |
| Edges.ComplementDirection | VEdge.cs:38-44 | an edge built with the sites swapped, as a complement is, points the opposite way |
| Beach.YOfIntersection | VParabola.cs:26-38 | for focus.y ≠ site.y, the point (site.x, iy) is as far from the focus as from the sweep line through the site; for a level site the result is the oracle's `levelY` |
| Beach.YOfIntersectionUnique | VParabola.cs:28-35 | that equation has no other solution |
| Beach.SplitSites | VParabola.cs:43-52 | the outer edge's first site is the focus when the focus is higher, and the new site otherwise |
| Beach.Split | VParabola.cs:40-87 | the arc's slot in its parent is taken by Edge(Arc(focus), Edge(Arc(site), Arc(focus))); each child's parent is the edge that holds it; the two edges swap sites, start at (site.x, y), point opposite ways and are each other's complement; all other nodes are unchanged |
| Beach.SplitTree | VParabola.cs:54-80 | after the split the arena holds the old tree with the arc replaced by the five-node shape; the tree stays well formed, with distinct nodes and no missing children |
| Beach.SplitKeepsArcs | VParabola.cs:40-87 | a split keeps every old arc with its focus and its pending event |
| Beach.SplitDistinct | VParabola.cs:54-80 | grafting the five new nodes in place of the arc keeps the tree's nodes distinct and no edge without children |
| Beach.SplitFoci | VParabola.cs:40-87 | the in-order sequence of arc foci equals the old one with this arc's focus replaced by [focus, site, focus] |
| Beach.SplitLeaves | VParabola.cs:67-80 | in the tree, the split arc is replaced in the in-order leaf sequence by the left part, the new arc and the right part |
| Beach.Arena.ReplaceWithNewNodes | VParabola.cs:40-87 | the arena becomes `Split` of the old arena, and the returned edge is the outer new edge |
| Beach.Arena.RightmostArc | VParabola.cs:172-176 | descending by right children from an edge ends at the last leaf of its sub-tree |
| Beach.Arena.LeftmostArc | VParabola.cs:192-196 | descending by left children from an edge ends at the first leaf of its sub-tree |
| Beach.Arena.LeftNeighbour | VParabola.cs:160-178 | the left search returns the nearest ancestor that has the arc in its right sub-tree, and the in-order predecessor arc; both are null when there is none |
| Beach.Arena.RightNeighbour | VParabola.cs:180-198 | the right search returns the nearest ancestor that has the arc in its left sub-tree, and the in-order successor arc; both are null when there is none |
| Paths.LastRightTurn | VParabola.cs:161-167 | the upward walk stops at the last ancestor on the path whose right sub-tree holds the arc, or at none |
| Paths.LastLeftTurn | VParabola.cs:181-187 | the upward walk stops at the last ancestor on the path whose left sub-tree holds the arc, or at none |
| Paths.Predecessor | VParabola.cs:160-178 | the arc has no predecessor exactly when no ancestor holds it on its right; otherwise the predecessor is the rightmost leaf of that ancestor's left sub-tree |
| Paths.Successor | VParabola.cs:180-198 | the arc has no successor exactly when no ancestor holds it on its left; otherwise the successor is the leftmost leaf of that ancestor's right sub-tree |
| Paths.Neighbours | VParabola.cs:150-199 | for the arc at in-order position k: leftArc and rightArc are the leaves at k − 1 and k + 1, or null at either end; leftEdge and rightEdge are null exactly at those ends |
| Beach.Arena.UpdateNeighbors | VParabola.cs:150-199 | the four neighbour fields of the arc are set as `WithNeighbours` says, and nothing else changes |
| Beach.WithNeighbours | VParabola.cs:150-199 | only the arc's own neighbour fields change: no other node, and no link of any node |
| Beach.RayParameters | VParabola.cs:109-129 | rays of equal slope get negative parameters, so they never meet |
| Beach.CircleTest | VParabola.cs:99-145 | a circle exists exactly when neither edge is degenerate and both ray parameters are ≥ 0; then the point lies on the left ray and the line is point.y − distance; otherwise the point is (0,0) and the line is the caller's value |
| Beach.ParallelNoCircle | VParabola.cs:116-121 | parallel bounding edges never give a circle event |
| Beach.Arena.CheckForIntersection | VParabola.cs:89-149 | it refreshes the neighbours and reports no circle when either bounding edge is missing; otherwise it reports exactly the circle test of the two bounding edges |
| Beach.OtherSite | VParabola.cs:219-222 | the site chosen is one of the edge's two sites, and it is the focus only if both sites are |
| Beach.Splice | VParabola.cs:207-213 | hanging the sibling from the grandparent changes no arc and no complement |
| Beach.Rename | VParabola.cs:224-241 | the fresh edge has the given sites, start and direction, no complement, and the old edge's parent and children |
| Beach.Removal | VParabola.cs:201-246 | the arena grows by one fresh edge with no complement, and no arc or complement changes |
| Beach.RemovalKeepsArc | VParabola.cs:201-246 | the removed arc keeps its focus, its pending event and its four neighbour fields |
| Beach.InteriorArc | VParabola.cs:216-217 | for an arc with both bounding edges, one of them is its parent, and the other lies outside the parent's sub-tree |
| Beach.RemoveBounds | VParabola.cs:203-217 | the parent is one bounding edge and `otherEdge` the other; both are edges of the tree, and otherEdge is not below the parent |
| Beach.SpliceTree | VParabola.cs:207-213 | after the splice the parent edge is gone and the sibling's sub-tree takes its place; the in-order leaves lose exactly this arc |
| Beach.RenameTree | VParabola.cs:224-241 | after replacing otherEdge, the tree has the fresh edge in its place (or as root), with the same children and the same leaves |
| Beach.RemoveTree | VParabola.cs:201-246 | the whole removal leaves a well-formed tree; its in-order leaves are the old ones without this arc, and its nodes are the old ones without the arc and its two bounding edges, plus the fresh edge; the root is the fresh edge exactly when otherEdge was the root |
| Beach.Arena.SpliceOut | VParabola.cs:207-213 | the arena becomes `Splice` of the old arena |
| Beach.Arena.ReplaceEdge | VParabola.cs:224-241 | the arena becomes `Rename` of the old arena; the edge had no parent exactly when it was the root |
| Beach.Arena.RemoveParabola | VParabola.cs:201-246 | the arena becomes `Removal` of the old arena; the root becomes the fresh edge exactly when otherEdge had no parent, and is kept otherwise |
| Steps.Locate | Voronoi.cs:145-160 | the descent from the root ends at a leaf of the tree |
| Steps.LocateArc | Voronoi.cs:145-162 | the node the descent reaches is an arc, so the error branch at line 189 cannot be taken |
| Steps.DropKeeps | Voronoi.cs:164-168 | removing the found arc's pending event keeps the head of the queue and leaves no event that the arc refers to |
| Steps.SplitRoot | Voronoi.cs:174-177 | both outer parts are non-root leaves of the new tree; its root is the new outer edge exactly when the split arc was the root |
| Steps.SiteFound | Voronoi.cs:145-170 | the arc found above the queued site is an arc of the tree with a parent slot, and its focus is not the site |
| Steps.SitePlan | Voronoi.cs:170-183 | splitting an arc of a sound tree at a site other than its focus keeps the step invariant and the tree well formed, and both outer parts are leaves below the root |
| Steps.SitePlanRoot | Voronoi.cs:173-177 | after the split, the old root index holds an arc exactly when the root was the split arc, and the new root is then the new outer edge |
| Steps.SiteKeeps | Voronoi.cs:162-183 | with the sites apart, a site step keeps the step invariant, the tree and the complements |
| Steps.SplitKeepsFoci | VParabola.cs:40-87 | every arc of the beach line after a split has the old focus or the site, or is an old arc unchanged |
| Steps.SplitLeafIds | VParabola.cs:67-80 | the leaves after a split are the three new arcs and the old leaves other than the split arc |
| Steps.SplitThenRecheck | Voronoi.cs:170-183 | splitting and then checking both outer parts keeps the step invariant |
| Steps.RecheckKeeps | Voronoi.cs:196-218 | CheckForIntersectionEvent keeps the step invariant and the head of the queue, and changes only the arc's own fields |
| Steps.InsertKeeps | Voronoi.cs:208-211 | a circle event is inserted from index 1 and points back at its arc, which refers to it; the step invariant holds afterwards |
| Steps.ProbeInterior | VParabola.cs:100-105 | when a circle is found, the arc has a neighbour on either side |
| Steps.HeadCircle | Voronoi.cs:56-58 | a circle event at the head of the queue belongs to an interior arc that refers to it |
| Steps.InteriorNeighbours | Voronoi.cs:223-228 | an interior arc has both bounding edges and both neighbour arcs |
| Steps.RemovalKeeps | Voronoi.cs:220-229 | a circle event at the head of the queue can always be handled: RemoveParabola's preconditions hold, and the tree it yields is well formed |
| Steps.RemovableBounds | Voronoi.cs:223-226 | the edges the refreshed arc records are its bounds on the beach line, left one first, so these are the edges collected |
| Steps.RemovedEdges | VParabola.cs:150-199 | the two edges either side of an interior arc are distinct nodes of the tree |
| Steps.CircleDone | Voronoi.cs:220-229 | HandleIntersecEvent is: the neighbours are refreshed, the arc is removed, then the left and right neighbours are rechecked; this keeps the step invariant |
| Steps.SeedRound | Voronoi.cs:120-135 | one seeding round splits the current arc at the next site; both new edges take the two sites and the start midway between them at 10·mapSize; the new middle arc has the next site's focus |
| Steps.Seeded | Voronoi.cs:112-137 | the seeding loop drops exactly the run of equally high events but its last one, and changes only new nodes and the current arc's parent slot |
| Steps.SeedUnfold | Voronoi.cs:120-136 | each round continues from the new middle arc on the queue without its first event |
| Steps.SeedKeeps | Voronoi.cs:112-137 | after seeding the first arc is untouched and alone on the live beach line, every queued event is a site event, and the step invariant holds |
| Steps.SeedSettles | Voronoi.cs:112-137 | seeding followed by the removal of the head event re-establishes the engine invariant |
| Steps.SeedReady | Voronoi.cs:112-137 | an engine without a tree has no nodes and no collected edges, and seeding keeps its invariant |
| Steps.SiteQueueReady | Voronoi.cs:28-33 | the constructor's queue has unique identities below the next one, is sorted, and holds only site events |
| Steps.StartInvariant | Voronoi.cs:21-34 | the constructed engine satisfies the invariant |
| Steps.SplitReady | Voronoi.cs:51-55 | a site event on a non-empty tree can be handled, and afterwards the invariant holds again |
| Steps.CircleReady | Voronoi.cs:56-60 | a circle event at the head can be handled, and afterwards the invariant holds with the two bounding edges collected |
| Steps.CircleInvariant | Voronoi.cs:220-229 | after a circle step, with its two edges collected, the invariant holds |
| Steps.HandledInvariant | Voronoi.cs:51-60 | after a handled step, dropping the head event leaves the invariant |
| Steps.StartApart | Voronoi.cs:21-34 | the constructor's queue of input sites that differ once rounded has no two sites on the same rounded point |
| Steps.SeedApart | Voronoi.cs:112-137 | after seeding, no queued site falls on another or on the lone arc's focus |
| Steps.LocatedApart | Voronoi.cs:145-170 | the arc found above a queued site has a focus other than that site |
| Steps.SiteApart | Voronoi.cs:162-183 | a site step keeps the sites apart: the new arcs have the old focus or the handled site, which leaves the queue |
| Steps.CircleApart | Voronoi.cs:220-229 | a circle step keeps the sites apart: the remaining arcs keep their foci and no site is queued |
| Steps.ApartKept | Voronoi.cs:51-60 | a step that queues no new site and gives new arcs only foci that no queued site falls on keeps the sites apart once the head leaves |
| Steps.SplitOff | VParabola.cs:54-80 | a split adds only fresh nodes, so edges already collected stay off the tree |
| Steps.SplitOffTree | Voronoi.cs:162-183 | a site step keeps the collected edges off the tree |
| Steps.CollectedOff | Voronoi.cs:223-226 | collecting the two bounding edges of the removed arc, which leave the tree, keeps the collected edges free of duplicates and off the tree |
| Steps.StepDone | Voronoi.cs:60 | removing the head keeps the queue sorted with unique identities |
| Finish.Visit | Voronoi.cs:246-260 | an edge that starts inside [0,mapSize]² gets its end at the border and is collected; otherwise its complement is nulled on both sides and nothing is collected |
| Finish.Clear | Voronoi.cs:231-262 | clearing a sub-tree changes nothing outside it and keeps complements pointing at edges (and symmetric if they were) |
| Finish.PostOrder | Voronoi.cs:234-253 | the visiting order lists the nodes of the sub-tree |
| Finish.ClearCollects | Voronoi.cs:231-262 | ClearTree appends exactly those edges of the sub-tree that start inside the map, in the order right sub-tree, left sub-tree, node |
| Finish.ClearNodes | Voronoi.cs:231-262 | every node of the sub-tree ends as ClearTree leaves it: child links nulled, end set when inside the map, complement severed when outside it |
| Finish.ClearSevers | Voronoi.cs:255-260 | for each edge that starts outside the map, neither it nor any other edge keeps a complement link to the other |
| Finish.Stump | Voronoi.cs:236-245 | the tree left after ClearTree keeps the root and only nodes of the old tree, all distinct |
| Finish.ClearFrame | Voronoi.cs:234-245 | after ClearTree the arena holds the bare root, every collected edge is an edge, and arcs are unchanged |
| Finish.Shorten | Voronoi.cs:270-310 | an edge with both ends beyond the same margin is forgotten unchanged; an edge with both ends inside is kept unchanged; otherwise each end that is out is clipped to the border, and the edge is forgotten exactly when both clipped ends are still out |
| Finish.Pass1 | Voronoi.cs:267-311 | the first loop changes nothing but the start and end of edges, and puts only collected edges in toForget |
| Finish.Pass1Step | Voronoi.cs:267-311 | each round of the first loop shortens the next collected edge and adds it to toForget when Shorten says so |
| Finish.Pass1Unique | Voronoi.cs:267-311 | with distinct collected edges, each is replaced by its shortened version, other nodes stay, and toForget lists exactly the edges to forget |
| Finish.ForgottenMembers | Voronoi.cs:283-309 | an edge is in toForget exactly when it is collected and Shorten forgets it |
| Finish.RemoveOne | Voronoi.cs:319 | `List.Remove` never adds anything |
| Finish.RemoveOneIsWithout | Voronoi.cs:319 | on a list without duplicates, removing one element removes every occurrence of it |
| Finish.Pass2 | Voronoi.cs:313-320 | the second loop only nulls complements, and keeps only collected edges |
| Finish.Pass2Removes | Voronoi.cs:313-320 | the survivors are the collected edges not forgotten, in their original order |
| Finish.Pass2Severs | Voronoi.cs:315-318 | no edge keeps a complement link to a forgotten edge unless it is itself forgotten, and every complement nulled was a forgotten edge's partner |
| Finish.ShortenKeeps | Voronoi.cs:264-321 | ShortenEdges keeps the unforgotten edges in order, replaces each collected edge by its shortened version, and leaves edges with both ends inside unchanged and collected |
| Finish.ShortenSevers | Voronoi.cs:313-320 | each forgotten edge's partner loses its complement link, and no edge still points at a forgotten one |
| Finish.ShortenedFrame | Voronoi.cs:264-321 | ShortenEdges changes no link and no arc, and what it keeps are edges |
| Finish.PostOrderDistinct | Voronoi.cs:234-253 | ClearTree visits each node of a tree with distinct nodes once |
| Finish.InMapOfSub | Voronoi.cs:246-260 | the edges collected by the visit are some of the visited ones, so none is collected twice |
| Finish.ClearUnique | Voronoi.cs:231-262 | with collected edges off the tree and free of duplicates, ClearTree adds no duplicate |
| Finish.FinaleEdges | Voronoi.cs:62-68 | finishing collects the tree's edges that start in the map after the earlier ones, none twice, and keeps exactly those that ShortenEdges does not forget, in order |
| Finish.Finale | Voronoi.cs:62-68 | finishing leaves the bare root and collected edges that are edges, and changes no arc |
| Finish.FinaleInvariant | Voronoi.cs:62-68 | finishing a non-empty tree yields a finished engine that satisfies the invariant |
| Finish.EmptyInvariant | Voronoi.cs:62-68 | finishing without a tree yields a finished engine with nothing collected |
| Fortune.RoundAll | Voronoi.cs:83 | `sites` holds the rounded input positions, in input order |
| Fortune.Voronoi.constructor | Voronoi.cs:21-34 | one site event per input site, in the constructor's insertion order; sites holds the rounded positions; amountSites = sitesLeft = the number of sites; not finished, no tree |
| Fortune.Voronoi.InsertNewEvent | Voronoi.cs:78-102 | exactly one event is inserted at InsertIndex from startIndex; a site event's key is its own y and its rounded position joins sites |
| Fortune.Voronoi.CheckForIntersectionEvent | Voronoi.cs:196-218 | the state becomes `Recheck`: the old event leaves, and a circle event is queued (from index 1, pointing back at the arc) exactly when one exists and its rounded line is not above the rounded sweep line; otherwise the arc refers to no event |
| Fortune.Voronoi.ParabolaAbove | Voronoi.cs:145-160 | the descent returns `Locate`: a leaf arc of the tree |
| Fortune.Voronoi.SplitArc | Voronoi.cs:164-173 | the arc's pending event is removed and the arc is split at the site |
| Fortune.Voronoi.CheckOuterParts | Voronoi.cs:179-183 | the left part, then the right part, are rechecked |
| Fortune.Voronoi.SplitAndCheck | Voronoi.cs:162-183 | the arc above the site is split; its two outer parts are rechecked against the rounded sweep line; the root is the new tree's root |
| Fortune.Voronoi.SplitArcAbove | Voronoi.cs:145-192 | the state and the tree become `SiteStep` of the old ones, and `root` is the new tree's root |
| Fortune.Voronoi.SeedRoundStep | Voronoi.cs:122-129 | one seeding round, as `SeedRound` |
| Fortune.Voronoi.SeedBeachLine | Voronoi.cs:112-137 | without a tree the first site becomes the root arc, the run of equally high sites is seeded as `Seeded`, and root stays that first arc |
| Fortune.Voronoi.HandleSiteEvent | Voronoi.cs:104-194 | without a tree: the first site becomes `root` and the run of equally high sites is `Seeded`; with one: the state becomes `SiteStep`, which splits the arc above the site (at `levelY` when the site is level with its focus) |
| Fortune.Voronoi.RemoveArc | Voronoi.cs:223-226 | the neighbours are refreshed, the bounding edges are collected, and the arc is removed (`Removal`) |
| Fortune.Voronoi.RecheckNeighbours | Voronoi.cs:227-228 | the left and then the right neighbour arcs are rechecked at the event's line |
| Fortune.Voronoi.HandleIntersecEvent | Voronoi.cs:220-229 | the leftEdge and rightEdge of the arc are appended to completeEdges, and the state becomes `CircleStep` |
| Fortune.Voronoi.VisitEdge | Voronoi.cs:246-260 | the edge is visited as `Visit` says |
| Fortune.Voronoi.ClearTree | Voronoi.cs:231-262 | the recursive clear is `Clear` of the sub-tree |
| Fortune.Voronoi.ShortenEdge | Voronoi.cs:270-310 | one edge is shortened as `Shorten` says |
| Fortune.Voronoi.ShortenEach | Voronoi.cs:267-311 | the first loop is `Pass1` |
| Fortune.Voronoi.ForgetEach | Voronoi.cs:313-320 | the second loop is `Pass2` |
| Fortune.Voronoi.ShortenEdges | Voronoi.cs:264-321 | both loops together, as `Shortened` |
| Fortune.Voronoi.ClearAndShorten | Voronoi.cs:65-66 | ClearTree from the root, then ShortenEdges: `Finale` |
| Fortune.Voronoi.MarkFinished | Voronoi.cs:68 | finished is set and the invariant holds |
| Fortune.Voronoi.Finish | Voronoi.cs:62-69 | on an empty queue: nothing to clear without a tree, else `Finale`; then finished |
| Fortune.Voronoi.DropHead | Voronoi.cs:60 | `RemoveAt(0)` drops exactly the head event and keeps the invariant |
| Fortune.Voronoi.SeedAndDrop | Voronoi.cs:51-60 | seeding, one decrement of sitesLeft and removal of the head event |
| Fortune.Voronoi.SplitAndDrop | Voronoi.cs:51-60 | a site step on a tree, then the decrement of sitesLeft and the removal of the head |
| Fortune.Voronoi.SiteTurn | Voronoi.cs:51-55 | a site event: seeding without a tree, a site step with one; sitesLeft drops by one and the head leaves the queue |
| Fortune.Voronoi.HandleAndDrop | Voronoi.cs:56-60 | a circle step, then removal of the head; two edges are appended to completeEdges |
| Fortune.Voronoi.CircleTurn | Voronoi.cs:56-60 | a circle event is always handleable, and sitesLeft is unchanged |
| Fortune.Voronoi.NextEvent | Voronoi.cs:39-61 | the head event is handled and then removed; sitesLeft drops exactly for a site event |
| Fortune.Voronoi.RunAlgorithm | Voronoi.cs:36-70 | on a non-empty queue: one step on events[0], then RemoveAt(0); sitesLeft drops exactly for a site event. On an empty queue: ClearTree, then ShortenEdges, then finished. A successful step keeps `Valid()` |

## Left out

- Floating-point geometry is not computed. Each of the following is an uninterpreted function in `Nodes.Numerics`, and the model proves what holds whatever those functions return:
  - `GetCurrentEnd` (`VEdge.cs:48-92`), which selects a quadratic root with square roots;
  - the linear solve and the distance square root inside `CheckForIntersection` (`VParabola.cs:108-145`);
  - `EdgeUntilBorder` (`Voronoi.cs:323-337`), which relies on IEEE infinities.
- Positions and event keys are exact reals, not single-precision floats. `GetYOfIntersection` is exact rational algebra.
- Unity types (`Vector2`, `Vector2Int`, `Mathf`) become integer and real point datatypes. `Mathf.RoundToInt` is modelled as round half to even.
- Logging, the event-string building, and the "look here" branches (`Voronoi.cs:42-49`, `140-143`, `248-251`, `279-282`) have no behaviour and are not modelled.
- The `LogError` branches (`Voronoi.cs:131-134`, `184-192`) are not modelled. The model proves they are never taken:
  - the descent always ends at an arc;
  - a split always has the expected shape.
- `VEvent.cs` and `VTreeNode.cs` are not modelled as separate units. Their fields are fields of the `Event` and `Node` records.
- `GetCompleteEdges` is a plain getter; it is the `completeEdges` field.
- Fortune.Voronoi.HandleSiteEvent: when a new site is level with the focus of the arc above it, the source divides by zero in `GetYOfIntersection` and carries on with an infinite or undefined y. The model carries on too, with the oracle's `levelY` as that y; nothing is proved about the value.
- Fortune.Voronoi.RunAlgorithm requires `Apart()`: no two queued sites, and no queued site and arc focus, fall on the same rounded point. Coincident rounded sites make the source compute a 0/0 direction in `UpdateMembers` (`VEdge.cs:37-44`). The constructor establishes `Apart()` from input positions that differ once rounded, and every step keeps it.
- Fortune.Voronoi.RunAlgorithm requires, on the seeding path, that the queue extends past the run of equally high first sites and that consecutive sites in that run differ once rounded. The source reads `events[1]` without a length check (`Voronoi.cs:120`), so a single site or a run that reaches the end of the queue throws there. Two equal rounded sites there give a NaN direction.
- Coincident sites elsewhere (a NaN direction in `UpdateMembers`) are excluded by preconditions (`s1 != s2`) rather than modelled.
- Global correctness of the resulting diagram is not claimed; it rests on the floating-point parts.
- Fortune.Voronoi.RunAlgorithm is split into helper methods (`NextEvent`, `SiteTurn`, `CircleTurn`, `Finish` and others). The split is only structural. Each helper performs a contiguous part of the source method. The helpers `SeedAndDrop`, `SplitAndDrop`, `HandleAndDrop` and `DropHead` exist only to carry proof obligations: their requires hand over the next state's `Invariant` and `Apart` facts whole, and they follow no branch of the source's control flow of their own.
