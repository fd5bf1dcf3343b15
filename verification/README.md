# Contact graph routing, verified

A Dafny model of the contact graph routing core of ION's port to the ONE simulator: route
computation, the red-black tree and the contact plan under it, and the custody of messages in
the Java router. Each module models one part; classes hold the state that the source updates in
place, and their methods follow its loops and branches. Pure modules beside them say what the
state means and why each step keeps it so.

Check the project with `dafny verify dfyconfig.toml`.

## Modules

- `RbTree`, `RbInsert`, `RbDelete`, `RbScan`, `SmRbt`: the shared-memory red-black tree. Memory is
  a map from addresses to node records; a pass over the tree is described by a zipper, the tree
  seen from the node the pass has reached. The stages of `RbInsert` say how stale the grandparent
  and great-grandparent variables may be after a rotation, and why the next turn still finds what
  it needs. `SmRbt.Rbt` is the tree itself.
- `Keys`, `Index`: three-level keys, and tables of records kept in a tree by key. A table's rows
  are what any scan of the tree visits, in order; everything above works on such rows.
- `ContactPlan`: insertion and removal of contacts, overlap checks through two tree neighbours,
  and the timeline of contact events.
- `ContactGraph`, `Dijkstra`, `SearchSteps`: feasible sequences of contacts and the times at which
  data can follow them; the search's invariant, its optimality, and what backtracking finds.
- `AnchoredSearch`: why the enumeration of routes ends and records no route twice in a class.
- `Itineraries`: what searches and route lists come to, as journeys leg by leg, in terms of hops,
  ranges and times alone.
- `Scalars`, `Eto`: gigs and units, backlog, and the earliest transmission opportunity.
- `Forwarding`, `Selection`: requests, trials of routes, and the choice of a neighbour.
- `Recomputing`, `Walk`: replacing an expired route, and the walk of a route list that changes
  under it. `Detour` is a plan in which the replacement leads elsewhere.
- `Deliveries`: what an estimate and a choice come to, in terms of bytes, rates and seconds alone.
- `Libcgr`: class `Cgr`, the C core's procedures over contacts, ranges, notes and route lists.
- `CgrForward`: class `Forwarder`, a node over time: plan edits, the clock, the route cache.
- `Custody`: messages, outducts, limbo and the router.
- `SmLists`: the doubly linked list.
- `Sequences`: sequences without repeated elements, which several modules share.

## Main results

- The tree's one-pass insertion and deletion refine a sorted sequence and keep every red-black
  property, for all trees (`SmRbt.Rbt.Insert`, `SmRbt.Rbt.Delete`).
- Two neighbours decide every overlap, and the timeline always derives from the index
  (`ContactPlan.NeighborsSuffice`, `ContactPlan.InsertRemoveRestores`).
- The route found is simple and arrives as early as any feasible sequence of contacts, and none is
  found exactly if there is no such sequence (`Libcgr.Cgr.FindNextBestRoute`,
  `Itineraries.JourneyIsPath`).
- The anchored search ends although it takes suppressions back, no class lists a route twice, and
  the first route of every class is a best one whatever anchor the class before has left, and no
  path avoids all the hops listed (`Libcgr.Cgr.LoadRouteList`, `Itineraries.ListMeets`).
- The walk of a route list ends although it restarts, loses no current route and tries exactly the
  admitted routes before the first late one; every expired route it meets is replaced exactly if it
  can be; and the neighbour chosen is one global minimum (`Libcgr.Cgr.IdentifyProximateNodes`,
  `CgrForward.Forwarder.Forward`, `Deliveries.SelectionMeans`).
- A bundle is projected to arrive exactly if a schedule exists, and as any schedule says
  (`Eto.ProjectedBySchedule`, `Deliveries.EstimateMeans`); no byte of a backlog is lost
  (`Eto.AllotmentsCoverBacklog`).
- Over any run of edits, ticks and forwards, cached routes in force list only indexed contacts,
  exactly unless one of them lists a record that was removed in the second of a discard
  (`CgrForward.Forwarder.CheckCache`).
- Over any run, each message is in the one queue that its property names, byte counters are sums of
  sizes, and every message in an outduct has been routed (`Custody.InOrder`, kept by every method of
  `Custody.Router`); so the check for expired routes serves all that are late, and leaves each where
  the answer to its call says (`Custody.Router.CheckExpiredRoutes`).

## Assumptions

- Times, node numbers and capacities are mathematical integers. Where the source computes with
  signed ints through scalars, contacts end by 2^31 - 1 and rates and bundle sizes fit an int
  (`Eto.Fits32`, `Forwarding.Request.Valid`); the rest of route computation needs only that the
  current time does not exceed that bound.
- Allocation succeeds and yields some address not in use; locks do nothing; comparison functions
  are monotone along the tree. Doubles in scalar arithmetic are reals.
- The tree's insertion requires a data item that is not in the tree: for one that is there, the
  source would still count it.
- The neighbour-to-outduct directive is a partial function; the C router, seen from Java, is an
  arbitrary answer to each call: a neighbour and a time, or no route. The clock and the probability
  of a contact are parameters.
- Contacts in `Cgr` are the records of the contact index in key order, and a route's hops are
  such records rather than their addresses; a contact's note stands at the contact's position. A
  serial number that the source does not have tells a record from any other that takes its place.
- The router's outducts exist from the start for all hosts instead of being added at first use.

## Findings

Where the code and its comments disagree, the model follows the code.

- Recomputation for a leading contact (ion_cgr_jni/bp/cgr/libcgr.c:980) only lifts that contact's
  exclusion, and the route it adds need not start there. `Detour.OtherLeadFound` is a plan and a
  list, as loading makes it, in which a route has expired and its replacement starts with another
  contact. Which contact it starts with is decided by the paths that are earliest to every node on
  their way: if all of them start with the contact, so does the route, and if none does, nor does
  the route (`Recomputing.RecomputedLead`). A tie at the terminus alone is decided by that
  (`Detour.TiedLead`). It always starts there if every other local contact in use leads a listed
  route (`Recomputing.NoOtherLead`).
- The comment at ion_cgr_jni/bp/cgr/libcgr.c:1097 says that a route is refused when its initial
  contact has been removed. At the end of the index it is not: `Eto.Accepted` is the exact
  condition and `Eto.GoneInitialContact` shows both cases.
- The walk's stopping rule (ion_cgr_jni/bp/cgr/libcgr.c:1503) presumes a list in order of arrival,
  but loading appends class after class and sorts nothing. Of the list it is given, the walk tries
  the admitted routes that stand before any late one, and without expired routes exactly those
  (`Walk.TriesInReach`). So all admitted routes of the list are tried exactly if each stands there
  (`Walk.WalkTriesAll`), as in a list in order of arrival, which stays in order.
  `Walk.UnorderedWalkMisses` is a list in which every walk misses an admitted route.
- A contact removed in the very second of a discard leaves cached routes that list it
  (`CgrForward.RemoveInUse`, and a run in `CgrForward.SameSecondRun`). After the check the cache is
  coherent exactly if no route in force lists such a record (`CgrForward.Forwarder.CheckCache`);
  inserting the contact again does not change that (`CgrForward.ReinsertInUse`).
- Wild-card removal starts at time zero, so that it empties a pair exactly if none of the pair's
  contacts starts before then (`ContactPlan.WildCardCoversPair`); `ContactPlan.NegativeStartStays`
  is a plan with one that does.
- The route-hops error branch at ion_cgr_jni/bp/cgr/libcgr.c:848 is taken exactly if every hop of
  the route ends after the end of time (`Libcgr.Cgr.LimitOf`).
- The anchor of an anchored search survives into the next payload class
  (ion_cgr_jni/bp/cgr/libcgr.c:762), where the first route found may be dropped. That loses nothing:
  the next search finds one that is as good (`AnchoredSearch.AnchorNotNeeded`,
  `AnchoredSearch.BestOfAll`).
- A scalar added to itself (ion_cgr_jni/ici/library/platform.c:312) is a gig too big exactly if its
  units carry, since the gigs are read after the carry (`Scalars.Scalar.Add`).
- The check for expired routes would return early at a message in an outduct that was never routed
  (src/routing/ContactGraphRouter.java:304). It never does: a message enters an outduct only after
  its time limit was set (ion_cgr_jni/jni_interface/ONEtoION_interface.c:370), which is positive
  (`Custody.AllRouted`, `Walk.SelectedProvided`).

## Model

| member | source | states |
|---|---|---|
| SmRbt.Rbt.Insert | ion_cgr_jni/ici/library/smrbt.c:386-565 | after one downward pass with a dummy root and stale ancestor variables, the in-order sequence is the old one with the item at its lower-bound position; the tree is red-black with a black root, its links, parent links and length are right |
| SmRbt.Rbt.Delete | ion_cgr_jni/ici/library/smrbt.c:567-870 | the item that compares equal, if there is one, is gone from the in-order sequence of data and nothing else is; without a match the tree holds what it held; red-black, links, parents and length are kept |
| SmRbt.Rbt.RotateOnce | ion_cgr_jni/ici/library/smrbt.c:310-337 | the links in memory become those of the rotated subtree, with its new root red and its old root black |
| SmRbt.Rbt.RotateTwice | ion_cgr_jni/ici/library/smrbt.c:339-350 | the links in memory become those of the twice rotated subtree |
| SmRbt.Rbt.FixViolation | ion_cgr_jni/ici/library/smrbt.c:489-517 | a red-red edge under a red parent is rotated away below the true great-grandparent, keeping the in-order sequence |
| SmRbt.Rbt.Visit | ion_cgr_jni/ici/library/smrbt.c:442-548 | one turn of the insertion pass: at most one red-red edge is made and repaired, and the ancestor variables, even where stale, again suffice for the next turn |
| SmRbt.Rbt.IntroduceRed | ion_cgr_jni/ici/library/smrbt.c:685-814 | one turn of the deletion pass: the node stepped to, or its child in the direction of search, is red afterwards, or it is the root |
| SmRbt.Rbt.UseSibling | ion_cgr_jni/ici/library/smrbt.c:720-814 | the cases that push redness to, or borrow it from, the sibling keep order, black heights and the absence of red-red edges |
| SmRbt.Rbt.Unlink | ion_cgr_jni/ici/library/smrbt.c:806-861 | the node unlinked hands its data to the target node; every other item stays |
| RbDelete.Unlinkable | ion_cgr_jni/ici/library/smrbt.c:627-814 | when the deletion pass ends, the node to unlink is a red leaf or the sole root |
| RbInsert.SingleSound | ion_cgr_jni/ici/library/smrbt.c:505-510 | a single rotation repairs an outer red-red edge: no red-red edge is left and black heights stay equal |
| RbInsert.DoubleSound | ion_cgr_jni/ici/library/smrbt.c:511-516 | a double rotation repairs an inner red-red edge |
| RbTree.RotatedItems | ion_cgr_jni/ici/library/smrbt.c:296-337 | a rotation keeps the in-order sequence and exactly the same nodes |
| SmRbt.Rbt.First | ion_cgr_jni/ici/library/smrbt.c:872-905 | the leftmost element: the first of the sequence, or none if the tree is empty |
| SmRbt.Rbt.Last | ion_cgr_jni/ici/library/smrbt.c:907-940 | the rightmost element: the last of the sequence |
| SmRbt.Rbt.Traverse | ion_cgr_jni/ici/library/smrbt.c:942-1014 | from the i-th element of the sequence to the next or the previous one, so that going one way and then the other returns |
| SmRbt.Rbt.Search | ion_cgr_jni/ici/library/smrbt.c:1044-1118 | finds a matching element exactly if there is one; otherwise the successor is the least element that compares greater |
| Keys.CompareIsTotalOrder | ion_cgr_jni/ici/library/rfx.c:75-228 | the three-level comparison of ranges, contacts and events is a total order, equal only on equal keys |
| ContactPlan.Plan.InKeyOrder | ion_cgr_jni/ici/library/rfx.c:129-228 | of two rows of the contact index the earlier one has the lower sender, or the same and the lower receiver, or both the same and the earlier start; of two events on the timeline the earlier one has the earlier time, then the lower type, then the lower reference |
| Index.Table.Insert | ion_cgr_jni/ici/library/smrbt.c:386-565 | as used for the contact index and the timeline: the record stands at its key's position, at a fresh address |
| Index.Table.Delete | ion_cgr_jni/ici/library/smrbt.c:567-870 | the record with the key is gone, addresses of the others included, and is found exactly if the key is there |
| Index.Table.Search | ion_cgr_jni/ici/library/smrbt.c:1044-1118 | an exact match and no successor, or no match and the element that would follow the key |
| Index.Table.Scan | ion_cgr_jni/ici/library/smrbt.c:1044-1118 | what the loop from a search's successor visits: the rows from the key's position on, in order, or nothing if the key itself is there |
| Index.Table.ScanAll | ion_cgr_jni/ici/library/smrbt.c:872-1014 | first and next visit all rows in key order |
| SearchSteps.NodeScan | ion_cgr_jni/bp/cgr/libcgr.c:338-351 | a scan from a node's zero key to the first contact of a higher node visits exactly the contacts that leave the node |
| SearchSteps.PairScan | ion_cgr_jni/bp/cgr/libcgr.c:265-281 | a scan from a pair's zero-time key visits exactly the pair's ranges that start after time zero |
| ContactPlan.NeighborsSuffice | ion_cgr_jni/ici/library/rfx.c:767-804 | looking only at the successor and the predecessor in the tree finds an overlap exactly if any contact of the pair overlaps |
| ContactPlan.Plan.NeighborOverlaps | ion_cgr_jni/ici/library/rfx.c:767-804 | the two neighbours in the tree, and only they, are compared |
| ContactPlan.InsertDisjoint | ion_cgr_jni/ici/library/rfx.c:731-803 | contacts of the same ordered pair stay pairwise disjoint in time when one that overlaps none is inserted |
| ContactPlan.FitMeans | ion_cgr_jni/ici/library/rfx.c:731-804 | the condition for insertion in so many words: both nodes given, a start and a later end, and every contact of the same ordered pair over when it starts or starting when it is over |
| ContactPlan.Plan.InsertContact | ion_cgr_jni/ici/library/rfx.c:711-839 | accepted exactly if well-formed, not already there and overlapping none; then index, timeline and edit time are as stated, otherwise nothing changes |
| ContactPlan.Plan.InsertCXref | ion_cgr_jni/ici/library/rfx.c:519-709 | the contact is indexed, exactly its events are posted, and the edit time is noted if the contact is not over |
| ContactPlan.PostedEvents | ion_cgr_jni/ici/library/rfx.c:561-701 | which events an insertion posts: at the sender the start and stop of transmission, late and early by the clock error; at the receiver those of its timers; elsewhere the purge at the contact's end; and none at time zero |
| ContactPlan.Plan.DeleteContact | ion_cgr_jni/ici/library/rfx.c:860-978 | exactly that contact and its events go; the edit time is noted if the contact was not over |
| ContactPlan.Plan.RemoveContact | ion_cgr_jni/ici/library/rfx.c:980-1044 | removes exactly the contacts addressed and their events: of the pair, those that start at the time given, or after time zero if that is zero; wild-card removal terminates |
| ContactPlan.Plan.RemoveAll | ion_cgr_jni/ici/library/rfx.c:1011-1035 | removal of one contact of the pair after another ends with all of the pair that start after time zero gone, and no other |
| ContactPlan.WildCardCoversPair | ion_cgr_jni/ici/library/rfx.c:996-1035 | wild-card removal empties the pair exactly if none of its contacts starts before time zero |
| ContactPlan.NegativeStartStays | ion_cgr_jni/ici/library/rfx.c:996-1035 | a valid plan whose one contact no wild-card removal covers |
| ContactPlan.InsertRemoveRestores | ion_cgr_jni/ici/library/rfx.c:519-978 | inserting a contact and removing it again restores both the index and the timeline |
| ContactPlan.AddCoherent | ion_cgr_jni/ici/library/rfx.c:601-701 | after an insertion the contact events on the timeline are again those that derive from the contacts in the index |
| ContactPlan.RemoveCoherent | ion_cgr_jni/ici/library/rfx.c:875-933 | after a removal too |
| Libcgr.Cgr.GetApplicableRange | ion_cgr_jni/bp/cgr/libcgr.c:258-300 | the owlt of the applicable range, as the independent definition gives it (in terms of ranges alone: Itineraries.RangeAgrees) |
| Itineraries.RangeAgrees | ion_cgr_jni/bp/cgr/libcgr.c:258-300 | the applicable light time is that of the earliest-starting range of the pair in which the contact begins |
| SearchSteps.ApplicableRangeIsEarliest | ion_cgr_jni/bp/cgr/libcgr.c:268-299 | a range is found exactly if one that starts after time zero covers the contact's start, and it is the earliest-starting one |
| Libcgr.Cgr.ConsiderContact | ion_cgr_jni/bp/cgr/libcgr.c:355-463 | considering one contact keeps the search's invariant, makes no noted time later, and leaves the contact noted no later than through the current one |
| Libcgr.Cgr.ConsiderNeighbors | ion_cgr_jni/bp/cgr/libcgr.c:338-463 | afterwards every contact that can follow the current one is noted to arrive no later than through it |
| Libcgr.Cgr.SelectNext | ion_cgr_jni/bp/cgr/libcgr.c:469-500 | the earliest of the contacts that are neither suppressed nor visited and not beyond the best final arrival; none if there is none |
| Libcgr.Cgr.Search | ion_cgr_jni/bp/cgr/libcgr.c:328-514 | the loop ends, and leaves no contact that could still lie on a better path |
| Dijkstra.Optimal | ion_cgr_jni/bp/cgr/libcgr.c:333-521 | despite the early pruning, no feasible sequence of contacts reaches the terminus before the earliest final arrival noted |
| Dijkstra.NotedIsEarliest | ion_cgr_jni/bp/cgr/libcgr.c:412-464 | every contact of a feasible sequence is noted to arrive no later than the sequence does, unless that is too late to matter |
| Dijkstra.PredecessorFirst | ion_cgr_jni/bp/cgr/libcgr.c:447-448 | a predecessor was made current before its successor was reached, even when light times are zero |
| Dijkstra.TraceIsPath | ion_cgr_jni/bp/cgr/libcgr.c:531-552 | the contacts met when backtracking are a feasible path, and folding the arrival recurrence over it gives the noted arrival time |
| Dijkstra.TraceIsSimple | ion_cgr_jni/bp/cgr/libcgr.c:531-552 | the path leaves no node twice, so that only its first contact leaves the local node |
| Dijkstra.TraceIsPrompt | ion_cgr_jni/bp/cgr/libcgr.c:333-563 | no path arrives earlier at any node on the way of the path found, nor at the terminus |
| Itineraries.PathIsJourney | ion_cgr_jni/bp/cgr/libcgr.c:328-464 | a feasible sequence is a journey over contacts of the plan, leg by leg: large enough, leaving from where the leg before has led, open until after the data is there, with the light time and 41/186282 of it for movement, and over before 2147483647 |
| Itineraries.JourneyIsPath | ion_cgr_jni/bp/cgr/libcgr.c:328-464 | and every such journey is a feasible sequence that ends when the journey does |
| Libcgr.Cgr.Backtrack | ion_cgr_jni/bp/cgr/libcgr.c:531-552 | backtracking ends with the hops of the traced path, the earliest of their end times and the least of their capacities (ContactGraph.LeastVolumeIsLeast) |
| ContactGraph.EarliestEndIsLeast | ion_cgr_jni/bp/cgr/libcgr.c:533-538 | the end time computed is that of some hop and later than that of none, unless all outlast the end of time |
| ContactGraph.LeastVolumeIsLeast | ion_cgr_jni/bp/cgr/libcgr.c:540-546 | the capacity computed is the volume of some hop, and no hop has less, as long as volumes fit 64 bits |
| Libcgr.Cgr.ComputeDistanceToTerminus | ion_cgr_jni/bp/cgr/libcgr.c:302-567 | a route is described exactly if some feasible sequence reaches the terminus; its arrival is the least of all |
| Libcgr.Cgr.FindNextBestRoute | ion_cgr_jni/bp/cgr/libcgr.c:569-627 | none exactly if no feasible sequence reaches the terminus; otherwise a simple route of least arrival; the route also gets to every node on its way as early as any path does; its hops are a journey, no journey arrives earlier, and it tells of its hops what is true: the first one, the earliest end, and the volume of one of them, which no other is below; if none is found, there is no journey (Itineraries.FoundOrNone) |
| Libcgr.Cgr.EndAnchoredSearch | ion_cgr_jni/bp/cgr/libcgr.c:629-662 | notes are cleared; suppression ends for all but the local node's contacts |
| Libcgr.Cgr.LimitOf | ion_cgr_jni/bp/cgr/libcgr.c:812-853 | the contact to exclude is the first hop that ends when the route does, and no hop ends before it; if that is not the route's first hop then the first hop, which ends later, becomes the anchor; it fails exactly if every hop ends after the end of time |
| Libcgr.Cgr.ExcludeLimit | ion_cgr_jni/bp/cgr/libcgr.c:812-868 | only a hop that ends no later than any other is newly suppressed, and a new anchor is the first hop, if that ends later; the loop's measure becomes smaller and the recorded route is barred from being found again in its class |
| Libcgr.Cgr.LoadNext | ion_cgr_jni/bp/cgr/libcgr.c:752-869 | each turn ends the class exactly if no route is left, ends the anchored search if the best route does not begin with the anchor, and otherwise records the best route and excludes its limit; unless the class ends, the measure becomes smaller: unsuppressed local contacts, then phase, then unsuppressed contacts |
| AnchoredSearch.RecordingDecreases | ion_cgr_jni/bp/cgr/libcgr.c:803-857 | recording a route decreases the measure |
| AnchoredSearch.EndingDecreases | ion_cgr_jni/bp/cgr/libcgr.c:778-800 | ending an anchored search decreases the measure although it ends suppressions |
| AnchoredSearch.BarredAfterEnd | ion_cgr_jni/bp/cgr/libcgr.c:629-663 | routes stay barred when an anchored search ends |
| Libcgr.Cgr.LoadClass | ion_cgr_jni/bp/cgr/libcgr.c:723-870 | the search for a payload class ends, whatever the anchor left by the class before, and only when no route is left under the suppressions then in force; the first route of each class so far is best without any suppression |
| Libcgr.Cgr.LoadRouteList | ion_cgr_jni/bp/cgr/libcgr.c:670-873 | loading ends; within a payload class no two routes have the same hops; every route is a best one when certain hops of the routes listed before it, and nothing else, are suppressed; for every payload class in which the terminus can be reached, the first route of the class is a best one when nothing is suppressed; for every payload class there is one anchor such that every path to the terminus in the class shares a hop with a listed route: the route's first, or one that ends no later than any other, and unless it is a contact of the local node, the route starts with the anchor |
| Itineraries.ListServes | ion_cgr_jni/bp/cgr/libcgr.c:670-873 | for contacts of at least 1024, 1048576 or 1073741824 bytes: if there is a journey over such contacts, a route over such contacts is listed that arrives no later |
| Itineraries.ListMeets | ion_cgr_jni/bp/cgr/libcgr.c:752-869 | and there is at most one contact such that every such journey takes a hop that is the first of a listed route, or ends no later than any other hop of it, either where the local node is left or on a route that starts with that contact |
| Itineraries.ListedAreJourneys | ion_cgr_jni/bp/cgr/libcgr.c:670-873 | every listed route is such a journey for one of the three sizes, arrives when it says, and tells of its hops what is true |
| AnchoredSearch.ExhaustedLeavesNone | ion_cgr_jni/bp/cgr/libcgr.c:752-762 | when a class ends, every path left shares a hop with a listed route; if the hop is not a local contact, that route starts with the anchor |
| AnchoredSearch.AnchorNotNeeded | ion_cgr_jni/bp/cgr/libcgr.c:768-800 | a best route dropped because it does not start with the anchor stays available when the anchor is suppressed |
| AnchoredSearch.BestOfAll | ion_cgr_jni/bp/cgr/libcgr.c:768-800 | so that what the next search finds is best even without the suppression |
| Forwarding.FreshRoute | ion_cgr_jni/bp/cgr/libcgr.c:333-358 | a route just computed shuts down after the current time |
| Recomputing.NewLead | ion_cgr_jni/bp/cgr/libcgr.c:943-978 | a recomputed route leads by the given contact or by one that leads no listed route |
| Recomputing.RecomputedLead | ion_cgr_jni/bp/cgr/libcgr.c:980-996 | of the paths that are earliest to every node on their way, one is found: it leads by the given contact if all of those do, and does not if none does |
| Recomputing.PrevailingDecides | ion_cgr_jni/bp/cgr/libcgr.c:980-996 | so it is decided if some path by the contact, or some other path, arrives before all of the other kind |
| Recomputing.OvertakenNotPrompt | ion_cgr_jni/bp/cgr/libcgr.c:412-464 | and in a tie, a path that is overtaken at a node on its way is not found |
| Recomputing.NoOtherLead | ion_cgr_jni/bp/cgr/libcgr.c:943-996 | it leads by the given contact if every other local contact that data could leave by leads a listed route already |
| Detour.LoadedAt50 | ion_cgr_jni/bp/cgr/libcgr.c:670-873 | a plan for which loading may list two routes, both by one contact |
| Detour.OtherLeadFound | ion_cgr_jni/bp/cgr/libcgr.c:980-996 | when the first of these has expired, recomputation for the contact it leads by finds a route by another contact |
| Detour.TiedLead | ion_cgr_jni/bp/cgr/libcgr.c:980-996 | at an earlier time, with the first route expired already, a route by the contact is as good, and still the other one is found |
| Libcgr.Cgr.SuppressLeads | ion_cgr_jni/bp/cgr/libcgr.c:943-978 | exactly the leading contacts of the other listed routes are suppressed |
| Libcgr.Cgr.PlaceOf | ion_cgr_jni/bp/cgr/libcgr.c:998-1012 | the new route goes behind those that arrive no later and before the first that arrives later |
| Recomputing.InsertionOrdered | ion_cgr_jni/bp/cgr/libcgr.c:998-1021 | a list in order of arrival stays so |
| Libcgr.Cgr.RecomputeRouteForContact | ion_cgr_jni/bp/cgr/libcgr.c:878-1030 | a route is added exactly if the contact is indexed and not over and the search without the other listed leads finds one; it is the best such route, is not expired, and stands in its place; otherwise nothing changes |
| Recomputing.ReplaceableMeans | ion_cgr_jni/bp/cgr/libcgr.c:905-991 | a route is replaced exactly if the contact it leads by is indexed and not over, and a journey is possible over contacts of the class's size, none of which leads another listed route |
| Recomputing.StillReplaceable | ion_cgr_jni/bp/cgr/libcgr.c:905-991 | so it is if a journey is still possible that starts with that contact and does not come back to the node |
| Recomputing.RecomputedMeans | ion_cgr_jni/bp/cgr/libcgr.c:943-996 | the new route is such a journey, no such journey arrives earlier, none of its hops is over, and it tells of them what is true |
| Libcgr.Cgr.ReplaceRoute | ion_cgr_jni/bp/cgr/libcgr.c:1533-1570 | the expired route, which none before it is, nor late, is deleted; if it can be replaced, the list has the new route in its place by arrival, and otherwise it is the shorter list |
| Walk.WalkDeletes | ion_cgr_jni/bp/cgr/libcgr.c:1533-1547 | deleting an expired route leaves strictly fewer expired ones |
| Walk.WalkRestarts | ion_cgr_jni/bp/cgr/libcgr.c:1548-1570 | a restart after a recomputation leaves no more expired routes than before |
| Libcgr.Cgr.IdentifyProximateNodes | ion_cgr_jni/bp/cgr/libcgr.c:1483-1633 | the walk ends; exactly the admitted routes before the first late one were tried; no route that has not expired is lost and only routes that are best without other listed leads are added; order of arrival is kept, and so is that all admitted routes stand before any late one; without expired routes the list does not change; from the list given to the one left there is a run of deletions, each with the recomputed route, or without one exactly if there is none to be found; the proximate nodes represent the routes tried |
| Walk.WalkTriesAll | ion_cgr_jni/bp/cgr/libcgr.c:1501-1509 | all admitted routes in the list were tried exactly if each of them stands before any late one |
| Walk.TriesInReach | ion_cgr_jni/bp/cgr/libcgr.c:1501-1577 | of the list the walk is given: admitted routes that stand before any late one are tried, and so are those added; those only behind late routes in force are not, unless found again; without expired routes exactly the admitted ones before any late one are tried |
| Walk.OrderedInReach | ion_cgr_jni/bp/cgr/libcgr.c:1501-1509 | so it is in a list in order of arrival |
| Walk.BlockedNotTried | ion_cgr_jni/bp/cgr/libcgr.c:1572-1577 | a route that stands only behind late routes that have not expired is not tried, unless a recomputation finds it again |
| Walk.UnorderedWalkMisses | ion_cgr_jni/bp/cgr/libcgr.c:1572-1577 | every walk of a list of a late route and an admitted one behind it leaves the admitted one untried |
| Deliveries.WalkMeans | ion_cgr_jni/bp/cgr/libcgr.c:1483-1633 | the routes tried are those before the first that arrives after the deadline on each of whose hops the payload fits, whose neighbour is not excluded, nor the node itself unless the bundle is for it; no hop of a route up to there is over |
| Eto.UnservedIsExcess | ion_cgr_jni/bp/library/libbpP.c:16-21 | serving a backlog contact by contact leaves max(0, backlog minus total capacity) |
| Eto.BacklogConserved | ion_cgr_jni/bp/cgr/libcgr.c:1084-1190 | the allotments to the contacts and what is left always add up to the backlog |
| Eto.AllotmentsCoverBacklog | ion_cgr_jni/bp/cgr/libcgr.c:1084-1190 | for a route whose first contact is indexed and not over: prior claims are max(0, backlog minus the capacities of the earlier contacts), allotment and protected make up the prior claims, and with all earlier allotments the whole backlog |
| Libcgr.Cgr.AllotContact | ion_cgr_jni/bp/cgr/libcgr.c:1112-1162 | a contact's capacity, which is its rate times the seconds that are left of it, what it is allotted of the remaining backlog, and what remains |
| Libcgr.Cgr.AllotBacklog | ion_cgr_jni/bp/cgr/libcgr.c:1084-1190 | the scan gives up on exactly the routes the independent condition rejects, and otherwise leaves prior claims, allotment and protected backlog as stated |
| Deliveries.NotPassedAgrees | ion_cgr_jni/bp/cgr/libcgr.c:1093-1130 | the routes accepted, in terms of contacts alone: the initial contact is there and not over, or no contact comes after its place |
| Deliveries.ClaimsAre | ion_cgr_jni/bp/cgr/libcgr.c:1084-1190 | the prior claims are the backlog less what the contacts with the neighbour that begin earlier and are not over can carry, rate times seconds left, or nothing |
| Eto.GoneInitialContact | ion_cgr_jni/bp/cgr/libcgr.c:1093-1103 | a route whose initial contact has left the index is rejected if a contact comes after where it was, and is not rejected at the end of the index |
| Libcgr.Cgr.ComputeOverbooked | ion_cgr_jni/bp/cgr/libcgr.c:1192-1202 | bytes of allotment and bundle that exceed the contact's capacity, or zero |
| Libcgr.Cgr.FollowHops | ion_cgr_jni/bp/cgr/libcgr.c:1237-1299 | the arrival at the end of the hops, or none |
| Libcgr.Cgr.ComputeArrivalTime | ion_cgr_jni/bp/cgr/libcgr.c:1049-1310 | the estimate: the earliest transmission opportunity, whether and when the bundle would arrive, how much is overbooked, how much of the backlog is left; an error if the initial contact cannot transmit |
| Eto.ProjectedBySchedule | ion_cgr_jni/bp/cgr/libcgr.c:1195-1310 | a bundle is projected to arrive exactly if there is a schedule whose transmissions complete strictly before each hop ends and that arrives by the deadline, and whenever there is one, it arrives as that schedule says |
| Deliveries.ProjectedMeans | ion_cgr_jni/bp/cgr/libcgr.c:1203-1310 | a projection says when some haul arrives, and whenever there is one by the deadline it says so; in a haul each transmission takes the whole seconds that bytes and rate make, starts when the hop before has delivered and the contact has begun, the first one behind the claims, is complete before the contact ends, and delivers a light time later |
| Deliveries.EstimateMeans | ion_cgr_jni/bp/cgr/libcgr.c:1049-1375 | and so for a request and a route: the outduct is open and takes the payload, the initial contact was not passed, the claims are what is queued beyond what earlier contacts carry, the bytes are the bundle's with 29 more, and the deadline is counted from 2000 |
| Eto.ProjectedMonotone | ion_cgr_jni/bp/cgr/libcgr.c:1195-1310 | more prior claims or a larger bundle can only delay the arrival or prevent it |
| Forwarding.EstimateMonotone | ion_cgr_jni/bp/cgr/libcgr.c:1049-1310 | from end to end: with more queued for the neighbour, or more payload, a route is expected to deliver no sooner, and not at all if it was not before |
| Eto.UnservedMonotone | ion_cgr_jni/bp/cgr/libcgr.c:1176-1189 | a larger backlog leaves larger prior claims |
| Eto.NeverBeforeRoute | ion_cgr_jni/bp/cgr/libcgr.c:412-432 | with the ranges unchanged and the clock not before the load time, a bundle never arrives before its route does, less the margins for movement |
| Walk.LoadedNeverBefore | ion_cgr_jni/bp/cgr/libcgr.c:412-432 | so for every route of a list loaded before, whatever contacts have come since: what a bundle is expected to arrive at is no earlier |
| Walk.AddedNeverBefore | ion_cgr_jni/bp/cgr/libcgr.c:412-432 | and for every route that a walk has added |
| Libcgr.Cgr.NoteRoute | ion_cgr_jni/bp/cgr/libcgr.c:1402-1480 | the per-neighbour list keeps one best trial of each neighbour |
| Libcgr.Cgr.ExamineRoute | ion_cgr_jni/bp/cgr/libcgr.c:1326-1375 | plausible exactly if there is an unblocked, wide enough outduct and a projected arrival; what is told of the route and of the shares of its initial contact is right |
| Deliveries.BookedMeans | ion_cgr_jni/bp/cgr/libcgr.c:1165-1202 | of what is queued ahead and the bundle, the bytes reported as protected and as overbooked are those that exceed what the initial contact can still carry |
| Libcgr.Cgr.TryRoute | ion_cgr_jni/bp/cgr/libcgr.c:1312-1481 | afterwards the proximate nodes represent the routes tried so far and this one |
| Libcgr.Cgr.SelectNeighbor | ion_cgr_jni/bp/cgr/libcgr.c:2131-2187 | the neighbour selected belongs to a trial that no other is preferred to by arrival, hop count and neighbour number |
| Selection.SelectedIsMinimal | ion_cgr_jni/bp/cgr/libcgr.c:2131-2187 | the merge per neighbour followed by the final scan is one global minimum |
| Selection.SelectionUnique | ion_cgr_jni/bp/cgr/libcgr.c:2131-2187 | the outcome does not depend on the order of the routes or on repeated trials |
| Deliveries.SelectionMeans | ion_cgr_jni/bp/cgr/libcgr.c:2131-2187 | the node selected tells of a route tried, by which the bundle is expected as computed from bytes and rates: neighbour, hops, arrival, when the first hop ends, and what is protected and overbooked; by no route tried is it expected earlier, or as early over fewer hops, or so by a lower-numbered neighbour; if none is selected, it is expected by none |
| Forwarding.TrialsAre | ion_cgr_jni/bp/cgr/libcgr.c:1326-1402 | the trials are those of the plausible ones of the routes tried |
| CgrForward.Forwarder.InsertContact | ion_cgr_jni/ici/library/rfx.c:703-706 | inserting a contact has the contact plan's effect and keeps the node's invariant; the record is a new one even if the contact was there before |
| CgrForward.Forwarder.RemoveContact | ion_cgr_jni/ici/library/rfx.c:965-968 | removing contacts has the plan's effect and keeps the invariant; a contact becomes dangling exactly if it is removed before it is over, in the second of the last discard |
| CgrForward.Forwarder.Tick | ion_cgr_jni/bp/cgr/libcgr.c:1986-1993 | time passing keeps the invariant |
| CgrForward.Forwarder.CheckCache | ion_cgr_jni/bp/cgr/libcgr.c:1986-1993 | all lists are discarded exactly if the plan was edited in a later second than the last discard; then every cached route in force lists only contacts of the index, exactly if none lists a dangling contact |
| CgrForward.Forwarder.Forward | ion_cgr_jni/bp/cgr/libcgr.c:1940-2187 | cache check, walk and selection together, for the present or, in a preview, any other time: coherence exactly as after the check, the run of replacements in the list, and the neighbour of a best trial, by a route every hop of which has room for the payload |
| CgrForward.StillWithin | ion_cgr_jni/ici/library/rfx.c:965-968 | contacts that are over may leave the index without an edit being noted, and time may pass: routes in force list what they did |
| CgrForward.CoherentUnlessInUse | ion_cgr_jni/bp/cgr/libcgr.c:1986-1993 | where routes in force list indexed and dangling contacts only, the cache is coherent exactly if none lists a dangling one |
| CgrForward.RemoveInUse | ion_cgr_jni/bp/cgr/libcgr.c:1986-1993 | removing a contact that a route in force lists, in the second of a discard, leaves the cache incoherent after the check, for every state of the node |
| CgrForward.ReinsertInUse | ion_cgr_jni/bp/cgr/libcgr.c:1986-1993 | inserting the contact again in that second does not help: routes refer to the record removed |
| CgrForward.SameSecondRun | ion_cgr_jni/bp/cgr/libcgr.c:1986-1993 | a run of the node in which that happens: insertion, forwarding, removal, insertion and check at one clock value |
| Libcgr.Cgr.DiscardRouteLists | ion_cgr_jni/bp/cgr/libcgr.c:146-174 | no route list is left |
| Custody.OneQueue | src/routing/ContactGraphRouter.java:59-89 | a buffered message is in the queue that its property names, in no other, and in none if it names none |
| Custody.Outduct.RemoveMessage | src/routing/ContactGraphRouter.java:75-89 | the first occurrence goes, the property is reset and the bytes are subtracted; without one nothing changes |
| Custody.Router.EnqueueBundle | ion_cgr_jni/jni_interface/ONEtoION_interface.c:363-378 | the time until which the route chosen is good is noted first, and then the message moves from limbo to the neighbour's outduct, or stays if there is none; so every message in an outduct has been routed |
| Walk.SelectedProvided | ion_cgr_jni/bp/cgr/libcgr.c:1402-1480 | the neighbour chosen is not excluded, and is that of a route tried which shuts down after time zero and has room for the payload on every hop |
| Custody.Router.InsertBundleIntoOutduct | src/cgr_jni/IONInterface.java:70-80 | a message in limbo moves to the neighbour's outduct, or stays if there is none; custody stays in order |
| Custody.Router.CgrForward | src/routing/ContactGraphRouter.java:570-574 | as the answer of the C router says, the message moves to the outduct of the neighbour found with the time limit given, or nothing changes |
| Custody.Router.PlacedIs | src/routing/ContactGraphRouter.java:570-574 | a message placed by an answer is in the queue of that neighbour's outduct, refers to it and has the new time limit, or is in limbo and refers to that |
| Custody.Router.Reroute | src/routing/ContactGraphRouter.java:318-320 | a late message goes through limbo and to where the answer says; all others stay |
| Custody.Router.InsertMessage | src/routing/ContactGraphRouter.java:59-73 | the message joins the queue, leaves limbo, and is counted |
| Custody.Router.PutMessageIntoLimbo | src/routing/ContactGraphRouter.java:243-250 | the message leaves the outduct it is in and joins the end of limbo; nothing else changes |
| Custody.Router.RemoveMessageFromLimbo | src/routing/ContactGraphRouter.java:257-261 | the message leaves limbo and refers to no queue |
| Custody.Router.TryRouteForMessageIntoLimbo | src/routing/ContactGraphRouter.java:278-289 | routing is attempted once for each message in limbo, in order; each of them is then in the outduct of the neighbour found, with the new time limit, or in limbo, and all others are where they were |
| Custody.Router.CheckExpiredRoutes | src/routing/ContactGraphRouter.java:296-324 | exactly the messages of all outducts whose routes have expired are routed again, and each is then where the last answer for it says: in the outduct of the neighbour found, with the new time limit, or in limbo; all others stay where they are; the early return for a message never routed is never taken |
| Custody.Router.AddToMessages | src/routing/ContactGraphRouter.java:364-385 | a new message for this node is only counted; any other joins the buffer, goes through limbo, is routed once, and is then where the answer says |
| Custody.Router.RemoveFromOutducts | src/routing/ContactGraphRouter.java:394-414 | the message leaves the queue it refers to; none if it refers to none |
| Custody.Router.RemoveFromMessages | src/routing/ContactGraphRouter.java:416-421 | the message leaves its queue and the buffer; custody stays in order |
| Custody.TakenInOrder | src/routing/ContactGraphRouter.java:75-89 | custody is in order after a message leaves its queue: one queue per message, references and byte counters right |
| Custody.PutInOrder | src/routing/ContactGraphRouter.java:59-73 | custody is in order after a message in no queue joins one |
| SmLists.SmList.InsertFirst | ion_cgr_jni/ici/library/smlist.c:253-289 | the list refines a sequence: the element is prepended |
| SmLists.SmList.InsertLast | ion_cgr_jni/ici/library/smlist.c:314-360 | the element is appended |
| SmLists.SmList.InsertBefore | ion_cgr_jni/ici/library/smlist.c:362-418 | the element stands where the old one stood |
| SmLists.SmList.InsertAfter | ion_cgr_jni/ici/library/smlist.c:420-486 | the element stands behind the old one |
| SmLists.SmList.Insert | ion_cgr_jni/ici/library/smlist.c:488-544 | the element goes behind the last one that does not compare greater |
| SmLists.StableInsertion | ion_cgr_jni/ici/library/smlist.c:525-535 | a sorted list stays sorted, and equal keys stay first in, first out |
| SmLists.SmList.Delete | ion_cgr_jni/ici/library/smlist.c:546-615 | exactly that element goes; neighbours, ends and length are right |
| SmLists.SmList.Clear | ion_cgr_jni/ici/library/smlist.c:131-175 | every element is freed and the list is empty |
| SmLists.SmList.Search | ion_cgr_jni/ici/library/smlist.c:679-737 | the first match that is not behind a datum that compares greater; in a list in order of comparison none exactly if there is none |
| SmLists.SmList.Find | ion_cgr_jni/ici/library/smlist.c:739-760 | the first element with the data, none exactly if there is none |
| SmLists.DeletionUndoesInsertion | ion_cgr_jni/ici/library/smlist.c:362-615 | deleting an element just inserted restores the list |
| Scalars.Scalar.Load | ion_cgr_jni/ici/library/platform.c:211-226 | the absolute value, normalized |
| Scalars.Scalar.Increase | ion_cgr_jni/ici/library/platform.c:228-248 | the exact sum; units stay in range and never overflow an int on the way |
| Scalars.Scalar.Reduce | ion_cgr_jni/ici/library/platform.c:250-271 | the exact difference, normalized even if it is negative |
| Scalars.Scalar.Multiply | ion_cgr_jni/ici/library/platform.c:273-286 | the exact product, normalized if it is not negative |
| Scalars.Scalar.Divide | ion_cgr_jni/ici/library/platform.c:288-302 | the quotient rounded toward zero; division by zero is refused |
| Scalars.Scalar.Add | ion_cgr_jni/ici/library/platform.c:312-318 | the exact sum of two scalars; a scalar added to itself comes out a gig too big exactly if its units carry |
| Scalars.Scalar.Subtract | ion_cgr_jni/ici/library/platform.c:320-326 | the exact difference of two scalars |
| Scalars.Scalar.IsValid | ion_cgr_jni/ici/library/platform.c:328-332 | valid exactly if the value is not negative |

## Left out

- SmRbt.Rbt.Insert: for a data item that is already in the tree the source changes nothing but the length; the model requires a fresh item.
- SmRbt.Rbt.Delete: the user's delete function and the erasure of freed memory are not modelled; the address of the item erased is returned instead.
- ContactPlan.Plan.DeleteContact: neighbour rates and the non-volatile contact list are not modelled; the source reads the record again after it was freed, which the model does not.
- ContactPlan.Plan.InsertContact: the non-volatile contact list and the probability are not stored; receive events are never posted by the source.
- Libcgr.Cgr.LoadRouteList: nothing is claimed about the order of routes across payload classes, or about finding a route for every initial contact.
- Libcgr.Cgr.IdentifyProximateNodes: that a terminus is known as a node, embargoes and the exclusion of the sender are a given set of excluded neighbours.
- Libcgr.Cgr.SelectNeighbor: the per-neighbour directive and the queueing of the bundle are not modelled.
- CgrForward.Forwarder.EditRanges: how ranges are inserted, imputed and removed is not modelled; any change of ranges is allowed.
- Custody.Router.PutMessageIntoLimbo: a message that is in limbo already would be queued twice by the source; the model requires that it is not there, as none of the source's calls passes such a message. Limbo's byte counter is not kept, and the model says nothing about it.
- Custody.Router.InsertBundleIntoOutduct: the message is required to be in limbo and to have a time limit, as it is and has in the source's one call.
- Custody.Router.AddToMessages: that the buffer does not yet hold a message of the same id is a condition, which the simulator checks before it accepts a message.
- Scalars.Scalar.Increase: the most negative int is excluded as an argument, here and in the other operations; gigs are unbounded.
- SmLists.SmList.Delete: the user's delete function and locks are not modelled.
- Critical bundles, overbooking management and urgent queues: the calls they depend on are stubs in the port.
- Loading ranges and contacts at startup, since the index entry is only partly initialised there.
- Tracing, administration commands, printing and the native interface between Java and C.
- Connections and transfers of the simulator: arbitrary calls into the modelled methods.
