/** Enumerating routes by suppressing contacts: why it ends, and why no route is found twice. */
module AnchoredSearch {
  import opened Keys
  import opened ContactPlan
  import opened ContactGraph
  import opened Dijkstra
  import opened SearchSteps

  const NO_PREDECESSOR: int := -2

  const PAYLOAD_CLASSES: nat := 3

  /** Where a contact of the index stands in it. */
  function IndexOf(contacts: seq<CXref>, c: CXref): nat {
    Position(ContactKeys(contacts), ContactKey(c))
  }

  lemma IndexOfContact(contacts: seq<CXref>, i: nat)
    requires ContactsOrdered(contacts) && i < |contacts|
    ensures IndexOf(contacts, contacts[i]) == i
  {
    var ks := ContactKeys(contacts);
    AfterPosition(ks, ks[i]);
    var n := Position(ks, ks[i]);
    assert !Below(ks[i], ks[i]) && !Below(ks[n], ks[i]);
  }

  predicate SuppressedAt(contacts: seq<CXref>, w: Notes, c: CXref) {
    var i := IndexOf(contacts, c);
    i < |w| && w[i].suppressed
  }

  /** The hops of a route found while w's suppressions were in force. */
  ghost predicate Follows(contacts: seq<CXref>, w: Notes, localNode: nat, hops: seq<CXref>) {
    && hops != []
    && (forall k :: 0 <= k < |hops| ==> hops[k] in contacts && !SuppressedAt(contacts, w, hops[k]))
    && (forall k :: 0 <= k < |hops| ==> (hops[k].fromNode == localNode <==> k == 0))
  }

  lemma BestRouteFollows(p: Problem, w: Notes, terminus: nat, route: CgrRoute)
    requires ContactsOrdered(p.contacts) && |w| == |p.contacts| && p.suppressed == SuppressedIn(w)
    requires BestRoute(p, terminus, route)
    ensures Follows(p.contacts, w, p.source, route.hops) && route.toTime == EarliestEnd(route.hops)
  {
    var hops := route.hops;
    var path :| Describes(p, route, path) && p.Reaches(path, terminus);
    forall k | 0 <= k < |hops|
      ensures hops[k] in p.contacts && !SuppressedAt(p.contacts, w, hops[k])
    {
      assert path[k] in path && p.Usable(path[k]);
      IndexOfContact(p.contacts, path[k]);
    }
    FirstLeavesSource(p, path);
    assert hops[0].fromNode == p.source;
  }

  lemma {:induction false} FirstLeavesSource(p: Problem, path: seq<nat>)
    requires p.Feasible(path) && path != []
    ensures path[0] < |p.contacts| && p.contacts[path[0]].fromNode == p.source
  {
    var q := path[..|path| - 1];
    if q == [] {
      assert p.EndNode(q) == p.source;
    } else {
      FirstLeavesSource(p, q);
    }
  }

  // ---------------------------------------------------------- why it ends

  /** The contacts of the local node that are not suppressed. */
  ghost function LocalFree(contacts: seq<CXref>, w: Notes, localNode: nat): set<nat> {
    set i: nat | i < |w| && i < |contacts| && contacts[i].fromNode == localNode && !w[i].suppressed
  }

  ghost function Free(w: Notes): set<nat> {
    set i: nat | i < |w| && !w[i].suppressed
  }

  /** An anchored search, once its anchor is suppressed, turns into one without anchor, which
      may turn into one anchored at a contact that is not suppressed. */
  ghost function Phase(w: Notes, anchor: int): nat {
    if anchor < 0 || anchor >= |w| then 1 else if w[anchor].suppressed then 2 else 0
  }

  ghost predicate AnchorLocal(contacts: seq<CXref>, localNode: nat, anchor: int) {
    anchor == ROOT || (0 <= anchor < |contacts| && contacts[anchor].fromNode == localNode)
  }

  /** The measure of the loop: unsuppressed local contacts, then phase, then unsuppressed ones. */
  ghost predicate Decreased(contacts: seq<CXref>, localNode: nat, w: Notes, anchor: int, w': Notes, anchor': int) {
    var free, free' := LocalFree(contacts, w, localNode), LocalFree(contacts, w', localNode);
    || free' < free
    || (free' == free && Phase(w', anchor') < Phase(w, anchor))
    || (free' == free && Phase(w', anchor') == Phase(w, anchor) && Free(w') < Free(w))
  }

  /** Only contact i's suppression changed: it began. */
  ghost predicate SuppressedOne(w: Notes, w': Notes, i: nat) {
    |w'| == |w| && i < |w| && forall j :: 0 <= j < |w| ==> w'[j].suppressed == (w[j].suppressed || j == i)
  }

  /** Suppression ended for all contacts but the local ones, and began for the anchor. */
  ghost predicate SearchEnded(contacts: seq<CXref>, localNode: nat, w: Notes, w': Notes, anchor: nat) {
    && |w'| == |w| == |contacts| && anchor < |w|
    && forall j :: 0 <= j < |w| ==> w'[j].suppressed == (j == anchor || (w[j].suppressed && contacts[j].fromNode == localNode))
  }

  /** Suppressing the limit of a route just recorded. */
  lemma RecordingDecreases(contacts: seq<CXref>, localNode: nat, w: Notes, w': Notes, anchor: int, anchor': int,
                           first: nat, limit: nat)
    requires |w| == |contacts| && SuppressedOne(w, w', limit)
    requires !w[limit].suppressed && first < |w| && !w[first].suppressed
    requires contacts[limit].fromNode == localNode <==> limit == first
    requires anchor == ROOT || anchor == first
    requires anchor' == if limit == first then anchor else first
    ensures Decreased(contacts, localNode, w, anchor, w', anchor')
  {
    assert limit in Free(w) && limit !in Free(w');
    if limit == first {
      assert first in LocalFree(contacts, w, localNode) && first !in LocalFree(contacts, w', localNode);
    }
  }

  lemma EndingDecreases(contacts: seq<CXref>, localNode: nat, w: Notes, w': Notes, anchor: nat)
    requires SearchEnded(contacts, localNode, w, w', anchor) && contacts[anchor].fromNode == localNode
    ensures Decreased(contacts, localNode, w, anchor, w', ROOT)
  {
    if !w[anchor].suppressed {
      assert anchor in LocalFree(contacts, w, localNode) && anchor !in LocalFree(contacts, w', localNode);
    }
  }

  // ---------------------------------------------------------- why no route is found twice

  /** A recorded route cannot be found again: its first hop is suppressed for good, or it is
      the anchor and one of the hops is suppressed as long as it is. */
  ghost predicate Barred(contacts: seq<CXref>, w: Notes, localNode: nat, anchor: int, hops: seq<CXref>) {
    && hops != [] && hops[0] in contacts && hops[0].fromNode == localNode
    && (SuppressedAt(contacts, w, hops[0]) || (anchor == IndexOf(contacts, hops[0]) && SomeSuppressed(contacts, w, hops)))
  }

  ghost predicate SomeSuppressed(contacts: seq<CXref>, w: Notes, hops: seq<CXref>) {
    exists k :: 0 <= k < |hops| && SuppressedAt(contacts, w, hops[k])
  }

  ghost predicate AllBarred(contacts: seq<CXref>, w: Notes, localNode: nat, anchor: int, routes: seq<CgrRoute>, payloadClass: int) {
    forall j :: 0 <= j < |routes| && routes[j].payloadClass == payloadClass ==>
      Barred(contacts, w, localNode, anchor, routes[j].hops)
  }

  lemma BarredDiffers(contacts: seq<CXref>, w: Notes, localNode: nat, anchor: int, hops: seq<CXref>, found: seq<CXref>)
    requires Barred(contacts, w, localNode, anchor, hops) && Follows(contacts, w, localNode, found)
    ensures hops != found
  {
  }

  /** Suppressing more, with the same anchor or the first one, keeps routes barred. */
  lemma BarredKept(contacts: seq<CXref>, localNode: nat, w: Notes, w': Notes, anchor: int, anchor': int, i: nat, hops: seq<CXref>)
    requires SuppressedOne(w, w', i) && (anchor == ROOT || anchor' == anchor)
    requires Barred(contacts, w, localNode, anchor, hops)
    ensures Barred(contacts, w', localNode, anchor', hops)
  {
    assert forall c :: SuppressedAt(contacts, w, c) ==> SuppressedAt(contacts, w', c);
  }

  lemma NewlyBarred(contacts: seq<CXref>, localNode: nat, w: Notes, w': Notes, anchor': int, hops: seq<CXref>, k: nat)
    requires Follows(contacts, w, localNode, hops) && k < |hops| && SuppressedOne(w, w', IndexOf(contacts, hops[k]))
    requires k == 0 || anchor' == IndexOf(contacts, hops[0])
    ensures Barred(contacts, w', localNode, anchor', hops)
  {
    assert SuppressedAt(contacts, w', hops[k]);
  }

  lemma BarredAfterEnd(contacts: seq<CXref>, localNode: nat, w: Notes, w': Notes, anchor: nat, hops: seq<CXref>)
    requires ContactsOrdered(contacts) && SearchEnded(contacts, localNode, w, w', anchor)
    requires Barred(contacts, w, localNode, anchor, hops)
    ensures Barred(contacts, w', localNode, ROOT, hops)
  {
    var i :| 0 <= i < |contacts| && contacts[i] == hops[0];
    IndexOfContact(contacts, i);
  }

  /** No two routes of a payload class have the same hops. */
  ghost predicate NoDuplicates(routes: seq<CgrRoute>) {
    forall i, j :: 0 <= i < j < |routes| && routes[i].payloadClass == routes[j].payloadClass ==>
      routes[i].hops != routes[j].hops
  }

  lemma RecordedOnce(contacts: seq<CXref>, w: Notes, localNode: nat, anchor: int, routes: seq<CgrRoute>, route: CgrRoute)
    requires NoDuplicates(routes) && AllBarred(contacts, w, localNode, anchor, routes, route.payloadClass)
    requires Follows(contacts, w, localNode, route.hops)
    ensures NoDuplicates(routes + [route])
  {
    forall i | 0 <= i < |routes| && routes[i].payloadClass == route.payloadClass
      ensures routes[i].hops != route.hops
    {
      BarredDiffers(contacts, w, localNode, anchor, routes[i].hops, route.hops);
    }
  }

  // ---------------------------------------------------------- what is found

  /** The contact is a hop of the route: its first, or one that ends no later than any other. */
  ghost predicate Excludable(route: CgrRoute, c: CXref) {
    && c in route.hops
    && (c == route.hops[0] || FirstToEnd(c, route.hops))
  }

  /** The i'th contact is such a hop of one of the routes. */
  ghost predicate Listed(contacts: seq<CXref>, routes: seq<CgrRoute>, i: nat) {
    i < |contacts| && exists r :: r in routes && Excludable(r, contacts[i])
  }

  /** The i'th contact is such a hop, of a route that starts with the anchor unless it is a local one. */
  ghost predicate ExcludedBy(contacts: seq<CXref>, localNode: nat, anchor: int, r: CgrRoute, i: nat) {
    && i < |contacts| && Excludable(r, contacts[i])
    && (contacts[i].fromNode == localNode || (0 <= anchor < |contacts| && r.hops[0] == contacts[anchor]))
  }

  ghost predicate Excluded(contacts: seq<CXref>, localNode: nat, anchor: int, routes: seq<CgrRoute>, i: nat) {
    exists r :: r in routes && ExcludedBy(contacts, localNode, anchor, r, i)
  }

  ghost predicate AllListed(contacts: seq<CXref>, routes: seq<CgrRoute>, suppressed: set<nat>) {
    forall i :: i in suppressed ==> Listed(contacts, routes, i)
  }

  /** The route is the best one for its payload class when some hops of earlier routes are
      suppressed, and nothing else. */
  ghost predicate Enumerated(contacts: seq<CXref>, ranges: seq<RXref>, localNode: nat, now: int, terminus: nat,
                             earlier: seq<CgrRoute>, route: CgrRoute) {
    exists suppressed: set<nat> :: AllListed(contacts, earlier, suppressed)
      && BestRoute(Problem(contacts, ranges, suppressed, MinCapacity(route.payloadClass), localNode, now), terminus, route)
  }

  ghost predicate AllEnumerated(contacts: seq<CXref>, ranges: seq<RXref>, localNode: nat, now: int, terminus: nat,
                                routes: seq<CgrRoute>) {
    forall j :: 0 <= j < |routes| ==> Enumerated(contacts, ranges, localNode, now, terminus, routes[..j], routes[j])
  }

  /** Routes are listed by ascending payload class. */
  ghost predicate ByClass(routes: seq<CgrRoute>, payloadClass: int) {
    forall r :: r in routes ==> 0 <= r.payloadClass <= payloadClass
  }

  ghost predicate NoneOf(routes: seq<CgrRoute>, payloadClass: int) {
    forall i :: 0 <= i < |routes| ==> routes[i].payloadClass != payloadClass
  }

  /** The i'th route is the first of its payload class. */
  ghost predicate FirstOf(routes: seq<CgrRoute>, payloadClass: int, i: nat) {
    i < |routes| && routes[i].payloadClass == payloadClass && NoneOf(routes[..i], payloadClass)
  }

  /** What there is to find for a payload class while no contact is suppressed. */
  ghost function Unrestricted(contacts: seq<CXref>, ranges: seq<RXref>, localNode: nat, now: int, payloadClass: int): Problem {
    Problem(contacts, ranges, {}, MinCapacity(payloadClass), localNode, now)
  }

  /** If the terminus can be reached at all, the first route of the payload class is a best one. */
  ghost predicate FirstIsBest(first: Problem, terminus: nat, routes: seq<CgrRoute>, payloadClass: int) {
    (exists path :: first.Reaches(path, terminus)) ==>
      exists i: nat :: FirstOf(routes, payloadClass, i) && BestRoute(first, terminus, routes[i])
  }

  ghost predicate FirstsAreBest(contacts: seq<CXref>, ranges: seq<RXref>, localNode: nat, now: int, terminus: nat,
                                routes: seq<CgrRoute>, classes: int) {
    forall c :: 0 <= c < classes ==> FirstIsBest(Unrestricted(contacts, ranges, localNode, now, c), terminus, routes, c)
  }

  lemma FirstStaysBest(first: Problem, terminus: nat, routes: seq<CgrRoute>, payloadClass: int, route: CgrRoute)
    requires FirstIsBest(first, terminus, routes, payloadClass)
             || (NoneOf(routes, payloadClass) && route.payloadClass == payloadClass && BestRoute(first, terminus, route))
    ensures FirstIsBest(first, terminus, routes + [route], payloadClass)
  {
    var routes' := routes + [route];
    if FirstIsBest(first, terminus, routes, payloadClass) {
      if path :| first.Reaches(path, terminus) {
        var i: nat :| FirstOf(routes, payloadClass, i) && BestRoute(first, terminus, routes[i]);
        assert routes'[..i] == routes[..i] && routes'[i] == routes[i];
      }
    } else {
      assert routes'[..|routes|] == routes && FirstOf(routes', payloadClass, |routes|);
    }
  }

  lemma FirstsStayBest(contacts: seq<CXref>, ranges: seq<RXref>, localNode: nat, now: int, terminus: nat,
                       routes: seq<CgrRoute>, classes: int, route: CgrRoute)
    requires FirstsAreBest(contacts, ranges, localNode, now, terminus, routes, classes)
    ensures FirstsAreBest(contacts, ranges, localNode, now, terminus, routes + [route], classes)
  {
    forall c | 0 <= c < classes
      ensures FirstIsBest(Unrestricted(contacts, ranges, localNode, now, c), terminus, routes + [route], c)
    {
      FirstStaysBest(Unrestricted(contacts, ranges, localNode, now, c), terminus, routes, c, route);
    }
  }

  /** The i'th contact is such a hop of a route of the payload class, or of a class before it, and
      the local node is where it starts, or the route starts with the anchor. */
  ghost predicate ListedUpTo(contacts: seq<CXref>, localNode: nat, anchor: int, routes: seq<CgrRoute>, payloadClass: int, i: nat) {
    i < |contacts| && exists r :: r in routes && r.payloadClass <= payloadClass && ExcludedBy(contacts, localNode, anchor, r, i)
  }

  ghost predicate MeetsListed(contacts: seq<CXref>, localNode: nat, anchor: int, routes: seq<CgrRoute>, payloadClass: int,
                              path: seq<nat>) {
    exists i :: i in path && ListedUpTo(contacts, localNode, anchor, routes, payloadClass, i)
  }

  ghost predicate AllMeetListed(first: Problem, terminus: nat, anchor: int, routes: seq<CgrRoute>, payloadClass: int) {
    forall path :: first.Reaches(path, terminus) ==>
      MeetsListed(first.contacts, first.source, anchor, routes, payloadClass, path)
  }

  /** For one anchor, every path to the terminus in the payload class shares a hop with a listed
      route: a local contact, or one that is the first to end of a route that starts with the anchor. */
  ghost predicate NoneLeft(first: Problem, terminus: nat, routes: seq<CgrRoute>, payloadClass: int) {
    exists anchor :: AllMeetListed(first, terminus, anchor, routes, payloadClass)
  }

  ghost predicate NoneLeftInClasses(contacts: seq<CXref>, ranges: seq<RXref>, localNode: nat, now: int, terminus: nat,
                                    routes: seq<CgrRoute>, classes: int) {
    forall c :: 0 <= c < classes ==> NoneLeft(Unrestricted(contacts, ranges, localNode, now, c), terminus, routes, c)
  }

  lemma MoreListed(contacts: seq<CXref>, localNode: nat, anchor: int, routes: seq<CgrRoute>, route: CgrRoute, payloadClass: int,
                   path: seq<nat>)
    requires MeetsListed(contacts, localNode, anchor, routes, payloadClass, path)
    ensures MeetsListed(contacts, localNode, anchor, routes + [route], payloadClass, path)
  {
    var i :| i in path && ListedUpTo(contacts, localNode, anchor, routes, payloadClass, i);
    var r :| r in routes && r.payloadClass <= payloadClass && ExcludedBy(contacts, localNode, anchor, r, i);
    assert r in routes + [route];
    assert ListedUpTo(contacts, localNode, anchor, routes + [route], payloadClass, i);
  }

  lemma StillNoneLeft(contacts: seq<CXref>, ranges: seq<RXref>, localNode: nat, now: int, terminus: nat,
                      routes: seq<CgrRoute>, classes: int, route: CgrRoute)
    requires NoneLeftInClasses(contacts, ranges, localNode, now, terminus, routes, classes)
    ensures NoneLeftInClasses(contacts, ranges, localNode, now, terminus, routes + [route], classes)
  {
    forall c | 0 <= c < classes
      ensures NoneLeft(Unrestricted(contacts, ranges, localNode, now, c), terminus, routes + [route], c)
    {
      var first := Unrestricted(contacts, ranges, localNode, now, c);
      var anchor :| AllMeetListed(first, terminus, anchor, routes, c);
      forall path | first.Reaches(path, terminus)
        ensures MeetsListed(contacts, localNode, anchor, routes + [route], c, path)
      {
        MoreListed(contacts, localNode, anchor, routes, route, c, path);
      }
      assert AllMeetListed(first, terminus, anchor, routes + [route], c);
    }
  }

  /** If only hops of listed routes are suppressed, a search without result leaves nothing. */
  lemma ExhaustedLeavesNone(first: Problem, terminus: nat, w: Notes, anchor: int, routes: seq<CgrRoute>, payloadClass: int)
    requires OnlyListed(first.contacts, w, first.source, anchor, routes) && ByClass(routes, payloadClass)
    requires forall path :: !first.(suppressed := SuppressedIn(w)).Reaches(path, terminus)
    ensures NoneLeft(first, terminus, routes, payloadClass)
  {
    var p := first.(suppressed := SuppressedIn(w));
    forall path | first.Reaches(path, terminus)
      ensures MeetsListed(first.contacts, first.source, anchor, routes, payloadClass, path)
    {
      if forall i :: i in path ==> i !in p.suppressed {
        OtherSuppressed(first, p, path);
        assert p.Reaches(path, terminus);
        assert false;
      }
      var i :| i in path && i in p.suppressed;
      assert Excluded(first.contacts, first.source, anchor, routes, i);
      assert ListedUpTo(first.contacts, first.source, anchor, routes, payloadClass, i);
    }
    assert AllMeetListed(first, terminus, anchor, routes, payloadClass);
  }

  /** Some path that the suppressions allow arrives as early as any that they do not. */
  ghost predicate StillBest(first: Problem, p: Problem, terminus: nat) {
    exists path :: p.Reaches(path, terminus) && AsEarly(first, terminus, p.EndTime(path))
  }

  ghost predicate AsEarly(p: Problem, terminus: nat, time: int) {
    forall path :: p.Reaches(path, terminus) ==> time <= p.EndTime(path)
  }

  /** Then what is best under the suppressions is best without them. */
  lemma BestOfAll(first: Problem, p: Problem, terminus: nat, route: CgrRoute)
    requires first.suppressed == {} && p == first.(suppressed := p.suppressed)
    requires StillBest(first, p, terminus) && BestRoute(p, terminus, route)
    ensures BestRoute(first, terminus, route)
  {
    var path :| Describes(p, route, path) && p.Reaches(path, terminus);
    OtherSuppressed(p, first, path);
    assert Describes(first, route, path) && first.Reaches(path, terminus);
    var best :| p.Reaches(best, terminus) && AsEarly(first, terminus, p.EndTime(best));
    forall other | first.Reaches(other, terminus)
      ensures route.arrivalTime <= first.EndTime(other)
    {
    }
  }

  /** A best route that does not start with a local contact does without that contact. */
  lemma AnchorNotNeeded(first: Problem, p: Problem, terminus: nat, route: CgrRoute, anchor: nat)
    requires p == first.(suppressed := {anchor}) && BestRoute(first, terminus, route)
    requires ContactsOrdered(first.contacts) && anchor < |first.contacts| && first.contacts[anchor].fromNode == first.source
    requires route.hops != [] && IndexOf(first.contacts, route.hops[0]) != anchor
    ensures StillBest(first, p, terminus)
  {
    var path :| Describes(first, route, path) && first.Reaches(path, terminus);
    FirstLeavesSource(first, path);
    forall k | 0 <= k < |path|
      ensures path[k] != anchor
    {
      assert path[k] in path && route.hops[k] == first.contacts[path[k]] && route.hops[0].fromNode == first.source;
      if k == 0 {
        IndexOfContact(first.contacts, path[0]);
      }
    }
    OtherSuppressed(first, p, path);
    assert p.Reaches(path, terminus) && AsEarly(first, terminus, p.EndTime(path));
  }

  lemma RouteEnumerated(contacts: seq<CXref>, ranges: seq<RXref>, localNode: nat, now: int, terminus: nat,
                        routes: seq<CgrRoute>, route: CgrRoute, p: Problem)
    requires AllEnumerated(contacts, ranges, localNode, now, terminus, routes) && BestRoute(p, terminus, route)
    requires p == Problem(contacts, ranges, p.suppressed, MinCapacity(route.payloadClass), localNode, now)
    requires AllListed(contacts, routes, p.suppressed)
    ensures AllEnumerated(contacts, ranges, localNode, now, terminus, routes + [route])
  {
    var routes' := routes + [route];
    forall j | 0 <= j < |routes'|
      ensures Enumerated(contacts, ranges, localNode, now, terminus, routes'[..j], routes'[j])
    {
      assert routes'[..j] == routes[..j];
      assert j < |routes| ==> Enumerated(contacts, ranges, localNode, now, terminus, routes[..j], routes[j]);
      assert j == |routes| ==> routes[..j] == routes;
    }
  }

  // ---------------------------------------------------------- clearing notes

  function Renewed(note: ContactNote): ContactNote {
    ContactNote(NO_PREDECESSOR, note.capacity, MAX_TIME, false, note.suppressed)
  }

  function Released(note: ContactNote): ContactNote {
    ContactNote(NO_PREDECESSOR, note.capacity, MAX_TIME, false, false)
  }

  /** Some hop ends when the route does, unless all outlast the end of time. */
  lemma LimitExists(hops: seq<CXref>)
    requires forall h :: h in hops ==> h.toTime != EarliestEnd(hops)
    ensures EarliestEnd(hops) == MAX_TIME && forall h :: h in hops ==> h.toTime > MAX_TIME
  {
    EarliestEndIsLeast(hops);
  }

  // ---------------------------------------------------------- the loop's invariant

  /** The suppressed contacts, and the anchor, are hops of routes listed; those that are not local,
      of routes that start with the anchor. */
  ghost predicate OnlyListed(contacts: seq<CXref>, w: Notes, localNode: nat, anchor: int, routes: seq<CgrRoute>) {
    && (forall i :: i in SuppressedIn(w) ==> Excluded(contacts, localNode, anchor, routes, i))
    && (anchor >= 0 ==> Listed(contacts, routes, anchor))
  }

  lemma SuppressedListed(contacts: seq<CXref>, w: Notes, localNode: nat, anchor: int, routes: seq<CgrRoute>)
    requires OnlyListed(contacts, w, localNode, anchor, routes)
    ensures AllListed(contacts, routes, SuppressedIn(w))
  {
    forall i | i in SuppressedIn(w)
      ensures Listed(contacts, routes, i)
    {
      var r :| r in routes && ExcludedBy(contacts, localNode, anchor, r, i);
    }
  }

  /** What holds before each search for a payload class. */
  ghost predicate Loading(contacts: seq<CXref>, ranges: seq<RXref>, localNode: nat, now: int, terminus: nat,
                          w: Notes, anchor: int, routes: seq<CgrRoute>, payloadClass: int) {
    && |w| == |contacts| && AnchorLocal(contacts, localNode, anchor) && OnlyListed(contacts, w, localNode, anchor, routes)
    && NoDuplicates(routes) && AllBarred(contacts, w, localNode, anchor, routes, payloadClass)
    && AllEnumerated(contacts, ranges, localNode, now, terminus, routes) && ByClass(routes, payloadClass)
    && FirstsAreBest(contacts, ranges, localNode, now, terminus, routes, payloadClass)
    && NoneLeftInClasses(contacts, ranges, localNode, now, terminus, routes, payloadClass)
  }

  lemma MoreExcluded(contacts: seq<CXref>, localNode: nat, anchor: int, routes: seq<CgrRoute>, route: CgrRoute, i: nat)
    requires Excluded(contacts, localNode, anchor, routes, i)
    ensures Excluded(contacts, localNode, anchor, routes + [route], i)
  {
    var r :| r in routes && ExcludedBy(contacts, localNode, anchor, r, i);
    assert r in routes + [route];
  }

  lemma NewlyExcluded(contacts: seq<CXref>, localNode: nat, anchor: int, routes: seq<CgrRoute>, route: CgrRoute, i: nat)
    requires ExcludedBy(contacts, localNode, anchor, route, i)
    ensures Excluded(contacts, localNode, anchor, routes + [route], i) && Listed(contacts, routes + [route], i)
  {
    assert (routes + [route])[|routes|] == route;
  }

  lemma RecordListed(contacts: seq<CXref>, w: Notes, w': Notes, anchor: int, anchor': int, localNode: nat,
                     routes: seq<CgrRoute>, route: CgrRoute, k: nat)
    requires ContactsOrdered(contacts) && |w| == |contacts| && OnlyListed(contacts, w, localNode, anchor, routes)
    requires Follows(contacts, w, localNode, route.hops) && k < |route.hops|
    requires FirstToEnd(route.hops[k], route.hops)
    requires SuppressedOne(w, w', IndexOf(contacts, route.hops[k]))
    requires anchor == ROOT || anchor == IndexOf(contacts, route.hops[0])
    requires anchor' == if k == 0 then anchor else IndexOf(contacts, route.hops[0])
    ensures OnlyListed(contacts, w', localNode, anchor', routes + [route])
  {
    HopIndex(contacts, w, localNode, route.hops, k);
    HopIndex(contacts, w, localNode, route.hops, 0);
    NewlyExcluded(contacts, localNode, anchor', routes, route, IndexOf(contacts, route.hops[0]));
    NewlyExcluded(contacts, localNode, anchor', routes, route, IndexOf(contacts, route.hops[k]));
    forall i | i in SuppressedIn(w)
      ensures Excluded(contacts, localNode, anchor', routes + [route], i)
    {
      assert Excluded(contacts, localNode, anchor, routes, i);
      AnchorStays(contacts, localNode, anchor, anchor', routes, i);
      MoreExcluded(contacts, localNode, anchor', routes, route, i);
    }
  }

  lemma AnchorStays(contacts: seq<CXref>, localNode: nat, anchor: int, anchor': int, routes: seq<CgrRoute>, i: nat)
    requires Excluded(contacts, localNode, anchor, routes, i) && (anchor == ROOT || anchor' == anchor)
    ensures Excluded(contacts, localNode, anchor', routes, i)
  {
    var r :| r in routes && ExcludedBy(contacts, localNode, anchor, r, i);
    assert ExcludedBy(contacts, localNode, anchor', r, i);
  }

  lemma EndedListed(contacts: seq<CXref>, localNode: nat, w: Notes, w': Notes, anchor: nat, routes: seq<CgrRoute>)
    requires SearchEnded(contacts, localNode, w, w', anchor) && OnlyListed(contacts, w, localNode, anchor, routes)
    requires AnchorLocal(contacts, localNode, anchor)
    ensures OnlyListed(contacts, w', localNode, ROOT, routes)
  {
    forall i | i in SuppressedIn(w')
      ensures Excluded(contacts, localNode, ROOT, routes, i)
    {
      if i == anchor {
        var r :| r in routes && Excludable(r, contacts[i]);
        assert ExcludedBy(contacts, localNode, ROOT, r, i);
      } else {
        assert i in SuppressedIn(w);
        var r :| r in routes && ExcludedBy(contacts, localNode, anchor, r, i);
        assert ExcludedBy(contacts, localNode, ROOT, r, i);
      }
    }
  }

  ghost predicate Progress(contacts: seq<CXref>, ranges: seq<RXref>, localNode: nat, now: int, terminus: nat,
                           w: Notes, anchor: int, w': Notes, anchor': int, routes: seq<CgrRoute>, payloadClass: int) {
    && Loading(contacts, ranges, localNode, now, terminus, w', anchor', routes, payloadClass)
    && Decreased(contacts, localNode, w, anchor, w', anchor')
  }

  datatype LoadStatus = More | Done | Failed

  /** The class's first route is still to come, and nothing keeps it from being a best one; or
      it is listed. */
  ghost predicate Begun(first: Problem, terminus: nat, w: Notes, anchor: int, routes: seq<CgrRoute>, payloadClass: int) {
    || (NoneOf(routes, payloadClass)
        && (SuppressedIn(w) == {} || (anchor == ROOT && StillBest(first, first.(suppressed := SuppressedIn(w)), terminus))))
    || FirstIsBest(first, terminus, routes, payloadClass)
  }

  /** The k'th hop is the first that ends when the route shuts down. */
  ghost predicate LimitAt(route: CgrRoute, k: nat) {
    && k < |route.hops| && route.hops[k].toTime == route.toTime
    && forall j :: 0 <= j < k ==> route.hops[j].toTime != route.toTime
  }

  /** A route was recorded and its limit excluded; the first hop is the anchor unless it is the
      limit itself. */
  ghost predicate Limited(contacts: seq<CXref>, w: Notes, anchor: int, w': Notes, anchor': int, route: CgrRoute, k: nat) {
    && LimitAt(route, k) && SuppressedOne(w, w', IndexOf(contacts, route.hops[k]))
    && anchor' == if k == 0 then anchor else IndexOf(contacts, route.hops[0])
  }

  ghost predicate FirstToEnd(c: CXref, hops: seq<CXref>) {
    c in hops && forall h :: h in hops ==> c.toTime <= h.toTime
  }

  /** Only a hop that ends no later than any other is newly suppressed, and a new anchor is the
      first hop, if that ends later. */
  ghost predicate ExcludedFirstToEnd(contacts: seq<CXref>, w: Notes, w': Notes, anchor: int, anchor': int, hops: seq<CXref>) {
    && |w'| == |w| == |contacts| && hops != []
    && (exists i :: 0 <= i < |w| && w'[i].suppressed && !w[i].suppressed)
    && (forall i :: 0 <= i < |w| && w'[i].suppressed && !w[i].suppressed ==> FirstToEnd(contacts[i], hops))
    && (anchor' != anchor ==> 0 <= anchor' < |contacts| && contacts[anchor'] == hops[0] && !FirstToEnd(hops[0], hops))
  }

  lemma LimitFirstToEnd(contacts: seq<CXref>, w: Notes, w': Notes, anchor: int, anchor': int, hops: seq<CXref>, limit: nat)
    requires |w| == |contacts| && limit < |w| && !w[limit].suppressed && hops != [] && FirstToEnd(contacts[limit], hops)
    requires SuppressedOne(w, w', limit)
    requires anchor' != anchor ==> 0 <= anchor' < |contacts| && contacts[anchor'] == hops[0] && hops[0].toTime > contacts[limit].toTime
    ensures ExcludedFirstToEnd(contacts, w, w', anchor, anchor', hops)
  {
    assert w'[limit].suppressed;
  }

  /** No route is left to be found for a payload class. */
  ghost predicate Exhausted(contacts: seq<CXref>, ranges: seq<RXref>, localNode: nat, now: int, terminus: nat, w: Notes,
                            payloadClass: int) {
    forall path :: !Problem(contacts, ranges, SuppressedIn(w), MinCapacity(payloadClass), localNode, now).Reaches(path, terminus)
  }

  /** What a search leads to: the end of the class if there is no route, the end of an anchored
      search if the best route does not begin with the anchor, and else a recorded route. */
  ghost predicate Transition(status: LoadStatus, p: Problem, terminus: nat, w: Notes, anchor: int, routes: seq<CgrRoute>,
                             w': Notes, anchor': int, routes': seq<CgrRoute>, route: CgrRoute, k: nat) {
    if status == Done then
      (forall path :: !p.Reaches(path, terminus)) && SameSuppressed(w, w') && routes' == routes && anchor' == anchor
    else
      && BestRoute(p, terminus, route) && route.hops != []
      && if anchor >= 0 && IndexOf(p.contacts, route.hops[0]) != anchor then
           SearchEnded(p.contacts, p.source, w, w', anchor) && routes' == routes && anchor' == ROOT
         else
           routes' == routes + [route] && (status == More ==> Limited(p.contacts, w, anchor, w', anchor', route, k))
  }

  lemma SameSuppressedIn(w: Notes, w': Notes)
    requires SameSuppressed(w, w')
    ensures SuppressedIn(w) == SuppressedIn(w')
  {
  }

  /** The step from one search to the next, or to the end of the class. */
  ghost predicate Loaded(status: LoadStatus, first: Problem, terminus: nat, w: Notes, anchor: int, routes: seq<CgrRoute>,
                         w': Notes, anchor': int, routes': seq<CgrRoute>, payloadClass: int) {
    if status == Done then
      routes' == routes && anchor' == anchor && FirstIsBest(first, terminus, routes, payloadClass)
    else
      && Cleared(first.contacts, w') && Begun(first, terminus, w', anchor', routes', payloadClass)
      && Progress(first.contacts, first.ranges, first.source, first.now, terminus, w, anchor, w', anchor', routes', payloadClass)
  }

  /** What a route list holds once its classes up to a given one are loaded. */
  ghost predicate RouteList(contacts: seq<CXref>, ranges: seq<RXref>, localNode: nat, now: int, terminus: nat,
                            routes: seq<CgrRoute>, payloadClass: int) {
    && NoDuplicates(routes) && AllEnumerated(contacts, ranges, localNode, now, terminus, routes) && ByClass(routes, payloadClass)
    && FirstsAreBest(contacts, ranges, localNode, now, terminus, routes, payloadClass + 1)
    && NoneLeftInClasses(contacts, ranges, localNode, now, terminus, routes, payloadClass + 1)
  }

  /** What a class starts from: the lists of the classes before it. */
  ghost predicate Carried(contacts: seq<CXref>, ranges: seq<RXref>, localNode: nat, now: int, terminus: nat,
                          routes: seq<CgrRoute>, anchor: int, payloadClass: int) {
    && AnchorLocal(contacts, localNode, anchor) && (anchor >= 0 ==> Listed(contacts, routes, anchor))
    && RouteList(contacts, ranges, localNode, now, terminus, routes, payloadClass - 1)
  }

  lemma StartClass(contacts: seq<CXref>, ranges: seq<RXref>, localNode: nat, now: int, terminus: nat,
                   routes: seq<CgrRoute>, anchor: int, payloadClass: nat, w: Notes)
    requires Carried(contacts, ranges, localNode, now, terminus, routes, anchor, payloadClass)
    requires |w| == |contacts| && SuppressedIn(w) == {}
    ensures Loading(contacts, ranges, localNode, now, terminus, w, anchor, routes, payloadClass)
    ensures Begun(Unrestricted(contacts, ranges, localNode, now, payloadClass), terminus, w, anchor, routes, payloadClass)
  {
    forall j | 0 <= j < |routes|
      ensures routes[j].payloadClass < payloadClass
    {
      assert routes[j] in routes;
    }
  }

  lemma EndClass(contacts: seq<CXref>, ranges: seq<RXref>, localNode: nat, now: int, terminus: nat,
                 routes: seq<CgrRoute>, anchor: int, payloadClass: nat, w: Notes)
    requires Loading(contacts, ranges, localNode, now, terminus, w, anchor, routes, payloadClass)
    requires FirstIsBest(Unrestricted(contacts, ranges, localNode, now, payloadClass), terminus, routes, payloadClass)
    requires Exhausted(contacts, ranges, localNode, now, terminus, w, payloadClass)
    ensures Carried(contacts, ranges, localNode, now, terminus, routes, anchor, payloadClass + 1)
  {
    ExhaustedLeavesNone(Unrestricted(contacts, ranges, localNode, now, payloadClass), terminus, w, anchor, routes, payloadClass);
  }

  /** A search without result leaves nothing to be found. */
  lemma NoFirst(first: Problem, p: Problem, terminus: nat, w: Notes, anchor: int, routes: seq<CgrRoute>, payloadClass: int)
    requires Begun(first, terminus, w, anchor, routes, payloadClass) && first.suppressed == {}
    requires p == first.(suppressed := SuppressedIn(w)) && forall path :: !p.Reaches(path, terminus)
    ensures FirstIsBest(first, terminus, routes, payloadClass)
  {
  }

  /** A route recorded is a best one if it is the first of its class. */
  lemma FirstRecorded(first: Problem, p: Problem, terminus: nat, w: Notes, anchor: int, routes: seq<CgrRoute>, route: CgrRoute)
    requires Begun(first, terminus, w, anchor, routes, route.payloadClass) && first.suppressed == {}
    requires p == first.(suppressed := SuppressedIn(w)) && BestRoute(p, terminus, route)
    ensures FirstIsBest(first, terminus, routes + [route], route.payloadClass)
  {
    if !FirstIsBest(first, terminus, routes, route.payloadClass) && SuppressedIn(w) != {} {
      BestOfAll(first, p, terminus, route);
    }
    FirstStaysBest(first, terminus, routes, route.payloadClass, route);
  }

  /** A route dropped because it does not start with the anchor is found again, or one as good. */
  lemma FirstPostponed(first: Problem, p: Problem, terminus: nat, w: Notes, w': Notes, anchor: nat,
                       routes: seq<CgrRoute>, route: CgrRoute)
    requires Begun(first, terminus, w, anchor, routes, route.payloadClass) && first.suppressed == {}
    requires p == first.(suppressed := SuppressedIn(w)) && BestRoute(p, terminus, route) && route.hops != []
    requires ContactsOrdered(first.contacts) && AnchorLocal(first.contacts, first.source, anchor)
    requires IndexOf(first.contacts, route.hops[0]) != anchor && SearchEnded(first.contacts, first.source, w, w', anchor)
    ensures Begun(first, terminus, w', ROOT, routes, route.payloadClass)
  {
    if !FirstIsBest(first, terminus, routes, route.payloadClass) {
      assert p == first;
      AnchorNotNeeded(first, first.(suppressed := {anchor}), terminus, route, anchor);
      forall i: nat
        ensures i in SuppressedIn(w') <==> i == anchor
      {
        assert i < |w| && w[i].suppressed ==> i in SuppressedIn(w);
      }
      assert SuppressedIn(w') == {anchor};
    }
  }

  lemma FollowsSame(contacts: seq<CXref>, w: Notes, w': Notes, localNode: nat, hops: seq<CXref>)
    requires Follows(contacts, w, localNode, hops) && SameSuppressed(w, w')
    ensures Follows(contacts, w', localNode, hops)
  {
  }

  lemma SuppressedVia(w: Notes, w1: Notes, w': Notes, i: nat)
    requires SameSuppressed(w, w1) && SuppressedOne(w1, w', i)
    ensures SuppressedOne(w, w', i)
  {
  }

  lemma HopIndex(contacts: seq<CXref>, w: Notes, localNode: nat, hops: seq<CXref>, k: nat)
    requires ContactsOrdered(contacts) && |w| == |contacts| && Follows(contacts, w, localNode, hops) && k < |hops|
    ensures var i := IndexOf(contacts, hops[k]); i < |w| && !w[i].suppressed && contacts[i] == hops[k]
  {
    var i :| 0 <= i < |contacts| && contacts[i] == hops[k];
    IndexOfContact(contacts, i);
  }

  lemma RecordBarred(contacts: seq<CXref>, localNode: nat, w: Notes, w': Notes, anchor: int, anchor': int,
                     routes: seq<CgrRoute>, route: CgrRoute, k: nat)
    requires AllBarred(contacts, w, localNode, anchor, routes, route.payloadClass)
    requires Follows(contacts, w, localNode, route.hops) && k < |route.hops|
    requires SuppressedOne(w, w', IndexOf(contacts, route.hops[k])) && (anchor == ROOT || anchor' == anchor)
    requires k == 0 || anchor' == IndexOf(contacts, route.hops[0])
    ensures AllBarred(contacts, w', localNode, anchor', routes + [route], route.payloadClass)
  {
    NewlyBarred(contacts, localNode, w, w', anchor', route.hops, k);
    forall j | 0 <= j < |routes| && routes[j].payloadClass == route.payloadClass
      ensures Barred(contacts, w', localNode, anchor', routes[j].hops)
    {
      BarredKept(contacts, localNode, w, w', anchor, anchor', IndexOf(contacts, route.hops[k]), routes[j].hops);
    }
  }

  lemma RecordStep(contacts: seq<CXref>, ranges: seq<RXref>, localNode: nat, now: int, terminus: nat, w: Notes, w': Notes,
                   anchor: int, anchor': int, routes: seq<CgrRoute>, route: CgrRoute, k: nat, p: Problem)
    requires ContactsOrdered(contacts) && route.payloadClass >= 0
    requires Loading(contacts, ranges, localNode, now, terminus, w, anchor, routes, route.payloadClass)
    requires BestRoute(p, terminus, route)
    requires p == Problem(contacts, ranges, SuppressedIn(w), MinCapacity(route.payloadClass), localNode, now)
    requires Follows(contacts, w, localNode, route.hops) && k < |route.hops|
    requires FirstToEnd(route.hops[k], route.hops)
    requires SuppressedOne(w, w', IndexOf(contacts, route.hops[k]))
    requires anchor == ROOT || anchor == IndexOf(contacts, route.hops[0])
    requires anchor' == if k == 0 then anchor else IndexOf(contacts, route.hops[0])
    ensures Loading(contacts, ranges, localNode, now, terminus, w', anchor', routes + [route], route.payloadClass)
    ensures Decreased(contacts, localNode, w, anchor, w', anchor')
  {
    HopIndex(contacts, w, localNode, route.hops, 0);
    HopIndex(contacts, w, localNode, route.hops, k);
    RecordBarred(contacts, localNode, w, w', anchor, anchor', routes, route, k);
    RecordListed(contacts, w, w', anchor, anchor', localNode, routes, route, k);
    FirstsStayBest(contacts, ranges, localNode, now, terminus, routes, route.payloadClass, route);
    StillNoneLeft(contacts, ranges, localNode, now, terminus, routes, route.payloadClass, route);
    RecordedOnce(contacts, w, localNode, anchor, routes, route);
    SuppressedListed(contacts, w, localNode, anchor, routes);
    RouteEnumerated(contacts, ranges, localNode, now, terminus, routes, route, p);
    RecordingDecreases(contacts, localNode, w, w', anchor, anchor',
                       IndexOf(contacts, route.hops[0]), IndexOf(contacts, route.hops[k]));
  }

  lemma EndStep(contacts: seq<CXref>, ranges: seq<RXref>, localNode: nat, now: int, terminus: nat, w: Notes, w': Notes,
                anchor: nat, routes: seq<CgrRoute>, payloadClass: int)
    requires ContactsOrdered(contacts) && SearchEnded(contacts, localNode, w, w', anchor)
    requires Loading(contacts, ranges, localNode, now, terminus, w, anchor, routes, payloadClass)
    ensures Loading(contacts, ranges, localNode, now, terminus, w', ROOT, routes, payloadClass)
    ensures Decreased(contacts, localNode, w, anchor, w', ROOT)
  {
    forall j | 0 <= j < |routes| && routes[j].payloadClass == payloadClass
      ensures Barred(contacts, w', localNode, ROOT, routes[j].hops)
    {
      BarredAfterEnd(contacts, localNode, w, w', anchor, routes[j].hops);
    }
    EndedListed(contacts, localNode, w, w', anchor, routes);
    EndingDecreases(contacts, localNode, w, w', anchor);
  }
}
