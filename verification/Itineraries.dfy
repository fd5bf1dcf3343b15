/** What a search looks for, in terms of hops and times alone: an account of feasible journeys
    that does not depend on how the search is described, and its agreement with that. */
module Itineraries {
  import opened ContactPlan
  import opened ContactGraph
  import opened SearchSteps
  import opened AnchoredSearch

  /** A hop, its one-way light time, and when data that takes it has arrived. */
  datatype Leg = Leg(hop: CXref, owlt: nat, arrival: int)

  predicate Spans(r: RXref, c: CXref) {
    r.fromNode == c.fromNode && r.toNode == c.toNode && 0 <= r.fromTime <= c.fromTime <= r.toTime
  }

  /** The light time is that of the earliest-starting range of the pair in which the contact begins. */
  ghost predicate InRange(ranges: seq<RXref>, c: CXref, owlt: nat) {
    exists r :: r in ranges && Spans(r, c) && r.owlt == owlt && forall q :: q in ranges && Spans(q, c) ==> r.fromTime <= q.fromTime
  }

  /** The k'th leg takes a contact of the plan that is large enough and not barred, where the one
      before has led to; the contact ends after the data is there, and the data is under way for
      the light time and an allowance for 41 miles of movement per second. */
  ghost predicate Continues(contacts: seq<CXref>, ranges: seq<RXref>, barred: set<CXref>, floor: nat, now: int,
                            legs: seq<Leg>, k: nat)
    requires k < |legs|
  {
    var hop, owlt, arrival := legs[k].hop, legs[k].owlt, legs[k].arrival;
    var ready := if k == 0 then now else legs[k - 1].arrival;
    && hop in contacts && hop !in barred && hop.xmitRate * (hop.toTime - hop.fromTime) >= floor
    && (k > 0 ==> hop.fromNode == legs[k - 1].hop.toNode)
    && InRange(ranges, hop, owlt) && hop.toTime > ready
    && arrival == (if hop.fromTime > ready then hop.fromTime else ready) + owlt + 41 * owlt / 186282
    && arrival < 2147483647
  }

  ghost predicate Itinerary(contacts: seq<CXref>, ranges: seq<RXref>, barred: set<CXref>, floor: nat, source: nat, now: int,
                            terminus: nat, legs: seq<Leg>) {
    && legs != [] && legs[0].hop.fromNode == source && legs[|legs| - 1].hop.toNode == terminus
    && forall k :: 0 <= k < |legs| ==> Continues(contacts, ranges, barred, floor, now, legs, k)
  }

  ghost predicate Takes(legs: seq<Leg>, hops: seq<CXref>) {
    |legs| == |hops| && forall k :: 0 <= k < |legs| ==> legs[k].hop == hops[k]
  }

  ghost function RuledOut(p: Problem): set<CXref> {
    set i | i in p.suppressed && i < |p.contacts| :: p.contacts[i]
  }

  /** The journeys that are to be considered for a problem. */
  ghost predicate Journey(p: Problem, terminus: nat, legs: seq<Leg>) {
    Itinerary(p.contacts, p.ranges, RuledOut(p), p.floor, p.source, p.now, terminus, legs)
  }

  // ---------------------------------------------------------- agreement with the search

  lemma RangeAgrees(ranges: seq<RXref>, c: CXref, owlt: nat)
    requires RangesOrdered(ranges)
    ensures ApplicableRange(ranges, c) == Some(owlt) <==> InRange(ranges, c, owlt)
  {
    ApplicableRangeIsEarliest(ranges, c);
    assert forall r :: Spans(r, c) <==> Serves(r, c);
    if InRange(ranges, c, owlt) {
      var r :| r in ranges && Spans(r, c) && r.owlt == owlt && forall q :: q in ranges && Spans(q, c) ==> r.fromTime <= q.fromTime;
      var s :| s in ranges && Serves(s, c) && ApplicableRange(ranges, c) == Some(s.owlt)
               && forall q :: q in ranges && Serves(q, c) ==> s.fromTime <= q.fromTime;
      SameKeySameRange(ranges, r, s);
    }
  }

  lemma SameKeySameRange(ranges: seq<RXref>, r: RXref, s: RXref)
    requires RangesOrdered(ranges) && r in ranges && s in ranges && RangeKey(r) == RangeKey(s)
    ensures r == s
  {
    var i :| 0 <= i < |ranges| && ranges[i] == r;
    var j :| 0 <= j < |ranges| && ranges[j] == s;
    assert RangeKeys(ranges)[i] == RangeKeys(ranges)[j];
  }

  lemma SameContactSameIndex(contacts: seq<CXref>, i: nat, j: nat)
    requires ContactsOrdered(contacts) && i < |contacts| && j < |contacts| && contacts[i] == contacts[j]
    ensures i == j
  {
    assert ContactKeys(contacts)[i] == ContactKeys(contacts)[j];
  }

  lemma NotBarred(p: Problem, i: nat)
    requires ContactsOrdered(p.contacts) && i < |p.contacts|
    ensures p.contacts[i] in RuledOut(p) <==> i in p.suppressed
  {
    if p.contacts[i] in RuledOut(p) {
      var j :| j in p.suppressed && j < |p.contacts| && p.contacts[j] == p.contacts[i];
      SameContactSameIndex(p.contacts, i, j);
    }
  }

  /** A contact is usable exactly if a leg can take it. */
  lemma UsableAgrees(p: Problem, i: nat, owlt: nat)
    requires ContactsOrdered(p.contacts) && RangesOrdered(p.ranges) && i < |p.contacts|
    ensures p.Usable(i) && p.Owlt(i) == Some(owlt) <==>
      var hop := p.contacts[i];
      hop !in RuledOut(p) && hop.xmitRate * (hop.toTime - hop.fromTime) >= p.floor && InRange(p.ranges, hop, owlt)
  {
    NotBarred(p, i);
    RangeAgrees(p.ranges, p.contacts[i], owlt);
  }

  lemma LegsExtended(p: Problem, legs: seq<Leg>, leg: Leg, longer: seq<Leg>)
    requires longer == legs + [leg] && forall k :: 0 <= k < |legs| ==> Continues(p.contacts, p.ranges, RuledOut(p), p.floor, p.now, legs, k)
    requires Continues(p.contacts, p.ranges, RuledOut(p), p.floor, p.now, longer, |legs|)
    ensures forall k :: 0 <= k < |longer| ==> Continues(p.contacts, p.ranges, RuledOut(p), p.floor, p.now, longer, k)
  {
    forall k | 0 <= k < |legs|
      ensures Continues(p.contacts, p.ranges, RuledOut(p), p.floor, p.now, longer, k)
    {
      assert Continues(p.contacts, p.ranges, RuledOut(p), p.floor, p.now, legs, k);
      assert longer[k] == legs[k] && (k > 0 ==> longer[k - 1] == legs[k - 1]);
    }
  }

  /** Every feasible path is a journey. */
  lemma {:induction false} PathIsJourney(p: Problem, path: seq<nat>) returns (legs: seq<Leg>)
    requires ContactsOrdered(p.contacts) && RangesOrdered(p.ranges) && p.Feasible(path) && path != []
    ensures Journey(p, p.EndNode(path), legs) && legs[|legs| - 1].arrival == p.EndTime(path)
    ensures |legs| == |path| && forall k :: 0 <= k < |path| ==> path[k] < |p.contacts| && legs[k].hop == p.contacts[path[k]]
  {
    var q, i := path[..|path| - 1], path[|path| - 1];
    var before: seq<Leg> := [];
    if q != [] {
      before := PathIsJourney(p, q);
      assert q[|q| - 1] in q;
    }
    assert i in path && p.Usable(i);
    var owlt := p.Owlt(i).value;
    UsableAgrees(p, i, owlt);
    var leg := Leg(p.contacts[i], owlt, p.EndTime(path));
    legs := before + [leg];
    MarginIs(owlt);
    assert p.EndTime(path) == p.Arrival(i, p.EndTime(q));
    LegsExtended(p, before, leg, legs);
  }

  lemma MarginIs(owlt: nat)
    ensures Margin(owlt) == 41 * owlt / 186282
  {
  }

  lemma ShorterJourney(p: Problem, terminus: nat, legs: seq<Leg>, before: seq<Leg>)
    requires Journey(p, terminus, legs) && |legs| > 1 && before == legs[..|legs| - 1]
    ensures Journey(p, before[|before| - 1].hop.toNode, before)
  {
    forall k | 0 <= k < |before|
      ensures Continues(p.contacts, p.ranges, RuledOut(p), p.floor, p.now, before, k)
    {
      assert Continues(p.contacts, p.ranges, RuledOut(p), p.floor, p.now, legs, k);
    }
  }

  /** The contact that a leg takes, where it stands in the plan, can follow at the time data is there. */
  lemma LegIsReady(p: Problem, legs: seq<Leg>, k: nat, ready: int) returns (i: nat)
    requires ContactsOrdered(p.contacts) && RangesOrdered(p.ranges) && k < |legs|
    requires Continues(p.contacts, p.ranges, RuledOut(p), p.floor, p.now, legs, k)
    requires ready == if k == 0 then p.now else legs[k - 1].arrival
    ensures i < |p.contacts| && p.contacts[i] == legs[k].hop && p.Ready(i, legs[k].hop.fromNode, ready)
    ensures p.Arrival(i, ready) == legs[k].arrival < MAX_TIME
  {
    i :| 0 <= i < |p.contacts| && p.contacts[i] == legs[k].hop;
    UsableAgrees(p, i, legs[k].owlt);
    MarginIs(legs[k].owlt);
  }

  /** Every journey is a feasible path. */
  lemma {:induction false} JourneyIsPath(p: Problem, terminus: nat, legs: seq<Leg>) returns (path: seq<nat>)
    requires ContactsOrdered(p.contacts) && RangesOrdered(p.ranges) && Journey(p, terminus, legs)
    ensures p.Reaches(path, terminus) && p.EndTime(path) == legs[|legs| - 1].arrival
    ensures |legs| == |path| && forall k :: 0 <= k < |path| ==> path[k] < |p.contacts| && legs[k].hop == p.contacts[path[k]]
    decreases |legs|
  {
    var n := |legs| - 1;
    var q: seq<nat>, ready := [], p.now;
    if n > 0 {
      var before := legs[..n];
      ShorterJourney(p, terminus, legs, before);
      q := JourneyIsPath(p, before[n - 1].hop.toNode, before);
      ready := legs[n - 1].arrival;
    }
    assert Continues(p.contacts, p.ranges, RuledOut(p), p.floor, p.now, legs, n);
    var i := LegIsReady(p, legs, n, ready);
    path := q + [i];
    PathExtended(p, q, i, path);
  }

  // ---------------------------------------------------------- what is found

  /** The hops make for a journey that arrives at the time given, and no journey arrives earlier. */
  ghost predicate EarliestJourney(p: Problem, terminus: nat, hops: seq<CXref>, arrival: int) {
    && (exists legs: seq<Leg> :: Journey(p, terminus, legs) && Takes(legs, hops) && legs[|legs| - 1].arrival == arrival)
    && forall legs: seq<Leg> :: Journey(p, terminus, legs) ==> arrival <= legs[|legs| - 1].arrival
  }

  lemma BestIsEarliest(p: Problem, terminus: nat, route: CgrRoute)
    requires ContactsOrdered(p.contacts) && RangesOrdered(p.ranges) && BestRoute(p, terminus, route)
    ensures EarliestJourney(p, terminus, route.hops, route.arrivalTime)
  {
    var path :| Describes(p, route, path) && p.Reaches(path, terminus);
    var mine := PathIsJourney(p, path);
    assert Takes(mine, route.hops);
    forall legs: seq<Leg> | Journey(p, terminus, legs)
      ensures route.arrivalTime <= legs[|legs| - 1].arrival
    {
      var other := JourneyIsPath(p, terminus, legs);
    }
  }

  /** What a search comes to: none exactly if there is no journey. */
  ghost predicate FoundOrNone(p: Problem, terminus: nat, route: Option<CgrRoute>) {
    match route
    case None => forall legs :: !Journey(p, terminus, legs)
    case Some(r) => EarliestJourney(p, terminus, r.hops, r.arrivalTime) && TellsOfHops(r)
  }

  lemma SearchAnswers(p: Problem, terminus: nat, route: Option<CgrRoute>)
    requires ContactsOrdered(p.contacts) && RangesOrdered(p.ranges)
    requires if route.Some? then BestRoute(p, terminus, route.value) else forall path :: !p.Reaches(path, terminus)
    ensures FoundOrNone(p, terminus, route)
  {
    if route.Some? {
      BestIsEarliest(p, terminus, route.value);
      BestTellsOfHops(p, terminus, route.value);
    } else {
      NoJourney(p, terminus);
    }
  }

  lemma NoJourney(p: Problem, terminus: nat)
    requires ContactsOrdered(p.contacts) && RangesOrdered(p.ranges)
    ensures (exists legs :: Journey(p, terminus, legs)) <==> exists path :: p.Reaches(path, terminus)
  {
    if legs :| Journey(p, terminus, legs) {
      var path := JourneyIsPath(p, terminus, legs);
    }
    if path :| p.Reaches(path, terminus) {
      var legs := PathIsJourney(p, path);
    }
  }

  /** What a route says of its hops: its first one, when the first of them ends, and the least
      that any of them can carry. */
  ghost predicate TellsOfHops(route: CgrRoute) {
    var hops := route.hops;
    && hops != [] && route.toNodeNbr == hops[0].toNode && route.fromTime == hops[0].fromTime
    && (forall h :: h in hops ==> route.toTime <= h.toTime)
    && ((exists h :: h in hops && h.toTime <= 2147483647) ==> exists h :: h in hops && route.toTime == h.toTime)
    && ((forall h :: h in hops ==> h.xmitRate * (h.toTime - h.fromTime) <= 0xffff_ffff_ffff_ffff) ==>
          && (forall h :: h in hops ==> route.maxCapacity <= h.xmitRate * (h.toTime - h.fromTime))
          && (exists h :: h in hops && route.maxCapacity == h.xmitRate * (h.toTime - h.fromTime)))
  }

  lemma BestTellsOfHops(p: Problem, terminus: nat, route: CgrRoute)
    requires BestRoute(p, terminus, route)
    ensures TellsOfHops(route)
  {
    var hops := route.hops;
    EarliestEndIsLeast(hops);
    if forall h :: h in hops ==> h.xmitRate * (h.toTime - h.fromTime) <= 0xffff_ffff_ffff_ffff {
      LeastVolumeIsLeast(hops);
    }
  }

  // ---------------------------------------------------------- what a route list offers

  /** The number of the payload class whose contacts carry so much. */
  function ClassOf(floor: nat): int {
    if floor == 1024 then 0 else if floor == 1048576 then 1 else 2
  }

  lemma BestCarries(p: Problem, terminus: nat, route: CgrRoute)
    requires BestRoute(p, terminus, route)
    ensures AllCarry(route.hops, p.floor)
  {
    var path :| Describes(p, route, path) && p.Reaches(path, terminus);
    forall h | h in route.hops
      ensures h.xmitRate * (h.toTime - h.fromTime) >= p.floor
    {
      var k :| 0 <= k < |route.hops| && route.hops[k] == h;
      assert path[k] in path && p.Usable(path[k]);
    }
  }

  lemma ClassProblem(contacts: seq<CXref>, ranges: seq<RXref>, own: nat, now: int, floor: nat) returns (p: Problem)
    requires floor == 1024 || floor == 1048576 || floor == 1073741824
    ensures p == Unrestricted(contacts, ranges, own, now, ClassOf(floor)) && p.floor == floor && RuledOut(p) == {}
  {
    p := Unrestricted(contacts, ranges, own, now, ClassOf(floor));
  }

  /** For each of the three payload classes: if a journey is possible over contacts that are large
      enough, then a route over such contacts is listed that arrives no later. */
  lemma ListServes(contacts: seq<CXref>, ranges: seq<RXref>, own: nat, now: int, terminus: nat, routes: seq<CgrRoute>,
                   floor: nat, legs: seq<Leg>)
    requires ContactsOrdered(contacts) && RangesOrdered(ranges)
    requires RouteList(contacts, ranges, own, now, terminus, routes, PAYLOAD_CLASSES - 1)
    requires floor == 1024 || floor == 1048576 || floor == 1073741824
    requires Itinerary(contacts, ranges, {}, floor, own, now, terminus, legs)
    ensures exists r :: r in routes && r.arrivalTime <= legs[|legs| - 1].arrival && AllCarry(r.hops, floor)
  {
    var p := ClassProblem(contacts, ranges, own, now, floor);
    var path := JourneyIsPath(p, terminus, legs);
    assert FirstIsBest(p, terminus, routes, ClassOf(floor));
    var i: nat :| FirstOf(routes, ClassOf(floor), i) && BestRoute(p, terminus, routes[i]);
    BestCarries(p, terminus, routes[i]);
    assert routes[i] in routes;
  }

  /** The journey takes a hop of a listed route that is the route's first, or ends no later than any
      other of its hops. It leaves the local node by it, or the route starts with the contact given. */
  ghost predicate Meets(own: nat, routes: seq<CgrRoute>, lead: Option<CXref>, legs: seq<Leg>) {
    exists r, leg ::
      r in routes && leg in legs && leg.hop in r.hops
      && (leg.hop == r.hops[0] || forall h :: h in r.hops ==> leg.hop.toTime <= h.toTime)
      && (leg.hop.fromNode == own || lead == Some(r.hops[0]))
  }

  lemma MetOn(contacts: seq<CXref>, own: nat, anchor: int, routes: seq<CgrRoute>, payloadClass: int, path: seq<nat>)
    returns (k: nat, r: CgrRoute)
    requires MeetsListed(contacts, own, anchor, routes, payloadClass, path)
    ensures k < |path| && path[k] < |contacts| && r in routes && ExcludedBy(contacts, own, anchor, r, path[k])
  {
    var i :| i in path && ListedUpTo(contacts, own, anchor, routes, payloadClass, i);
    k :| 0 <= k < |path| && path[k] == i;
    r :| r in routes && r.payloadClass <= payloadClass && ExcludedBy(contacts, own, anchor, r, i);
  }

  lemma ClassExhausted(contacts: seq<CXref>, ranges: seq<RXref>, own: nat, now: int, terminus: nat, routes: seq<CgrRoute>, c: int)
    returns (anchor: int)
    requires RouteList(contacts, ranges, own, now, terminus, routes, PAYLOAD_CLASSES - 1) && 0 <= c < 3
    ensures AllMeetListed(Unrestricted(contacts, ranges, own, now, c), terminus, anchor, routes, c)
  {
    assert NoneLeft(Unrestricted(contacts, ranges, own, now, c), terminus, routes, c);
    anchor :| AllMeetListed(Unrestricted(contacts, ranges, own, now, c), terminus, anchor, routes, c);
  }

  lemma JourneyMeets(p: Problem, terminus: nat, anchor: int, routes: seq<CgrRoute>, payloadClass: int, lead: Option<CXref>,
                     legs: seq<Leg>)
    requires ContactsOrdered(p.contacts) && RangesOrdered(p.ranges) && AllMeetListed(p, terminus, anchor, routes, payloadClass)
    requires lead == (if 0 <= anchor < |p.contacts| then Some(p.contacts[anchor]) else None)
    requires Journey(p, terminus, legs)
    ensures Meets(p.source, routes, lead, legs)
  {
    var path := JourneyIsPath(p, terminus, legs);
    var k, r := MetOn(p.contacts, p.source, anchor, routes, payloadClass, path);
    assert legs[k] in legs;
  }

  /** And every such journey meets a listed route: there is one contact, at most, such that routes
      starting with it are met on the way, and all others where the local node is left. */
  lemma ListMeets(contacts: seq<CXref>, ranges: seq<RXref>, own: nat, now: int, terminus: nat, routes: seq<CgrRoute>, floor: nat)
    returns (lead: Option<CXref>)
    requires ContactsOrdered(contacts) && RangesOrdered(ranges)
    requires RouteList(contacts, ranges, own, now, terminus, routes, PAYLOAD_CLASSES - 1)
    requires floor == 1024 || floor == 1048576 || floor == 1073741824
    ensures forall legs :: Itinerary(contacts, ranges, {}, floor, own, now, terminus, legs) ==> Meets(own, routes, lead, legs)
  {
    var p := ClassProblem(contacts, ranges, own, now, floor);
    var anchor := ClassExhausted(contacts, ranges, own, now, terminus, routes, ClassOf(floor));
    lead := if 0 <= anchor < |contacts| then Some(contacts[anchor]) else None;
    forall legs | Journey(p, terminus, legs)
      ensures Meets(own, routes, lead, legs)
    {
      JourneyMeets(p, terminus, anchor, routes, ClassOf(floor), lead, legs);
    }
  }

  lemma SearchedFor(contacts: seq<CXref>, ranges: seq<RXref>, own: nat, now: int, terminus: nat, routes: seq<CgrRoute>,
                    route: CgrRoute)
    returns (p: Problem)
    requires RouteList(contacts, ranges, own, now, terminus, routes, PAYLOAD_CLASSES - 1) && route in routes
    ensures p == Problem(contacts, ranges, p.suppressed, MinCapacity(route.payloadClass), own, now) && BestRoute(p, terminus, route)
    ensures 0 <= route.payloadClass < 3
  {
    var j :| 0 <= j < |routes| && routes[j] == route;
    assert Enumerated(contacts, ranges, own, now, terminus, routes[..j], routes[j]);
    var suppressed: set<nat> :| AllListed(contacts, routes[..j], suppressed)
      && BestRoute(Problem(contacts, ranges, suppressed, MinCapacity(route.payloadClass), own, now), terminus, route);
    p := Problem(contacts, ranges, suppressed, MinCapacity(route.payloadClass), own, now);
  }

  /** A route found in a search that bars some contacts is a journey when none is barred. */
  lemma WithoutBars(p: Problem, terminus: nat, route: CgrRoute) returns (legs: seq<Leg>)
    requires ContactsOrdered(p.contacts) && RangesOrdered(p.ranges) && BestRoute(p, terminus, route)
    ensures Itinerary(p.contacts, p.ranges, {}, p.floor, p.source, p.now, terminus, legs)
    ensures Takes(legs, route.hops) && legs[|legs| - 1].arrival == route.arrivalTime
  {
    var path :| Describes(p, route, path) && p.Reaches(path, terminus);
    var q := p.(suppressed := {});
    OtherSuppressed(p, q, path);
    legs := PathIsJourney(q, path);
    assert RuledOut(q) == {};
  }

  /** What is listed can be done: each route is a journey over contacts large enough for its
      class, and tells of its hops. */
  lemma ListedAreJourneys(contacts: seq<CXref>, ranges: seq<RXref>, own: nat, now: int, terminus: nat, routes: seq<CgrRoute>,
                          route: CgrRoute)
    returns (floor: nat, legs: seq<Leg>)
    requires ContactsOrdered(contacts) && RangesOrdered(ranges)
    requires RouteList(contacts, ranges, own, now, terminus, routes, PAYLOAD_CLASSES - 1) && route in routes
    ensures TellsOfHops(route) && (floor == 1024 || floor == 1048576 || floor == 1073741824)
    ensures Itinerary(contacts, ranges, {}, floor, own, now, terminus, legs) && Takes(legs, route.hops)
    ensures legs[|legs| - 1].arrival == route.arrivalTime
  {
    var p := SearchedFor(contacts, ranges, own, now, terminus, routes, route);
    BestTellsOfHops(p, terminus, route);
    legs := WithoutBars(p, terminus, route);
    floor := p.floor;
  }
}
