/** One request to forward a bundle: which routes are tried, and what the walk of the route
    list, during which routes expire and are recomputed, comes to. */
module Forwarding {
  import opened ContactPlan
  import opened ContactGraph
  import opened Eto
  import opened Selection

  datatype Request = Request(bundle: Bundle, now: int, directives: map<nat, Outduct>, excluded: set<nat>) {
    ghost predicate Valid() {
      && 0 <= now <= MAX_TIME && bundle.GuessSize() <= MAX_TIME
      && forall n :: n in directives ==> directives[n].Normal()
    }

    /** Whether the walk tries the route. */
    predicate Admits(localNode: nat, route: CgrRoute) {
      && route.toTime >= now && route.arrivalTime <= bundle.Deadline()
      && (route.toNodeNbr == localNode ==> bundle.cbhe && bundle.destination == route.toNodeNbr)
      && bundle.payloadLength <= route.maxCapacity && route.toNodeNbr !in excluded
    }
  }

  /** The expected arrival of the bundle by a route, or zero if the route is not plausible. */
  ghost function Estimate(contacts: seq<CXref>, ranges: seq<RXref>, own: nat, rq: Request, route: CgrRoute): int
    requires route.hops != []
  {
    if route.toNodeNbr !in rq.directives then 0
    else
      var duct := rq.directives[route.toNodeNbr];
      if duct.Usable(rq.bundle) && Accepted(contacts, own, route.toNodeNbr, route.fromTime, rq.now) then
        ProjectedFor(contacts, ranges, own, route, rq.bundle, rq.now, duct.Backlog())
      else 0
  }

  /** The same request for a bundle with no less payload, with no less queued to a neighbor. */
  ghost predicate Heavier(rq: Request, more: Request, neighbor: nat) {
    && more == rq.(bundle := rq.bundle.(payloadLength := more.bundle.payloadLength), directives := more.directives)
    && rq.bundle.payloadLength <= more.bundle.payloadLength
    && (neighbor in more.directives <==> neighbor in rq.directives)
    && (neighbor in rq.directives ==>
          var duct, fuller := rq.directives[neighbor], more.directives[neighbor];
          duct.blocked == fuller.blocked && duct.maxPayloadLen == fuller.maxPayloadLen && duct.Backlog() <= fuller.Backlog())
  }

  /** More backlog or payload only delays the arrival that is expected of a route, or prevents it. */
  lemma EstimateMonotone(contacts: seq<CXref>, ranges: seq<RXref>, own: nat, rq: Request, more: Request, route: CgrRoute)
    requires route.hops != [] && Heavier(rq, more, route.toNodeNbr)
    ensures NotSooner(Estimate(contacts, ranges, own, rq, route), Estimate(contacts, ranges, own, more, route),
                      Max(rq.now, route.fromTime))
  {
    if Estimate(contacts, ranges, own, more, route) != 0 {
      var backlog, fuller := rq.directives[route.toNodeNbr].Backlog(), more.directives[route.toNodeNbr].Backlog();
      UnservedMonotone(backlog, fuller, Earlier(contacts, own, route.toNodeNbr, route.fromTime, rq.now), rq.now);
      ProjectedMonotone(ranges, route.hops, route.fromTime, rq.now, rq.bundle.Deadline(),
                        Max(0, PriorClaims(contacts, own, route, rq.now, backlog)),
                        Max(0, PriorClaims(contacts, own, route, rq.now, fuller)),
                        Eccc(rq.bundle.GuessSize()), Eccc(more.bundle.GuessSize()));
    }
  }

  /** What the proximate node tells of the route's initial contact is right. */
  ghost predicate BookedBy(contacts: seq<CXref>, own: nat, rq: Request, route: CgrRoute, node: ProximateNode) {
    && route.toNodeNbr in rq.directives
    && forall c :: c in contacts && Initial(c, own, route.toNodeNbr, route.fromTime, rq.now) ==>
         Booked(c, rq.now, PriorClaims(contacts, own, route, rq.now, rq.directives[route.toNodeNbr].Backlog()),
                Eccc(rq.bundle.GuessSize()), node.overbooked, node.protected)
  }

  ghost function TrialOf(route: CgrRoute, arrivalTime: int): Trial {
    Trial(route.toNodeNbr, arrivalTime, |route.hops|, route.toTime)
  }

  ghost predicate HaveHops(routes: seq<CgrRoute>) {
    forall r :: r in routes ==> r.hops != []
  }

  /** The plausible ones of the routes tried. */
  ghost function Trials(contacts: seq<CXref>, ranges: seq<RXref>, own: nat, rq: Request, tried: seq<CgrRoute>): seq<Trial>
    requires HaveHops(tried)
  {
    if tried == [] then []
    else
      var last := tried[|tried| - 1];
      assert last in tried;
      var arrivalTime := Estimate(contacts, ranges, own, rq, last);
      Trials(contacts, ranges, own, rq, tried[..|tried| - 1]) + if arrivalTime == 0 then [] else [TrialOf(last, arrivalTime)]
  }

  /** The node is what comes of trying the route: a trial, and the shares of its initial contact. */
  ghost predicate Offered(contacts: seq<CXref>, ranges: seq<RXref>, own: nat, rq: Request, route: CgrRoute, node: ProximateNode) {
    TrialBy(contacts, ranges, own, rq, route, node.Attempt()) && BookedBy(contacts, own, rq, route, node)
  }

  ghost predicate OfferedBySome(contacts: seq<CXref>, ranges: seq<RXref>, own: nat, rq: Request, tried: seq<CgrRoute>,
                                node: ProximateNode) {
    exists r :: r in tried && Offered(contacts, ranges, own, rq, r, node)
  }

  ghost predicate AllOffered(contacts: seq<CXref>, ranges: seq<RXref>, own: nat, rq: Request, tried: seq<CgrRoute>,
                             nodes: seq<ProximateNode>) {
    forall node :: node in nodes ==> OfferedBySome(contacts, ranges, own, rq, tried, node)
  }

  lemma OneMoreOffered(contacts: seq<CXref>, ranges: seq<RXref>, own: nat, rq: Request, tried: seq<CgrRoute>, route: CgrRoute,
                       nodes: seq<ProximateNode>, nodes': seq<ProximateNode>)
    requires AllOffered(contacts, ranges, own, rq, tried, nodes)
    requires forall node :: node in nodes' ==> node in nodes || Offered(contacts, ranges, own, rq, route, node)
    ensures AllOffered(contacts, ranges, own, rq, tried + [route], nodes')
  {
    forall node | node in nodes'
      ensures OfferedBySome(contacts, ranges, own, rq, tried + [route], node)
    {
      if node in nodes {
        var r :| r in tried && Offered(contacts, ranges, own, rq, r, node);
        assert r in tried + [route];
      } else {
        assert route in tried + [route];
      }
    }
  }

  /** The neighbor of a trial that none is preferred to, if there is any trial. */
  ghost predicate Chosen(contacts: seq<CXref>, ranges: seq<RXref>, own: nat, rq: Request, tried: seq<CgrRoute>,
                         selected: Option<ProximateNode>) {
    && HaveHops(tried) && (selected.Some? ==> OfferedBySome(contacts, ranges, own, rq, tried, selected.value))
    && var trials := Trials(contacts, ranges, own, rq, tried);
       if selected == None then trials == [] else Minimal(selected.value.Attempt(), trials)
  }

  lemma TrialsAppend(contacts: seq<CXref>, ranges: seq<RXref>, own: nat, rq: Request, tried: seq<CgrRoute>, route: CgrRoute)
    requires HaveHops(tried) && route.hops != []
    ensures HaveHops(tried + [route])
    ensures var arrivalTime := Estimate(contacts, ranges, own, rq, route); var was := Trials(contacts, ranges, own, rq, tried);
      Trials(contacts, ranges, own, rq, tried + [route])
      == if arrivalTime == 0 then was else was + [TrialOf(route, arrivalTime)]
  {
    assert (tried + [route])[..|tried|] == tried;
  }

  /** The trial is what comes of trying the route. */
  ghost predicate TrialBy(contacts: seq<CXref>, ranges: seq<RXref>, own: nat, rq: Request, route: CgrRoute, t: Trial) {
    && route.hops != [] && Estimate(contacts, ranges, own, rq, route) != 0
    && t == TrialOf(route, Estimate(contacts, ranges, own, rq, route))
  }

  ghost predicate TrialBySome(contacts: seq<CXref>, ranges: seq<RXref>, own: nat, rq: Request, tried: seq<CgrRoute>, t: Trial) {
    exists k :: 0 <= k < |tried| && TrialBy(contacts, ranges, own, rq, tried[k], t)
  }

  lemma TrialByOneMore(contacts: seq<CXref>, ranges: seq<RXref>, own: nat, rq: Request, tried: seq<CgrRoute>, route: CgrRoute,
                       more: seq<CgrRoute>, t: Trial)
    requires more == tried + [route]
    ensures TrialBySome(contacts, ranges, own, rq, more, t)
            <==> TrialBySome(contacts, ranges, own, rq, tried, t) || TrialBy(contacts, ranges, own, rq, route, t)
  {
    if k :| 0 <= k < |tried| && TrialBy(contacts, ranges, own, rq, tried[k], t) {
      assert TrialBy(contacts, ranges, own, rq, more[k], t);
    }
    assert more[|tried|] == route;
  }

  lemma OneMoreTrial(contacts: seq<CXref>, ranges: seq<RXref>, own: nat, rq: Request, tried: seq<CgrRoute>, route: CgrRoute, t: Trial)
    requires HaveHops(tried) && route.hops != []
    ensures HaveHops(tried + [route])
    ensures t in Trials(contacts, ranges, own, rq, tried + [route])
       <==> t in Trials(contacts, ranges, own, rq, tried) || TrialBy(contacts, ranges, own, rq, route, t)
  {
    TrialsAppend(contacts, ranges, own, rq, tried, route);
  }

  lemma {:induction false} TrialsAre(contacts: seq<CXref>, ranges: seq<RXref>, own: nat, rq: Request, tried: seq<CgrRoute>, t: Trial)
    requires HaveHops(tried)
    ensures t in Trials(contacts, ranges, own, rq, tried) <==> TrialBySome(contacts, ranges, own, rq, tried, t)
  {
    if tried != [] {
      var q, last := tried[..|tried| - 1], tried[|tried| - 1];
      assert tried == q + [last] && last in tried && HaveHops(q);
      TrialsAre(contacts, ranges, own, rq, q, t);
      OneMoreTrial(contacts, ranges, own, rq, q, last, t);
      TrialByOneMore(contacts, ranges, own, rq, q, last, tried, t);
    }
  }

  // ---------------------------------------------------------- routes in a list

  /** What every listed route is: it has hops, the first of which can transmit, tells of them what
      is true, and shuts down some time after time zero. */
  ghost predicate RouteSound(route: CgrRoute) {
    && route.hops != [] && route.hops[0].xmitRate > 0 && AllFit(route.hops)
    && route.toTime == EarliestEnd(route.hops) && route.toTime > 0 && route.maxCapacity == LeastVolume(route.hops)
    && route.toNodeNbr == route.hops[0].toNode && route.fromTime == route.hops[0].fromTime
  }

  ghost predicate UsesOnly(contacts: seq<CXref>, route: CgrRoute) {
    forall h :: h in route.hops ==> h in contacts
  }

  lemma BestRouteUsesOnly(p: Problem, terminus: nat, route: CgrRoute)
    requires BestRoute(p, terminus, route)
    ensures UsesOnly(p.contacts, route)
  {
    var path :| Describes(p, route, path) && p.Reaches(path, terminus);
    forall h | h in route.hops
      ensures h in p.contacts
    {
      var k :| 0 <= k < |route.hops| && route.hops[k] == h;
      assert path[k] in path && p.Usable(path[k]);
    }
  }

  ghost predicate ListSound(routes: seq<CgrRoute>) {
    forall r :: r in routes ==> RouteSound(r)
  }

  lemma BestRouteSound(p: Problem, terminus: nat, route: CgrRoute)
    requires BestRoute(p, terminus, route) && AllFit(p.contacts) && p.floor > 0 && p.now >= 0
    ensures RouteSound(route)
  {
    FreshRoute(p, terminus, route);
    var path :| Describes(p, route, path) && p.Reaches(path, terminus);
    forall h | h in route.hops
      ensures Fits32(h)
    {
      var k :| 0 <= k < |route.hops| && route.hops[k] == h;
      assert path[k] in path && p.contacts[path[k]] in p.contacts;
    }
    assert path[0] in path && p.Usable(path[0]);
    assert p.Capacity(path[0]) > 0 && route.hops[0] == p.contacts[path[0]];
  }

  lemma {:induction false} HopsOutlast(p: Problem, path: seq<nat>)
    requires p.Feasible(path)
    ensures p.EndTime(path) >= p.now && (path != [] ==> p.now < MAX_TIME)
    ensures forall i :: i in path ==> p.contacts[i].toTime > p.now
  {
    if path != [] {
      var q, i := path[..|path| - 1], path[|path| - 1];
      HopsOutlast(p, q);
      ArrivalMonotone(p, i, p.EndTime(q), p.EndTime(q));
      assert path == q + [i];
    }
  }

  lemma {:induction false} EndsAfter(hops: seq<CXref>, now: int)
    requires now < MAX_TIME && forall h :: h in hops ==> h.toTime > now
    ensures EarliestEnd(hops) > now
  {
    if hops != [] {
      assert hops[0] in hops;
      EndsAfter(hops[1..], now);
    }
  }

  /** A route just computed has not expired. */
  lemma FreshRoute(p: Problem, terminus: nat, route: CgrRoute)
    requires BestRoute(p, terminus, route)
    ensures route.toTime > p.now
  {
    var path :| Describes(p, route, path) && p.Reaches(path, terminus);
    HopsOutlast(p, path);
    forall h | h in route.hops
      ensures h.toTime > p.now
    {
      var k :| 0 <= k < |route.hops| && route.hops[k] == h;
      assert path[k] in path;
    }
    EndsAfter(route.hops, p.now);
  }
}
