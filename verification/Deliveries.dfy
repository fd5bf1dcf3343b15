/** When a bundle is expected to arrive, in terms of bytes, rates and seconds alone: an account
    that does not depend on how the estimate is computed, and its agreement with that. */
module Deliveries {
  import opened ContactPlan
  import opened ContactGraph
  import opened SearchSteps
  import opened Eto
  import opened Forwarding
  import opened Itineraries
  import opened Selection
  import opened Walk

  /** So many whole seconds it takes to transmit the bytes; a rate of zero counts as one. */
  predicate InSeconds(bytes: int, rate: nat, seconds: int) {
    seconds >= 0 && if rate == 0 then seconds == bytes else seconds * rate <= bytes < (seconds + 1) * rate
  }

  lemma RadiationIs(bytes: nat, rate: nat, seconds: int)
    ensures InSeconds(bytes, rate, seconds) <==> seconds == Radiation(bytes, rate)
  {
    if rate > 0 {
      var q := bytes / rate;
      assert bytes == q * rate + bytes % rate && (q + 1) * rate == q * rate + rate;
      if InSeconds(bytes, rate, seconds) && seconds < q {
        Multiplied(seconds, q, rate);
      } else if InSeconds(bytes, rate, seconds) && seconds > q {
        Multiplied(q, seconds, rate);
      }
    }
  }

  /** When a hop's transmission is complete, and when what it carries has arrived. */
  datatype Stop = Stop(done: int, got: int)

  function Later(a: int, b: int): int {
    if a > b then a else b
  }

  /** The first transmission waits for the claims ahead of the bundle; each later one for the bundle
      to arrive and for the contact to begin. */
  ghost predicate Timed(hops: seq<CXref>, fromTime: int, now: int, claims: int, bytes: int, stops: seq<Stop>, k: nat)
    requires k < |hops| == |stops|
  {
    if k == 0 then InSeconds(claims + bytes, hops[0].xmitRate, stops[0].done - Later(now, fromTime))
    else InSeconds(bytes, hops[k].xmitRate, stops[k].done - Later(stops[k - 1].got, hops[k].fromTime))
  }

  /** Each transmission is complete before its contact ends, and data is under way for the light time. */
  ghost predicate Crossed(ranges: seq<RXref>, hop: CXref, stop: Stop) {
    stop.done < hop.toTime && exists owlt :: InRange(ranges, hop, owlt) && stop.got == stop.done + owlt
  }

  ghost predicate Hauls(ranges: seq<RXref>, hops: seq<CXref>, fromTime: int, now: int, claims: int, bytes: int, stops: seq<Stop>) {
    && |stops| == |hops| != 0
    && (forall k :: 0 <= k < |hops| ==> Timed(hops, fromTime, now, claims, bytes, stops, k))
    && (forall k :: 0 <= k < |hops| ==> Crossed(ranges, hops[k], stops[k]))
  }

  lemma CrossedAgrees(ranges: seq<RXref>, hop: CXref, stop: Stop)
    requires RangesOrdered(ranges)
    ensures Crossed(ranges, hop, stop) <==> Across(ranges, hop, stop.done) == Some(stop.got)
  {
    forall owlt: nat
      ensures ApplicableRange(ranges, hop) == Some(owlt) <==> InRange(ranges, hop, owlt)
    {
      RangeAgrees(ranges, hop, owlt);
    }
    if Across(ranges, hop, stop.done) == Some(stop.got) {
      assert InRange(ranges, hop, ApplicableRange(ranges, hop).value);
    }
  }

  function DoneTimes(stops: seq<Stop>): (times: seq<int>)
    ensures |times| == |stops| && forall k :: 0 <= k < |stops| ==> times[k] == stops[k].done
  {
    seq(|stops|, k requires 0 <= k < |stops| => stops[k].done)
  }

  lemma HaulIsSchedule(ranges: seq<RXref>, hops: seq<CXref>, fromTime: int, now: int, claims: nat, bytes: nat, stops: seq<Stop>)
    requires RangesOrdered(ranges) && Hauls(ranges, hops, fromTime, now, claims, bytes, stops)
    ensures var start := Max(now, fromTime) + Radiation(claims + bytes, hops[0].xmitRate);
      && Schedule(ranges, hops, start, bytes, DoneTimes(stops))
      && ArrivalOf(ranges, hops, DoneTimes(stops)) == Some(stops[|stops| - 1].got)
  {
    var times := DoneTimes(stops);
    assert Timed(hops, fromTime, now, claims, bytes, stops, 0);
    RadiationIs(claims + bytes, hops[0].xmitRate, stops[0].done - Later(now, fromTime));
    forall k | 0 <= k < |hops|
      ensures Across(ranges, hops[k], times[k]) == Some(stops[k].got)
    {
      CrossedAgrees(ranges, hops[k], stops[k]);
    }
    forall k | 0 <= k < |hops|
      ensures OnTime(ranges, hops, bytes, times, k)
    {
      assert Timed(hops, fromTime, now, claims, bytes, stops, k);
      if k > 0 {
        RadiationIs(bytes, hops[k].xmitRate, stops[k].done - Later(stops[k - 1].got, hops[k].fromTime));
      }
    }
  }

  /** The stops that a schedule makes. */
  ghost predicate StopsAt(ranges: seq<RXref>, hops: seq<CXref>, times: seq<int>, stops: seq<Stop>) {
    && |hops| == |times| == |stops|
    && forall k :: 0 <= k < |stops| ==> stops[k].done == times[k] && Across(ranges, hops[k], times[k]) == Some(stops[k].got)
  }

  lemma StopsOf(ranges: seq<RXref>, hops: seq<CXref>, start: int, bytes: nat, times: seq<int>) returns (stops: seq<Stop>)
    requires Schedule(ranges, hops, start, bytes, times)
    ensures StopsAt(ranges, hops, times, stops)
  {
    forall k | 0 <= k < |hops|
      ensures Across(ranges, hops[k], times[k]).Some?
    {
      assert OnTime(ranges, hops, bytes, times, k);
    }
    stops := seq(|hops|, k requires 0 <= k < |hops| && Across(ranges, hops[k], times[k]).Some? =>
      Stop(times[k], Across(ranges, hops[k], times[k]).value));
  }

  lemma StopTimed(ranges: seq<RXref>, hops: seq<CXref>, fromTime: int, now: int, claims: nat, bytes: nat,
                  times: seq<int>, stops: seq<Stop>, k: nat)
    requires StopsAt(ranges, hops, times, stops) && k < |hops| && OnTime(ranges, hops, bytes, times, k)
    requires times[0] == Max(now, fromTime) + Radiation(claims + bytes, hops[0].xmitRate)
    ensures Timed(hops, fromTime, now, claims, bytes, stops, k)
  {
    if k == 0 {
      RadiationIs(claims + bytes, hops[0].xmitRate, stops[0].done - Later(now, fromTime));
    } else {
      RadiationIs(bytes, hops[k].xmitRate, stops[k].done - Later(stops[k - 1].got, hops[k].fromTime));
    }
  }

  lemma ScheduleIsHaul(ranges: seq<RXref>, hops: seq<CXref>, fromTime: int, now: int, claims: nat, bytes: nat, times: seq<int>)
    returns (stops: seq<Stop>)
    requires RangesOrdered(ranges) && hops != []
    requires Schedule(ranges, hops, Max(now, fromTime) + Radiation(claims + bytes, hops[0].xmitRate), bytes, times)
    ensures Hauls(ranges, hops, fromTime, now, claims, bytes, stops)
    ensures ArrivalOf(ranges, hops, times) == Some(stops[|stops| - 1].got)
  {
    stops := StopsOf(ranges, hops, Max(now, fromTime) + Radiation(claims + bytes, hops[0].xmitRate), bytes, times);
    forall k | 0 <= k < |hops|
      ensures Timed(hops, fromTime, now, claims, bytes, stops, k) && Crossed(ranges, hops[k], stops[k])
    {
      StopTimed(ranges, hops, fromTime, now, claims, bytes, times, stops, k);
      CrossedAgrees(ranges, hops[k], stops[k]);
    }
  }

  /** A projection says when some haul arrives by the deadline, and whenever there is such a haul
      then that is what it says. */
  lemma ProjectedMeans(ranges: seq<RXref>, hops: seq<CXref>, fromTime: int, now: int, deadline: int, claims: nat, bytes: nat)
    requires RangesOrdered(ranges) && hops != []
    ensures var r := Projected(ranges, hops, fromTime, now, deadline, claims, bytes);
      && (r != 0 ==> exists stops: seq<Stop> ::
            Hauls(ranges, hops, fromTime, now, claims, bytes, stops) && stops[|stops| - 1].got == r <= deadline)
      && forall stops: seq<Stop> ::
           Hauls(ranges, hops, fromTime, now, claims, bytes, stops) && stops[|stops| - 1].got <= deadline ==>
             r == stops[|stops| - 1].got
  {
    var start := Max(now, fromTime) + Radiation(claims + bytes, hops[0].xmitRate);
    var r := Projected(ranges, hops, fromTime, now, deadline, claims, bytes);
    ProjectedBySchedule(ranges, hops, fromTime, now, deadline, claims, bytes);
    if r != 0 {
      var times, arrival :| Delivers(ranges, hops, start, deadline, bytes, times, arrival) && arrival != 0;
      var stops := ScheduleIsHaul(ranges, hops, fromTime, now, claims, bytes, times);
    }
    forall stops: seq<Stop> | Hauls(ranges, hops, fromTime, now, claims, bytes, stops) && stops[|stops| - 1].got <= deadline
      ensures r == stops[|stops| - 1].got
    {
      HaulIsSchedule(ranges, hops, fromTime, now, claims, bytes, stops);
      assert Delivers(ranges, hops, start, deadline, bytes, DoneTimes(stops), stops[|stops| - 1].got);
    }
  }

  // ---------------------------------------------------------- the claims ahead of a bundle

  /** The bytes that a contact can still carry. */
  function Carry(c: CXref, now: int): int {
    c.xmitRate * (c.toTime - Later(now, c.fromTime))
  }

  /** What the contacts with the neighbor that are not over can carry before a time. */
  function CarriedBefore(contacts: seq<CXref>, own: nat, toNode: nat, fromTime: int, now: int): int {
    if contacts == [] then 0
    else
      var c := contacts[|contacts| - 1];
      CarriedBefore(contacts[..|contacts| - 1], own, toNode, fromTime, now)
      + if c.fromNode == own && c.toNode == toNode && 0 < c.fromTime < fromTime && c.toTime >= now then Carry(c, now) else 0
  }

  lemma RemainingIsCarry(c: CXref, now: int)
    ensures Remaining(c, now) == Carry(c, now)
  {
  }

  lemma TotalStep(cs: seq<CXref>, c: CXref, now: int)
    ensures TotalRemaining(cs + [c], now) == TotalRemaining(cs, now) + Carry(c, now)
  {
    assert (cs + [c])[..|cs + [c]| - 1] == cs;
    RemainingIsCarry(c, now);
  }

  lemma {:induction false} EarlierCarry(contacts: seq<CXref>, own: nat, toNode: nat, fromTime: int, now: int)
    ensures TotalRemaining(Earlier(contacts, own, toNode, fromTime, now), now) == CarriedBefore(contacts, own, toNode, fromTime, now)
  {
    if contacts != [] {
      var q, c := contacts[..|contacts| - 1], contacts[|contacts| - 1];
      EarlierCarry(q, own, toNode, fromTime, now);
      TotalStep(Earlier(q, own, toNode, fromTime, now), c, now);
      assert Earlier(q, own, toNode, fromTime, now) + [] == Earlier(q, own, toNode, fromTime, now);
    }
  }

  lemma ExcessIs(backlog: nat, cs: seq<CXref>, now: int, carried: int)
    requires Lasting(cs, now) && TotalRemaining(cs, now) == carried
    ensures Unserved(backlog, cs, now) == Later(0, backlog - carried)
  {
    UnservedIsExcess(backlog, cs, now);
  }

  lemma EarlierOnes(contacts: seq<CXref>, own: nat, toNode: nat, fromTime: int, now: int) returns (cs: seq<CXref>)
    requires ContactsOrdered(contacts)
    ensures cs == Earlier(contacts, own, toNode, fromTime, now) && Lasting(cs, now)
    ensures TotalRemaining(cs, now) == CarriedBefore(contacts, own, toNode, fromTime, now)
  {
    cs := Earlier(contacts, own, toNode, fromTime, now);
    EarlierLasting(contacts, own, toNode, fromTime, now);
    EarlierCarry(contacts, own, toNode, fromTime, now);
  }

  /** The claims are what the earlier contacts cannot carry of the backlog. */
  lemma ClaimsAre(contacts: seq<CXref>, own: nat, route: CgrRoute, now: int, backlog: nat)
    requires ContactsOrdered(contacts)
    ensures PriorClaims(contacts, own, route, now, backlog)
         == Later(0, backlog - CarriedBefore(contacts, own, route.toNodeNbr, route.fromTime, now))
  {
    var cs := EarlierOnes(contacts, own, route.toNodeNbr, route.fromTime, now);
    ExcessIs(backlog, cs, now, CarriedBefore(contacts, own, route.toNodeNbr, route.fromTime, now));
  }

  // ---------------------------------------------------------- the estimate for a request

  /** The outduct is open and takes the payload whole, or in pieces. */
  predicate Passable(duct: Outduct, bundle: Bundle) {
    !duct.blocked && (bundle.doesNotFragment && duct.maxPayloadLen != 0 ==> bundle.payloadLength <= duct.maxPayloadLen)
  }

  /** The contact that the route begins with is indexed and not over, or no contact comes after
      where it was. */
  ghost predicate NotPassed(contacts: seq<CXref>, own: nat, toNode: nat, fromTime: int, now: int) {
    || (exists c :: c in contacts && c.fromNode == own && c.toNode == toNode && c.fromTime == fromTime > 0 && c.toTime >= now)
    || (forall c :: c in contacts ==>
          c.fromNode < own
          || (c.fromNode == own && (c.toNode < toNode || (c.toNode == toNode && c.fromTime <= Later(fromTime, 0)))))
  }

  ghost predicate Open(contacts: seq<CXref>, own: nat, rq: Request, route: CgrRoute) {
    && route.toNodeNbr in rq.directives && Passable(rq.directives[route.toNodeNbr], rq.bundle)
    && NotPassed(contacts, own, route.toNodeNbr, route.fromTime, rq.now)
  }

  /** What is queued to the neighbor and cannot go before the route's first contact begins. */
  function Ahead(contacts: seq<CXref>, own: nat, rq: Request, route: CgrRoute): nat
    requires route.toNodeNbr in rq.directives
  {
    var duct := rq.directives[route.toNodeNbr];
    Later(0, duct.gigs * 1073741824 + duct.units as int - CarriedBefore(contacts, own, route.toNodeNbr, route.fromTime, rq.now))
  }

  function Bytes(bundle: Bundle): nat {
    29 + bundle.dictionaryLength + bundle.prePayloadLength + bundle.payloadLength + bundle.postPayloadLength
  }

  /** The bundle can go by the route, as the stops say, and arrives in time. */
  ghost predicate Expected(contacts: seq<CXref>, ranges: seq<RXref>, own: nat, rq: Request, route: CgrRoute, stops: seq<Stop>) {
    && Open(contacts, own, rq, route)
    && Hauls(ranges, route.hops, route.fromTime, rq.now, Ahead(contacts, own, rq, route), Bytes(rq.bundle), stops)
    && stops[|stops| - 1].got <= rq.bundle.expirationTime + 946684800
  }

  lemma NotPassedAgrees(contacts: seq<CXref>, own: nat, toNode: nat, fromTime: int, now: int)
    ensures NotPassed(contacts, own, toNode, fromTime, now) <==> Accepted(contacts, own, toNode, fromTime, now)
  {
    assert forall c: CXref ::
      !Beyond(c, own, toNode, fromTime)
      <==> c.fromNode < own
           || (c.fromNode == own && (c.toNode < toNode || (c.toNode == toNode && c.fromTime <= Later(fromTime, 0))));
    assert forall c: CXref ::
      Initial(c, own, toNode, fromTime, now)
      <==> c.fromNode == own && c.toNode == toNode && c.fromTime == fromTime > 0 && c.toTime >= now;
  }

  lemma AheadIs(contacts: seq<CXref>, own: nat, rq: Request, route: CgrRoute)
    requires ContactsOrdered(contacts) && rq.Valid() && route.toNodeNbr in rq.directives
    ensures Max(0, PriorClaims(contacts, own, route, rq.now, rq.directives[route.toNodeNbr].Backlog()))
         == Ahead(contacts, own, rq, route)
  {
    var duct := rq.directives[route.toNodeNbr];
    assert duct.Normal() && duct.Backlog() == duct.gigs * 1073741824 + duct.units as int;
    ClaimsAre(contacts, own, route, rq.now, duct.Backlog());
  }

  lemma EstimateIs(contacts: seq<CXref>, ranges: seq<RXref>, own: nat, rq: Request, route: CgrRoute)
    requires ContactsOrdered(contacts) && rq.Valid() && route.hops != []
    ensures Estimate(contacts, ranges, own, rq, route)
         == if Open(contacts, own, rq, route)
            then Projected(ranges, route.hops, route.fromTime, rq.now, rq.bundle.expirationTime + 946684800,
                           Ahead(contacts, own, rq, route), Bytes(rq.bundle))
            else 0
  {
    if route.toNodeNbr in rq.directives {
      AheadIs(contacts, own, rq, route);
      NotPassedAgrees(contacts, own, route.toNodeNbr, route.fromTime, rq.now);
    }
  }

  /** An estimate says when the bundle is expected, and whenever it is expected it says so. */
  lemma EstimateMeans(contacts: seq<CXref>, ranges: seq<RXref>, own: nat, rq: Request, route: CgrRoute)
    requires ContactsOrdered(contacts) && RangesOrdered(ranges) && rq.Valid() && route.hops != []
    ensures var r := Estimate(contacts, ranges, own, rq, route);
      && (r != 0 ==> exists stops: seq<Stop> ::
            Expected(contacts, ranges, own, rq, route, stops) && stops[|stops| - 1].got == r)
      && forall stops: seq<Stop> :: Expected(contacts, ranges, own, rq, route, stops) ==> r == stops[|stops| - 1].got
  {
    EstimateIs(contacts, ranges, own, rq, route);
    if Open(contacts, own, rq, route) {
      var claims, deadline := Ahead(contacts, own, rq, route), rq.bundle.expirationTime + 946684800;
      ProjectedMeans(ranges, route.hops, route.fromTime, rq.now, deadline, claims, Bytes(rq.bundle));
      if Estimate(contacts, ranges, own, rq, route) != 0 {
        var stops: seq<Stop> :|
          && Hauls(ranges, route.hops, route.fromTime, rq.now, claims, Bytes(rq.bundle), stops)
          && stops[|stops| - 1].got == Estimate(contacts, ranges, own, rq, route) <= deadline;
        assert Expected(contacts, ranges, own, rq, route, stops);
      }
    }
  }

  /** The route begins with the contact, which is not over. */
  predicate Begins(c: CXref, own: nat, rq: Request, route: CgrRoute) {
    c.fromNode == own && c.toNode == route.toNodeNbr && c.fromTime == route.fromTime > 0 && c.toTime >= rq.now
  }

  function Excess(a: int, b: int): int {
    Later(0, a - b)
  }

  /** Of what is queued ahead, the node tells how much must go by later contacts than this one; and of
      the rest and the bundle, how much exceeds what it can carry. */
  predicate Books(contacts: seq<CXref>, own: nat, rq: Request, route: CgrRoute, node: ProximateNode, c: CXref) {
    && route.toNodeNbr in rq.directives
    && var ahead, carry := Ahead(contacts, own, rq, route), c.xmitRate * (c.toTime - Later(rq.now, c.fromTime));
       node.protected == Excess(ahead, carry) && node.overbooked == Excess(ahead - node.protected + Bytes(rq.bundle), carry)
  }

  /** What a proximate node tells of the contact that the route begins with. */
  lemma BookedMeans(contacts: seq<CXref>, own: nat, rq: Request, route: CgrRoute, node: ProximateNode, c: CXref)
    requires ContactsOrdered(contacts) && rq.Valid() && BookedBy(contacts, own, rq, route, node)
    requires c in contacts && Begins(c, own, rq, route)
    ensures Books(contacts, own, rq, route, node, c)
  {
    AheadIs(contacts, own, rq, route);
    RemainingIsCarry(c, rq.now);
    assert Initial(c, own, route.toNodeNbr, route.fromTime, rq.now);
    ClaimsPositive(contacts, own, route, rq.now, rq.directives[route.toNodeNbr].Backlog());
  }

  // ---------------------------------------------------------- what a request comes to

  /** The route is one to try: the payload fits on each of its hops, and its neighbor is not excluded,
      nor the local node, unless the bundle is for that. */
  ghost predicate Suitable(own: nat, rq: Request, route: CgrRoute) {
    && AllCarry(route.hops, rq.bundle.payloadLength) && route.toNodeNbr !in rq.excluded
    && (route.toNodeNbr == own ==> rq.bundle.cbhe && rq.bundle.destination == own)
  }

  /** The routes tried are the suitable ones up to the first that arrives too late, and none of
      the routes up to there has expired. */
  lemma WalkMeans(own: nat, rq: Request, routes: seq<CgrRoute>, tried: seq<CgrRoute>, stop: int)
    requires rq.Valid() && ListSound(routes) && WalkOver(own, rq, routes, tried, stop)
    ensures forall k :: 0 <= k < stop ==>
      routes[k].arrivalTime <= rq.bundle.expirationTime + 946684800 && forall h :: h in routes[k].hops ==> h.toTime >= rq.now
    ensures 0 <= stop <= |routes| && (stop < |routes| ==> routes[stop].arrivalTime > rq.bundle.expirationTime + 946684800)
    ensures forall r :: r in tried <==> r in routes[..stop] && Suitable(own, rq, r)
  {
    forall k | 0 <= k < stop
      ensures routes[k].arrivalTime <= rq.bundle.expirationTime + 946684800
      ensures forall h :: h in routes[k].hops ==> h.toTime >= rq.now
      ensures rq.Admits(own, routes[k]) <==> Suitable(own, rq, routes[k])
    {
      assert routes[k] in routes && RouteSound(routes[k]) && !Late(rq, routes[k]);
      EarliestEndIsLeast(routes[k].hops);
      PayloadFits(routes[k].hops, rq.bundle.payloadLength);
    }
    forall r | r in routes[..stop]
      ensures rq.Admits(own, r) <==> Suitable(own, rq, r)
    {
      var k :| 0 <= k < stop && routes[..stop][k] == r;
      assert routes[k] == r;
    }
  }

  /** By the route, the bundle is expected at the time given. */
  ghost predicate ExpectedAt(contacts: seq<CXref>, ranges: seq<RXref>, own: nat, rq: Request, route: CgrRoute, arrivalTime: int) {
    exists stops: seq<Stop> :: Expected(contacts, ranges, own, rq, route, stops) && stops[|stops| - 1].got == arrivalTime
  }

  /** The node tells of the route, by which the bundle is expected. */
  ghost predicate TellsOf(contacts: seq<CXref>, ranges: seq<RXref>, own: nat, rq: Request, route: CgrRoute, node: ProximateNode) {
    && route.hops != [] && node.neighborNodeNbr == route.hops[0].toNode && node.hopCount == |route.hops|
    && (forall h :: h in route.hops ==> node.forfeitTime <= h.toTime)
    && (exists h :: h in route.hops && node.forfeitTime == h.toTime)
    && ExpectedAt(contacts, ranges, own, rq, route, node.arrivalTime)
    && forall c :: c in contacts && Begins(c, own, rq, route) ==> Books(contacts, own, rq, route, node, c)
  }

  lemma ExpectedTrial(contacts: seq<CXref>, ranges: seq<RXref>, own: nat, rq: Request, route: CgrRoute, arrivalTime: int)
    requires ContactsOrdered(contacts) && RangesOrdered(ranges) && rq.Valid() && route.hops != [] && arrivalTime != 0
    ensures ExpectedAt(contacts, ranges, own, rq, route, arrivalTime) <==> Estimate(contacts, ranges, own, rq, route) == arrivalTime
  {
    EstimateMeans(contacts, ranges, own, rq, route);
  }

  lemma OfferTells(contacts: seq<CXref>, ranges: seq<RXref>, own: nat, rq: Request, route: CgrRoute, node: ProximateNode)
    requires ContactsOrdered(contacts) && RangesOrdered(ranges) && rq.Valid() && RouteSound(route)
    requires Offered(contacts, ranges, own, rq, route, node)
    ensures TellsOf(contacts, ranges, own, rq, route, node)
  {
    EarliestEndIsLeast(route.hops);
    assert route.hops[0] in route.hops && Fits32(route.hops[0]);
    ExpectedTrial(contacts, ranges, own, rq, route, node.arrivalTime);
    forall c | c in contacts && Begins(c, own, rq, route)
      ensures Books(contacts, own, rq, route, node, c)
    {
      BookedMeans(contacts, own, rq, route, node, c);
    }
  }

  /** The neighbor selected is that of a route tried, by which the bundle is expected; by no route
      tried is it expected earlier, or as early over fewer hops, or so by way of a neighbor with a
      lower number. If none is selected, the bundle is expected by none. */
  lemma SelectionMeans(contacts: seq<CXref>, ranges: seq<RXref>, own: nat, rq: Request, routes: seq<CgrRoute>,
                       tried: seq<CgrRoute>, selected: Option<ProximateNode>)
    requires ContactsOrdered(contacts) && RangesOrdered(ranges) && rq.Valid() && ListSound(routes)
    requires forall r :: r in tried ==> r in routes
    requires Chosen(contacts, ranges, own, rq, tried, selected)
    ensures selected.Some? ==> exists r :: r in tried && TellsOf(contacts, ranges, own, rq, r, selected.value)
    ensures forall r, arrivalTime :: r in tried && arrivalTime != 0 && ExpectedAt(contacts, ranges, own, rq, r, arrivalTime) ==>
      && selected.Some? && var node := selected.value;
      || node.arrivalTime < arrivalTime
      || (node.arrivalTime == arrivalTime
          && (node.hopCount < |r.hops| || (node.hopCount == |r.hops| && node.neighborNodeNbr <= r.hops[0].toNode)))
  {
    if selected.Some? {
      var r :| r in tried && Offered(contacts, ranges, own, rq, r, selected.value);
      assert RouteSound(r);
      OfferTells(contacts, ranges, own, rq, r, selected.value);
    }
    forall r, arrivalTime | r in tried && arrivalTime != 0 && ExpectedAt(contacts, ranges, own, rq, r, arrivalTime)
      ensures TrialOf(r, arrivalTime) in Trials(contacts, ranges, own, rq, tried) && r.toNodeNbr == r.hops[0].toNode
    {
      assert RouteSound(r);
      ExpectedTrial(contacts, ranges, own, rq, r, arrivalTime);
      var k :| 0 <= k < |tried| && tried[k] == r;
      assert TrialBy(contacts, ranges, own, rq, tried[k], TrialOf(r, arrivalTime));
      TrialsAre(contacts, ranges, own, rq, tried, TrialOf(r, arrivalTime));
    }
  }
}
