/** Replacing an expired route by a search in which other routes' leading contacts are out. */
module Recomputing {
  import opened Keys
  import opened ContactPlan
  import opened ContactGraph
  import opened Dijkstra
  import opened SearchSteps
  import opened AnchoredSearch
  import opened Eto
  import opened Forwarding
  import opened Itineraries

  /** Where a route list's order puts a new route: after those that arrive no later. */
  ghost predicate InsertedAt(routes: seq<CgrRoute>, routes': seq<CgrRoute>, n: nat, route: CgrRoute) {
    && n <= |routes| && routes' == routes[..n] + [route] + routes[n..]
    && (forall k :: 0 <= k < n ==> routes[k].arrivalTime <= route.arrivalTime)
    && (n < |routes| ==> routes[n].arrivalTime > route.arrivalTime)
  }

  ghost predicate ByArrival(routes: seq<CgrRoute>) {
    forall i, j :: 0 <= i < j < |routes| ==> routes[i].arrivalTime <= routes[j].arrivalTime
  }

  lemma InsertionOrdered(routes: seq<CgrRoute>, routes': seq<CgrRoute>, n: nat, route: CgrRoute)
    requires ByArrival(routes) && InsertedAt(routes, routes', n, route)
    ensures ByArrival(routes')
  {
  }

  predicate SameLead(r: CgrRoute, toNode: nat, fromTime: int) {
    r.toNodeNbr == toNode && r.fromTime == fromTime
  }

  ghost predicate Leads(own: nat, r: CgrRoute, toNode: nat, fromTime: int, c: CXref) {
    !SameLead(r, toNode, fromTime) && Key(own, r.toNodeNbr, r.fromTime) == ContactKey(c)
  }

  /** The i'th contact leads a listed route other than those by a given contact. */
  ghost predicate LeadsListed(contacts: seq<CXref>, own: nat, routes: seq<CgrRoute>, toNode: nat, fromTime: int, i: nat) {
    i < |contacts| && exists k :: 0 <= k < |routes| && Leads(own, routes[k], toNode, fromTime, contacts[i])
  }

  /** The suppressions of a recomputation: every such leading contact, and no other. */
  ghost predicate LeadsSuppressed(contacts: seq<CXref>, own: nat, routes: seq<CgrRoute>, toNode: nat, fromTime: int, w: Notes) {
    |w| == |contacts| && forall i :: 0 <= i < |w| ==> (w[i].suppressed <==> LeadsListed(contacts, own, routes, toNode, fromTime, i))
  }

  /** The search that recomputes a route: leading contacts of the other listed routes are out. */
  ghost function Recomputation(contacts: seq<CXref>, ranges: seq<RXref>, own: nat, now: int, routes: seq<CgrRoute>,
                               toNode: nat, fromTime: int, payloadClass: int): Problem {
    var leads := set i: nat | i < |contacts| && LeadsListed(contacts, own, routes, toNode, fromTime, i);
    Problem(contacts, ranges, leads, MinCapacity(payloadClass), own, now)
  }

  /** The contact is still indexed and not over, and the search finds a route. */
  ghost predicate Replaceable(contacts: seq<CXref>, ranges: seq<RXref>, own: nat, terminus: nat, now: int,
                              routes: seq<CgrRoute>, toNode: nat, fromTime: int, payloadClass: int) {
    && (exists c :: c in contacts && ContactKey(c) == Key(own, toNode, fromTime) && c.toTime > now)
    && exists path :: Recomputation(contacts, ranges, own, now, routes, toNode, fromTime, payloadClass).Reaches(path, terminus)
  }

  lemma LeadsAreSuppressed(contacts: seq<CXref>, ranges: seq<RXref>, own: nat, now: int, routes: seq<CgrRoute>,
                           toNode: nat, fromTime: int, payloadClass: int, w: Notes)
    requires LeadsSuppressed(contacts, own, routes, toNode, fromTime, w)
    ensures Recomputation(contacts, ranges, own, now, routes, toNode, fromTime, payloadClass)
            == Problem(contacts, ranges, SuppressedIn(w), MinCapacity(payloadClass), own, now)
  {
    forall i: nat
      ensures i < |contacts| && LeadsListed(contacts, own, routes, toNode, fromTime, i) <==> i in SuppressedIn(w)
    {
    }
  }

  lemma LeadIndexed(contacts: seq<CXref>, k: Key, now: int)
    requires ContactsOrdered(contacts)
    ensures (exists c :: c in contacts && ContactKey(c) == k && c.toTime > now)
            <==> k in ContactKeys(contacts) && contacts[Position(ContactKeys(contacts), k)].toTime > now
  {
    var ks := ContactKeys(contacts);
    AfterPosition(ks, k);
    if c :| c in contacts && ContactKey(c) == k && c.toTime > now {
      var i :| 0 <= i < |contacts| && contacts[i] == c;
      LeadAt(contacts, k, i);
    }
    if k in ks {
      assert contacts[Position(ks, k)] in contacts;
    }
  }

  /** A recomputed route leads by the given contact, or by one that leads no listed route. */
  lemma NewLead(contacts: seq<CXref>, own: nat, routes: seq<CgrRoute>, toNode: nat, fromTime: int, w: Notes, route: CgrRoute)
    requires ContactsOrdered(contacts) && LeadsSuppressed(contacts, own, routes, toNode, fromTime, w)
    requires Follows(contacts, w, own, route.hops)
    requires route.toNodeNbr == route.hops[0].toNode && route.fromTime == route.hops[0].fromTime
    ensures SameLead(route, toNode, fromTime) || forall r :: r in routes ==> !SameLead(r, route.toNodeNbr, route.fromTime)
  {
    HopIndex(contacts, w, own, route.hops, 0);
    var i := IndexOf(contacts, route.hops[0]);
    forall r | r in routes && SameLead(r, route.toNodeNbr, route.fromTime)
      ensures SameLead(r, toNode, fromTime)
    {
      var k :| 0 <= k < |routes| && routes[k] == r;
      assert !LeadsListed(contacts, own, routes, toNode, fromTime, i);
    }
  }

  lemma LeadsStep(contacts: seq<CXref>, own: nat, routes: seq<CgrRoute>, k: nat, toNode: nat, fromTime: int, i: nat)
    requires k < |routes| && i < |contacts|
    ensures LeadsListed(contacts, own, routes[..k + 1], toNode, fromTime, i)
            == (LeadsListed(contacts, own, routes[..k], toNode, fromTime, i) || Leads(own, routes[k], toNode, fromTime, contacts[i]))
  {
    if LeadsListed(contacts, own, routes[..k], toNode, fromTime, i) {
      var j :| 0 <= j < k && Leads(own, routes[..k][j], toNode, fromTime, contacts[i]);
      assert routes[..k + 1][j] == routes[j];
    }
    assert routes[..k + 1][k] == routes[k];
  }

  /** Suppressing the contact that a route leads by, if it is in the index. */
  lemma LeadSuppressed(contacts: seq<CXref>, own: nat, routes: seq<CgrRoute>, k: nat, toNode: nat, fromTime: int, w: Notes, w': Notes)
    requires ContactsOrdered(contacts) && k < |routes| && |w'| == |w|
    requires LeadsSuppressed(contacts, own, routes[..k], toNode, fromTime, w)
    requires forall i :: 0 <= i < |w| ==>
      (w'[i].suppressed <==> w[i].suppressed || Leads(own, routes[k], toNode, fromTime, contacts[i]))
    ensures LeadsSuppressed(contacts, own, routes[..k + 1], toNode, fromTime, w')
  {
    forall i | 0 <= i < |w|
      ensures w'[i].suppressed <==> LeadsListed(contacts, own, routes[..k + 1], toNode, fromTime, i)
    {
      LeadsStep(contacts, own, routes, k, toNode, fromTime, i);
    }
  }

  lemma LeadAt(contacts: seq<CXref>, k: Key, i: nat)
    requires ContactsOrdered(contacts) && i < |contacts|
    ensures ContactKey(contacts[i]) == k <==> k in ContactKeys(contacts) && i == Position(ContactKeys(contacts), k)
  {
    AfterPosition(ContactKeys(contacts), k);
    var n := Position(ContactKeys(contacts), k);
    assert i < n ==> Below(ContactKeys(contacts)[i], k);
    assert ContactKeys(contacts)[i] == ContactKey(contacts[i]);
  }

  /** A route that replaces another: a best one of the search, which no other path is ahead of. */
  ghost predicate NewRoute(contacts: seq<CXref>, ranges: seq<RXref>, own: nat, terminus: nat, now: int, routes: seq<CgrRoute>,
                           toNode: nat, fromTime: int, payloadClass: int, route: CgrRoute) {
    && route.toTime > now && RouteSound(route) && route.payloadClass == payloadClass
    && BestRoute(Recomputation(contacts, ranges, own, now, routes, toNode, fromTime, payloadClass), terminus, route)
    && PromptRoute(Recomputation(contacts, ranges, own, now, routes, toNode, fromTime, payloadClass), terminus, route)
    && (SameLead(route, toNode, fromTime) || forall r :: r in routes ==> !SameLead(r, route.toNodeNbr, route.fromTime))
  }

  /** A route list after the recomputation of a route. */
  ghost predicate Recomputed(contacts: seq<CXref>, ranges: seq<RXref>, own: nat, terminus: nat, now: int, routes: seq<CgrRoute>,
                             toNode: nat, fromTime: int, payloadClass: int, routes': seq<CgrRoute>, n: nat, route: CgrRoute) {
    && InsertedAt(routes, routes', n, route)
    && NewRoute(contacts, ranges, own, terminus, now, routes, toNode, fromTime, payloadClass, route)
  }

  lemma RouteRecomputed(p: Problem, terminus: nat, routes: seq<CgrRoute>, toNode: nat, fromTime: int, w: Notes,
                        route: CgrRoute)
    requires ContactsOrdered(p.contacts) && AllFit(p.contacts) && p.suppressed == SuppressedIn(w) && p.now >= 0
    requires p.floor == MinCapacity(route.payloadClass)
    requires LeadsSuppressed(p.contacts, p.source, routes, toNode, fromTime, w)
    requires BestRoute(p, terminus, route) && PromptRoute(p, terminus, route)
    ensures NewRoute(p.contacts, p.ranges, p.source, terminus, p.now, routes, toNode, fromTime, route.payloadClass, route)
  {
    FreshRoute(p, terminus, route);
    BestRouteSound(p, terminus, route);
    BestRouteFollows(p, w, terminus, route);
    BestRouteLead(p, terminus, route);
    NewLead(p.contacts, p.source, routes, toNode, fromTime, w, route);
    LeadsAreSuppressed(p.contacts, p.ranges, p.source, p.now, routes, toNode, fromTime, route.payloadClass, w);
  }

  lemma BestRouteLead(p: Problem, terminus: nat, route: CgrRoute)
    requires BestRoute(p, terminus, route)
    ensures route.hops != [] && route.toNodeNbr == route.hops[0].toNode && route.fromTime == route.hops[0].fromTime
  {
  }

  /** The contacts of the node itself that lead listed routes, other than those by a given one. */
  ghost function OtherLeads(contacts: seq<CXref>, own: nat, routes: seq<CgrRoute>, toNode: nat, fromTime: int): set<CXref> {
    set c, r | c in contacts && r in routes && c.fromNode == own && c.toNode == r.toNodeNbr && c.fromTime == r.fromTime
               && !(c.toNode == toNode && c.fromTime == fromTime) :: c
  }

  lemma RecomputationBars(contacts: seq<CXref>, ranges: seq<RXref>, own: nat, now: int, routes: seq<CgrRoute>,
                          toNode: nat, fromTime: int, payloadClass: int)
    ensures RuledOut(Recomputation(contacts, ranges, own, now, routes, toNode, fromTime, payloadClass))
            == OtherLeads(contacts, own, routes, toNode, fromTime)
  {
    var p := Recomputation(contacts, ranges, own, now, routes, toNode, fromTime, payloadClass);
    forall c
      ensures c in RuledOut(p) <==> c in OtherLeads(contacts, own, routes, toNode, fromTime)
    {
      if c in RuledOut(p) {
        var i :| i in p.suppressed && i < |contacts| && contacts[i] == c;
        var k :| 0 <= k < |routes| && Leads(own, routes[k], toNode, fromTime, contacts[i]);
        assert routes[k] in routes;
      }
      if c in OtherLeads(contacts, own, routes, toNode, fromTime) {
        var r :| r in routes && c.toNode == r.toNodeNbr && c.fromTime == r.fromTime;
        var i :| 0 <= i < |contacts| && contacts[i] == c;
        var k :| 0 <= k < |routes| && routes[k] == r;
        assert Leads(own, routes[k], toNode, fromTime, contacts[i]) && LeadsListed(contacts, own, routes, toNode, fromTime, i);
      }
    }
  }

  /** A route is replaced exactly if its contact is indexed and not over, and a journey is possible
      that avoids the other leading contacts. */
  lemma ReplaceableMeans(contacts: seq<CXref>, ranges: seq<RXref>, own: nat, terminus: nat, now: int, routes: seq<CgrRoute>,
                         toNode: nat, fromTime: int, payloadClass: int)
    requires ContactsOrdered(contacts) && RangesOrdered(ranges)
    ensures Replaceable(contacts, ranges, own, terminus, now, routes, toNode, fromTime, payloadClass) <==>
      && (exists c :: c in contacts && c.fromNode == own && c.toNode == toNode && c.fromTime == fromTime && c.toTime > now)
      && exists legs :: Itinerary(contacts, ranges, OtherLeads(contacts, own, routes, toNode, fromTime), MinCapacity(payloadClass),
                                  own, now, terminus, legs)
  {
    var p := Recomputation(contacts, ranges, own, now, routes, toNode, fromTime, payloadClass);
    RecomputationBars(contacts, ranges, own, now, routes, toNode, fromTime, payloadClass);
    NoJourney(p, terminus);
    assert forall c: CXref ::
      ContactKey(c) == Key(own, toNode, fromTime) <==> c.fromNode == own && c.toNode == toNode && c.fromTime == fromTime;
    assert forall legs ::
      Journey(p, terminus, legs)
      <==> Itinerary(contacts, ranges, OtherLeads(contacts, own, routes, toNode, fromTime), MinCapacity(payloadClass),
                     own, now, terminus, legs);
  }

  /** So it is if a journey is still possible that starts with the contact itself. */
  lemma StillReplaceable(contacts: seq<CXref>, ranges: seq<RXref>, own: nat, terminus: nat, now: int, routes: seq<CgrRoute>,
                         toNode: nat, fromTime: int, payloadClass: int, legs: seq<Leg>)
    requires ContactsOrdered(contacts) && RangesOrdered(ranges)
    requires Itinerary(contacts, ranges, {}, MinCapacity(payloadClass), own, now, terminus, legs)
    requires legs[0].hop.toNode == toNode && legs[0].hop.fromTime == fromTime
    requires forall k :: 0 < k < |legs| ==> legs[k].hop.fromNode != own
    ensures Replaceable(contacts, ranges, own, terminus, now, routes, toNode, fromTime, payloadClass)
  {
    var barred, floor := OtherLeads(contacts, own, routes, toNode, fromTime), MinCapacity(payloadClass);
    forall k | 0 <= k < |legs|
      ensures Continues(contacts, ranges, barred, floor, now, legs, k)
    {
      assert Continues(contacts, ranges, {}, floor, now, legs, k);
    }
    assert Itinerary(contacts, ranges, barred, floor, own, now, terminus, legs);
    assert Continues(contacts, ranges, {}, floor, now, legs, 0);
    ReplaceableMeans(contacts, ranges, own, terminus, now, routes, toNode, fromTime, payloadClass);
  }

  /** The new route is a journey that avoids the other leading contacts, tells of its hops what is true,
      and none of them is over; no such journey arrives earlier. It stands behind the routes that
      arrive no later, up to the first that arrives later. */
  lemma RecomputedMeans(contacts: seq<CXref>, ranges: seq<RXref>, own: nat, terminus: nat, now: int, routes: seq<CgrRoute>,
                        toNode: nat, fromTime: int, payloadClass: int, routes': seq<CgrRoute>, n: nat, route: CgrRoute)
    requires ContactsOrdered(contacts) && RangesOrdered(ranges)
    requires Recomputed(contacts, ranges, own, terminus, now, routes, toNode, fromTime, payloadClass, routes', n, route)
    ensures TellsOfHops(route) && forall h :: h in route.hops ==> h.toTime > now
    ensures n <= |routes| && routes' == routes[..n] + [route] + routes[n..]
    ensures forall k :: 0 <= k < n ==> routes[k].arrivalTime <= route.arrivalTime
    ensures n < |routes| ==> routes[n].arrivalTime > route.arrivalTime
    ensures var barred, floor := OtherLeads(contacts, own, routes, toNode, fromTime), MinCapacity(payloadClass);
      && (exists legs: seq<Leg> ::
            Itinerary(contacts, ranges, barred, floor, own, now, terminus, legs) && Takes(legs, route.hops)
            && legs[|legs| - 1].arrival == route.arrivalTime)
      && forall legs: seq<Leg> :: Itinerary(contacts, ranges, barred, floor, own, now, terminus, legs) ==>
           route.arrivalTime <= legs[|legs| - 1].arrival
  {
    var p := Recomputation(contacts, ranges, own, now, routes, toNode, fromTime, payloadClass);
    RecomputationBars(contacts, ranges, own, now, routes, toNode, fromTime, payloadClass);
    BestIsEarliest(p, terminus, route);
    BestTellsOfHops(p, terminus, route);
    assert forall legs: seq<Leg> ::
      Journey(p, terminus, legs)
      <==> Itinerary(contacts, ranges, OtherLeads(contacts, own, routes, toNode, fromTime), MinCapacity(payloadClass),
                     own, now, terminus, legs);
  }

  // ---------------------------------------------------------- which contact a new route leads by

  /** The path starts with the contact that has the key. */
  ghost predicate Starts(p: Problem, path: seq<nat>, k: Key) {
    path != [] && path[0] < |p.contacts| && ContactKey(p.contacts[path[0]]) == k
  }

  lemma {:induction false} FirstReady(p: Problem, path: seq<nat>)
    requires p.Feasible(path) && path != []
    ensures p.Ready(path[0], p.source, p.now) && p.EndTime(path) >= p.Arrival(path[0], p.now)
  {
    var q, i := path[..|path| - 1], path[|path| - 1];
    if q == [] {
      assert p.EndNode(q) == p.source && p.EndTime(q) == p.now;
    } else {
      FirstReady(p, q);
      ArrivalMonotone(p, i, p.EndTime(q), p.EndTime(q));
    }
  }

  /** The prompt paths to the terminus all start with the contact, or all do not. */
  ghost predicate Decided(p: Problem, terminus: nat, k: Key, starting: bool) {
    forall path :: p.Reaches(path, terminus) && Prompt(p, path) ==> Starts(p, path, k) == starting
  }

  /** A recomputed route leads by the given contact if all prompt paths start with it, and does
      not if none does. */
  lemma RecomputedLead(p: Problem, terminus: nat, route: CgrRoute, toNode: nat, fromTime: int)
    requires PromptRoute(p, terminus, route)
    ensures var k := Key(p.source, toNode, fromTime);
      && (Decided(p, terminus, k, true) ==> SameLead(route, toNode, fromTime))
      && (Decided(p, terminus, k, false) ==> !SameLead(route, toNode, fromTime))
  {
    var path :| Describes(p, route, path) && p.Reaches(path, terminus) && Prompt(p, path);
    FirstLeavesSource(p, path);
    assert route.hops[0] == p.contacts[path[0]];
  }

  /** Some path that starts with the contact, or does not, arrives before all those of the other kind. */
  ghost predicate Prevails(p: Problem, terminus: nat, k: Key, starting: bool) {
    exists path :: p.Reaches(path, terminus) && Starts(p, path, k) == starting && AheadOfOthers(p, terminus, k, starting, p.EndTime(path))
  }

  ghost predicate AheadOfOthers(p: Problem, terminus: nat, k: Key, starting: bool, time: int) {
    forall other :: p.Reaches(other, terminus) && Starts(p, other, k) != starting ==> time < p.EndTime(other)
  }

  /** That decides it: a prompt path arrives no later. */
  lemma PrevailingDecides(p: Problem, terminus: nat, k: Key, starting: bool)
    requires Prevails(p, terminus, k, starting)
    ensures Decided(p, terminus, k, starting)
  {
    var ahead :| p.Reaches(ahead, terminus) && Starts(p, ahead, k) == starting && AheadOfOthers(p, terminus, k, starting, p.EndTime(ahead));
    forall path | p.Reaches(path, terminus) && Prompt(p, path)
      ensures Starts(p, path, k) == starting
    {
      assert path[..|path|] == path && NoneAhead(p, path[..|path|]);
    }
  }

  /** Among paths that arrive at the same time, one that is overtaken at a node on its way is
      not found. */
  lemma OvertakenNotPrompt(p: Problem, path: seq<nat>, n: nat, other: seq<nat>)
    requires 0 < n <= |path| && p.InGraph(path[..n]) && p.Reaches(other, p.EndNode(path[..n]))
    requires p.EndTime(other) < p.EndTime(path[..n])
    ensures !Prompt(p, path)
  {
    assert !NoneAhead(p, path[..n]);
  }

  /** Every other local contact that data could leave by leads a listed route. */
  ghost predicate OthersLead(contacts: seq<CXref>, ranges: seq<RXref>, own: nat, now: int, routes: seq<CgrRoute>,
                             toNode: nat, fromTime: int, payloadClass: int) {
    forall i: nat :: Unrestricted(contacts, ranges, own, now, payloadClass).Ready(i, own, now)
                     && ContactKey(contacts[i]) != Key(own, toNode, fromTime) ==>
      LeadsListed(contacts, own, routes, toNode, fromTime, i)
  }

  /** Then the recomputed route leads by the given contact. */
  lemma NoOtherLead(contacts: seq<CXref>, ranges: seq<RXref>, own: nat, now: int, routes: seq<CgrRoute>,
                    toNode: nat, fromTime: int, payloadClass: int, terminus: nat, route: CgrRoute)
    requires OthersLead(contacts, ranges, own, now, routes, toNode, fromTime, payloadClass)
    requires PromptRoute(Recomputation(contacts, ranges, own, now, routes, toNode, fromTime, payloadClass), terminus, route)
    ensures SameLead(route, toNode, fromTime)
  {
    var p := Recomputation(contacts, ranges, own, now, routes, toNode, fromTime, payloadClass);
    forall path | p.Reaches(path, terminus)
      ensures Starts(p, path, Key(own, toNode, fromTime))
    {
      FirstReady(p, path);
      assert Unrestricted(contacts, ranges, own, now, payloadClass).Ready(path[0], own, now);
    }
    RecomputedLead(p, terminus, route, toNode, fromTime);
  }
}
