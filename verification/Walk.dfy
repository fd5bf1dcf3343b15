/** The walk of a terminus's route list, during which routes expire and are recomputed. */
module Walk {
  import opened ContactPlan
  import opened ContactGraph
  import opened AnchoredSearch
  import opened Eto
  import opened Selection
  import opened Forwarding
  import opened Recomputing

  // ---------------------------------------------------------- why the walk ends

  function Expired(routes: seq<CgrRoute>, now: int): nat {
    if routes == [] then 0 else Expired(routes[..|routes| - 1], now) + if routes[|routes| - 1].toTime < now then 1 else 0
  }

  lemma {:induction false} ExpiredSum(a: seq<CgrRoute>, b: seq<CgrRoute>, now: int)
    ensures Expired(a + b, now) == Expired(a, now) + Expired(b, now)
  {
    if b == [] {
      assert a + b == a;
    } else {
      assert (a + b)[..|a + b| - 1] == a + b[..|b| - 1];
      ExpiredSum(a, b[..|b| - 1], now);
    }
  }

  lemma ExpiredRemoved(routes: seq<CgrRoute>, i: nat, now: int)
    requires i < |routes| && routes[i].toTime < now
    ensures Expired(routes[..i] + routes[i + 1..], now) < Expired(routes, now)
  {
    assert routes == (routes[..i] + [routes[i]]) + routes[i + 1..];
    ExpiredSum(routes[..i] + [routes[i]], routes[i + 1..], now);
    ExpiredSum(routes[..i], [routes[i]], now);
    ExpiredSum(routes[..i], routes[i + 1..], now);
  }

  lemma ExpiredInserted(routes: seq<CgrRoute>, n: nat, route: CgrRoute, now: int)
    requires n <= |routes| && route.toTime >= now
    ensures Expired(routes[..n] + [route] + routes[n..], now) == Expired(routes, now)
  {
    assert routes == routes[..n] + routes[n..];
    ExpiredSum(routes[..n] + [route], routes[n..], now);
    ExpiredSum(routes[..n], [route], now);
    ExpiredSum(routes[..n], routes[n..], now);
  }

  // ---------------------------------------------------------- the walk

  /** The route would arrive too late: the walk goes no further. */
  predicate Late(rq: Request, route: CgrRoute) {
    route.arrivalTime > rq.bundle.Deadline()
  }

  ghost predicate NoneLate(rq: Request, routes: seq<CgrRoute>, n: int) {
    forall j :: 0 <= j < n && j < |routes| ==> !Late(rq, routes[j])
  }

  /** Everything before position i is current and not late, and tried if the request admits it. */
  ghost predicate Walked(own: nat, rq: Request, routes: seq<CgrRoute>, i: int, tried: seq<CgrRoute>) {
    && 0 <= i <= |routes|
    && forall k :: 0 <= k < i ==>
         routes[k].toTime >= rq.now && !Late(rq, routes[k]) && (rq.Admits(own, routes[k]) ==> routes[k] in tried)
  }

  /** The route stands in the list before any that is late. */
  ghost predicate InReach(rq: Request, routes: seq<CgrRoute>, route: CgrRoute) {
    exists k :: 0 <= k < |routes| && routes[k] == route && NoneLate(rq, routes, k + 1)
  }

  /** Everything tried was admitted, and is in reach. */
  ghost predicate TriedInReach(own: nat, rq: Request, routes: seq<CgrRoute>, tried: seq<CgrRoute>) {
    forall r :: r in tried ==> rq.Admits(own, r) && InReach(rq, routes, r)
  }

  /** The walk is over, at the end of the list or at the first late route: up to there all
      routes are current, and those admitted, and no others, were tried. */
  ghost predicate WalkOver(own: nat, rq: Request, routes: seq<CgrRoute>, tried: seq<CgrRoute>, stop: int) {
    && 0 <= stop <= |routes| && NoneLate(rq, routes, stop) && (stop < |routes| ==> Late(rq, routes[stop]))
    && (forall k :: 0 <= k < stop ==> routes[k].toTime >= rq.now)
    && forall r :: r in tried <==> r in routes[..stop] && rq.Admits(own, r)
  }

  lemma WalkEnds(own: nat, rq: Request, routes: seq<CgrRoute>, i: int, tried: seq<CgrRoute>)
    requires Walked(own, rq, routes, i, tried) && TriedInReach(own, rq, routes, tried)
    requires i < |routes| ==> Late(rq, routes[i])
    ensures WalkOver(own, rq, routes, tried, i)
  {
    forall r | r in tried
      ensures r in routes[..i]
    {
      var k :| 0 <= k < |routes| && routes[k] == r && NoneLate(rq, routes, k + 1);
      assert k < i;
      assert routes[..i][k] == r;
    }
  }

  /** Every admitted route stands in the list before any that is late. */
  ghost predicate AllInReach(own: nat, rq: Request, routes: seq<CgrRoute>) {
    forall r :: r in routes && rq.Admits(own, r) ==> InReach(rq, routes, r)
  }

  lemma TriedIfInReach(own: nat, rq: Request, routes: seq<CgrRoute>, tried: seq<CgrRoute>, stop: int, r: CgrRoute)
    requires WalkOver(own, rq, routes, tried, stop) && rq.Admits(own, r)
    ensures r in tried <==> InReach(rq, routes, r)
  {
    if k :| 0 <= k < |routes| && routes[k] == r && NoneLate(rq, routes, k + 1) {
      assert k < stop;
      assert routes[..stop][k] == r;
    }
    if k :| 0 <= k < stop && routes[..stop][k] == r {
      assert routes[k] == r && NoneLate(rq, routes, k + 1);
    }
  }

  /** The walk tries every admitted route in the list exactly if all of them are in reach. */
  lemma WalkTriesAll(own: nat, rq: Request, routes: seq<CgrRoute>, tried: seq<CgrRoute>, stop: int)
    requires WalkOver(own, rq, routes, tried, stop)
    ensures (forall r :: r in routes && rq.Admits(own, r) ==> r in tried) <==> AllInReach(own, rq, routes)
  {
    forall r | r in routes && rq.Admits(own, r)
      ensures r in tried <==> InReach(rq, routes, r)
    {
      TriedIfInReach(own, rq, routes, tried, stop, r);
    }
  }

  /** So it is in a list in order of arrival. */
  lemma OrderedInReach(own: nat, rq: Request, routes: seq<CgrRoute>)
    requires ByArrival(routes)
    ensures AllInReach(own, rq, routes)
  {
    forall r | r in routes && rq.Admits(own, r)
      ensures InReach(rq, routes, r)
    {
      var k :| 0 <= k < |routes| && routes[k] == r;
      assert NoneLate(rq, routes, k + 1);
    }
  }

  // ---------------------------------------------------------- when the list changes

  /** A late route that has not expired stands before position k. */
  ghost predicate Barrier(rq: Request, routes: seq<CgrRoute>, k: int) {
    exists j :: 0 <= j < k && j < |routes| && Late(rq, routes[j]) && routes[j].toTime >= rq.now
  }

  /** Wherever the route stands in the list, there is such a barrier before it. */
  ghost predicate Blocked(rq: Request, routes: seq<CgrRoute>, route: CgrRoute) {
    forall k :: 0 <= k < |routes| && routes[k] == route ==> Barrier(rq, routes, k)
  }

  lemma ReachRemoved(rq: Request, routes: seq<CgrRoute>, i: nat, route: CgrRoute)
    requires i < |routes| && routes[i].toTime < rq.now <= route.toTime && InReach(rq, routes, route)
    ensures InReach(rq, routes[..i] + routes[i + 1..], route)
  {
    var routes' := routes[..i] + routes[i + 1..];
    var k :| 0 <= k < |routes| && routes[k] == route && NoneLate(rq, routes, k + 1);
    var k' := if k < i then k else k - 1;
    assert routes'[k'] == route && NoneLate(rq, routes', k' + 1);
  }

  lemma BlockedRemoved(rq: Request, routes: seq<CgrRoute>, i: nat, route: CgrRoute)
    requires i < |routes| && routes[i].toTime < rq.now && Blocked(rq, routes, route)
    ensures Blocked(rq, routes[..i] + routes[i + 1..], route)
  {
    var routes' := routes[..i] + routes[i + 1..];
    forall k' | 0 <= k' < |routes'| && routes'[k'] == route
      ensures Barrier(rq, routes', k')
    {
      var k := if k' < i then k' else k' + 1;
      assert routes[k] == route;
      var j :| 0 <= j < k && j < |routes| && Late(rq, routes[j]) && routes[j].toTime >= rq.now;
      assert routes'[if j < i then j else j - 1] == routes[j];
    }
  }

  /** A new route never comes between a late one and those before it. */
  lemma ReachInserted(rq: Request, routes: seq<CgrRoute>, routes': seq<CgrRoute>, n: nat, added: CgrRoute, route: CgrRoute)
    requires InsertedAt(routes, routes', n, added)
    requires InReach(rq, routes, route) || (route == added && !Late(rq, added))
    ensures InReach(rq, routes', route)
  {
    if InReach(rq, routes, route) {
      var k :| 0 <= k < |routes| && routes[k] == route && NoneLate(rq, routes, k + 1);
      var k' := if k < n then k else k + 1;
      assert routes'[k'] == route && NoneLate(rq, routes', k' + 1);
    } else {
      assert routes'[n] == route && NoneLate(rq, routes', n + 1);
    }
  }

  lemma BlockedInserted(rq: Request, routes: seq<CgrRoute>, routes': seq<CgrRoute>, n: nat, added: CgrRoute, route: CgrRoute)
    requires InsertedAt(routes, routes', n, added) && Blocked(rq, routes, route) && route != added
    ensures Blocked(rq, routes', route)
  {
    forall k' | 0 <= k' < |routes'| && routes'[k'] == route
      ensures Barrier(rq, routes', k')
    {
      var k := if k' < n then k' else k' - 1;
      assert routes[k] == route;
      var j :| 0 <= j < k && j < |routes| && Late(rq, routes[j]) && routes[j].toTime >= rq.now;
      assert routes'[if j < n then j else j + 1] == routes[j];
    }
  }

  /** What is current and in reach stays in reach, and what is added in time is in reach. */
  ghost predicate ReachKept(rq: Request, was: seq<CgrRoute>, routes: seq<CgrRoute>) {
    && (forall r: CgrRoute :: r.toTime >= rq.now && InReach(rq, was, r) ==> InReach(rq, routes, r))
    && (forall r :: r in routes && r !in was && !Late(rq, r) ==> InReach(rq, routes, r))
  }

  lemma ReachKeptTwice(rq: Request, was: seq<CgrRoute>, mid: seq<CgrRoute>, routes: seq<CgrRoute>)
    requires ReachKept(rq, was, mid) && ReachKept(rq, mid, routes) && forall r :: r in mid && r !in was ==> r.toTime >= rq.now
    ensures ReachKept(rq, was, routes)
  {
    forall r | r in routes && r !in was && !Late(rq, r)
      ensures InReach(rq, routes, r)
    {
      assert r in mid ==> InReach(rq, mid, r);
    }
  }

  lemma AllInReachKept(own: nat, rq: Request, was: seq<CgrRoute>, routes: seq<CgrRoute>)
    requires ReachKept(rq, was, routes) && AllInReach(own, rq, was)
    ensures AllInReach(own, rq, routes)
  {
    forall r | r in routes && rq.Admits(own, r)
      ensures InReach(rq, routes, r)
    {
      assert r in was ==> InReach(rq, was, r);
    }
  }

  lemma OrderRemoved(rq: Request, routes: seq<CgrRoute>, i: nat)
    requires i < |routes| && routes[i].toTime < rq.now
    ensures var routes' := routes[..i] + routes[i + 1..];
      (ByArrival(routes) ==> ByArrival(routes')) && ReachKept(rq, routes, routes')
  {
    var routes' := routes[..i] + routes[i + 1..];
    forall r: CgrRoute | r.toTime >= rq.now && InReach(rq, routes, r)
      ensures InReach(rq, routes', r)
    {
      ReachRemoved(rq, routes, i, r);
    }
  }

  lemma OrderInserted(rq: Request, routes: seq<CgrRoute>, routes': seq<CgrRoute>, n: nat, route: CgrRoute)
    requires InsertedAt(routes, routes', n, route)
    ensures (ByArrival(routes) ==> ByArrival(routes')) && ReachKept(rq, routes, routes')
  {
    if ByArrival(routes) {
      InsertionOrdered(routes, routes', n, route);
    }
    forall r | InReach(rq, routes, r) || (r in routes' && r !in routes && !Late(rq, r))
      ensures InReach(rq, routes', r)
    {
      assert r in routes' ==> r in routes || r == route;
      ReachInserted(rq, routes, routes', n, route, r);
    }
  }

  // ---------------------------------------------------------- the walk's invariant

  /** What holds when the walk is at position i of a terminus's route list. */
  ghost predicate Walking(contacts: seq<CXref>, ranges: seq<RXref>, own: nat, rq: Request, routes: seq<CgrRoute>,
                          nodes: seq<ProximateNode>, i: int, tried: seq<CgrRoute>) {
    && ListSound(routes) && HaveHops(tried)
    && Walked(own, rq, routes, i, tried) && TriedInReach(own, rq, routes, tried)
    && Represents(nodes, Trials(contacts, ranges, own, rq, tried)) && AllOffered(contacts, ranges, own, rq, tried, nodes)
  }

  lemma WalkStarts(contacts: seq<CXref>, ranges: seq<RXref>, own: nat, rq: Request, routes: seq<CgrRoute>)
    requires ListSound(routes)
    ensures Walking(contacts, ranges, own, rq, routes, [], 0, [])
  {
  }

  lemma WalkPasses(contacts: seq<CXref>, ranges: seq<RXref>, own: nat, rq: Request, routes: seq<CgrRoute>,
                   nodes: seq<ProximateNode>, i: nat, tried: seq<CgrRoute>)
    requires Walking(contacts, ranges, own, rq, routes, nodes, i, tried) && i < |routes|
    requires routes[i].toTime >= rq.now && !Late(rq, routes[i]) && !rq.Admits(own, routes[i])
    ensures Walking(contacts, ranges, own, rq, routes, nodes, i + 1, tried)
  {
  }

  lemma WalkTries(contacts: seq<CXref>, ranges: seq<RXref>, own: nat, rq: Request, routes: seq<CgrRoute>,
                  nodes: seq<ProximateNode>, nodes': seq<ProximateNode>, i: nat, tried: seq<CgrRoute>)
    requires Walking(contacts, ranges, own, rq, routes, nodes, i, tried) && i < |routes|
    requires rq.Admits(own, routes[i]) && HaveHops(tried + [routes[i]])
    requires Represents(nodes', Trials(contacts, ranges, own, rq, tried + [routes[i]]))
    requires AllOffered(contacts, ranges, own, rq, tried + [routes[i]], nodes')
    ensures Walking(contacts, ranges, own, rq, routes, nodes', i + 1, tried + [routes[i]])
  {
    var tried' := tried + [routes[i]];
    assert forall r :: r in tried' <==> r in tried || r == routes[i];
    assert NoneLate(rq, routes, i + 1);
  }

  /** An expired route can be deleted: the positions before it are as they were. */
  lemma WalkDeletes(contacts: seq<CXref>, ranges: seq<RXref>, own: nat, rq: Request, routes: seq<CgrRoute>,
                    nodes: seq<ProximateNode>, i: nat, tried: seq<CgrRoute>)
    requires Walking(contacts, ranges, own, rq, routes, nodes, i, tried) && i < |routes| && routes[i].toTime < rq.now
    ensures var routes' := routes[..i] + routes[i + 1..];
      Walking(contacts, ranges, own, rq, routes', nodes, i, tried) && Expired(routes', rq.now) < Expired(routes, rq.now)
  {
    forall r | r in tried
      ensures InReach(rq, routes[..i] + routes[i + 1..], r)
    {
      ReachRemoved(rq, routes, i, r);
    }
    ExpiredRemoved(routes, i, rq.now);
  }

  /** After a recomputation the walk starts again, with fewer expired routes ahead. */
  lemma WalkRestarts(contacts: seq<CXref>, ranges: seq<RXref>, own: nat, rq: Request, routes: seq<CgrRoute>,
                     nodes: seq<ProximateNode>, i: nat, tried: seq<CgrRoute>,
                     terminus: nat, toNode: nat, fromTime: int, payloadClass: int, routes': seq<CgrRoute>, n: nat, route: CgrRoute)
    requires Walking(contacts, ranges, own, rq, routes, nodes, i, tried)
    requires Recomputed(contacts, ranges, own, terminus, rq.now, routes, toNode, fromTime, payloadClass, routes', n, route)
    ensures Walking(contacts, ranges, own, rq, routes', nodes, 0, tried) && Expired(routes', rq.now) == Expired(routes, rq.now)
  {
    forall r | r in tried
      ensures InReach(rq, routes', r)
    {
      ReachInserted(rq, routes, routes', n, route, r);
    }
    ExpiredInserted(routes, n, route, rq.now);
    assert forall r :: r in routes' ==> r in routes[..n] || r == route || r in routes[n..];
  }

  lemma ListStartsSound(contacts: seq<CXref>, ranges: seq<RXref>, own: nat, now: int, terminus: nat, routes: seq<CgrRoute>)
    requires RouteList(contacts, ranges, own, now, terminus, routes, PAYLOAD_CLASSES - 1) && AllFit(contacts) && now >= 0
    ensures ListSound(routes) && forall r :: r in routes ==> UsesOnly(contacts, r)
  {
    forall r | r in routes
      ensures RouteSound(r) && UsesOnly(contacts, r)
    {
      var j :| 0 <= j < |routes| && routes[j] == r;
      assert Enumerated(contacts, ranges, own, now, terminus, routes[..j], routes[j]);
      var suppressed: set<nat> :| AllListed(contacts, routes[..j], suppressed)
        && BestRoute(Problem(contacts, ranges, suppressed, MinCapacity(r.payloadClass), own, now), terminus, r);
      BestRouteSound(Problem(contacts, ranges, suppressed, MinCapacity(r.payloadClass), own, now), terminus, r);
      BestRouteUsesOnly(Problem(contacts, ranges, suppressed, MinCapacity(r.payloadClass), own, now), terminus, r);
    }
  }

  // ---------------------------------------------------------- what the walk makes of a list

  /** The route is a best one when the leading contacts of some of the routes that were or are
      listed are suppressed, and nothing else. */
  ghost predicate Replacement(contacts: seq<CXref>, ranges: seq<RXref>, own: nat, now: int, terminus: nat,
                              was: seq<CgrRoute>, routes: seq<CgrRoute>, route: CgrRoute) {
    exists others: seq<CgrRoute>, toNode: nat, fromTime: int ::
      ReplacedAmong(contacts, ranges, own, now, terminus, was, routes, route, others, toNode, fromTime)
  }

  ghost predicate ReplacedAmong(contacts: seq<CXref>, ranges: seq<RXref>, own: nat, now: int, terminus: nat,
                                was: seq<CgrRoute>, routes: seq<CgrRoute>, route: CgrRoute,
                                others: seq<CgrRoute>, toNode: nat, fromTime: int) {
    && (forall r :: r in others ==> r in was || r in routes)
    && BestRoute(Recomputation(contacts, ranges, own, now, others, toNode, fromTime, route.payloadClass), terminus, route)
  }

  /** Routes that have not expired are kept, and only best routes are added. */
  ghost predicate Updated(contacts: seq<CXref>, ranges: seq<RXref>, own: nat, now: int, terminus: nat,
                          was: seq<CgrRoute>, routes: seq<CgrRoute>) {
    && (forall r :: r in was && r.toTime >= now ==> r in routes)
    && (forall r :: r in routes ==> r in was || Replacement(contacts, ranges, own, now, terminus, was, routes, r))
  }

  /** Order of arrival is kept, and so is what is in reach; without expired routes nothing
      changes at all. What is blocked stays so, unless it is found again. */
  ghost predicate OrderKept(contacts: seq<CXref>, ranges: seq<RXref>, own: nat, rq: Request, terminus: nat,
                            was: seq<CgrRoute>, routes: seq<CgrRoute>) {
    && (ByArrival(was) ==> ByArrival(routes)) && ReachKept(rq, was, routes)
    && (Expired(was, rq.now) == 0 ==> routes == was)
    && (forall r :: Blocked(rq, was, r) ==>
          Blocked(rq, routes, r) || Replacement(contacts, ranges, own, rq.now, terminus, was, routes, r))
  }

  /** What the walk makes of a list, in contents and in order. */
  ghost predicate Evolved(contacts: seq<CXref>, ranges: seq<RXref>, own: nat, rq: Request, terminus: nat,
                          was: seq<CgrRoute>, routes: seq<CgrRoute>) {
    && Updated(contacts, ranges, own, rq.now, terminus, was, routes)
    && OrderKept(contacts, ranges, own, rq, terminus, was, routes)
  }

  /** A route behind a late one that stays is not tried, unless it is found again. */
  lemma BlockedNotTried(contacts: seq<CXref>, ranges: seq<RXref>, own: nat, rq: Request, terminus: nat,
                        was: seq<CgrRoute>, routes: seq<CgrRoute>, tried: seq<CgrRoute>, stop: int, route: CgrRoute)
    requires Evolved(contacts, ranges, own, rq, terminus, was, routes) && WalkOver(own, rq, routes, tried, stop)
    requires Blocked(rq, was, route) && !Replacement(contacts, ranges, own, rq.now, terminus, was, routes, route)
    ensures route !in tried
  {
    forall k | 0 <= k < stop
      ensures routes[k] != route
    {
      assert !Barrier(rq, routes, k);
    }
    assert route !in routes[..stop];
  }

  /** What the list passed to the walk says of the routes it tries: the admitted ones in reach
      are tried, and so are those that are found anew; blocked ones are not, unless they are
      found again. If none has expired, the admitted ones in reach are all. */
  lemma TriesInReach(contacts: seq<CXref>, ranges: seq<RXref>, own: nat, rq: Request, terminus: nat,
                     was: seq<CgrRoute>, routes: seq<CgrRoute>, tried: seq<CgrRoute>, stop: int)
    requires Evolved(contacts, ranges, own, rq, terminus, was, routes) && WalkOver(own, rq, routes, tried, stop)
    ensures forall r :: rq.Admits(own, r) && (InReach(rq, was, r) || (r in routes && r !in was)) ==> r in tried
    ensures forall r :: Blocked(rq, was, r) && !Replacement(contacts, ranges, own, rq.now, terminus, was, routes, r) ==> r !in tried
    ensures Expired(was, rq.now) == 0 ==> forall r :: r in tried <==> rq.Admits(own, r) && InReach(rq, was, r)
    ensures AllInReach(own, rq, was) ==> forall r :: r in tried <==> r in routes && rq.Admits(own, r)
  {
    forall r | rq.Admits(own, r)
      ensures r in tried <==> InReach(rq, routes, r)
    {
      TriedIfInReach(own, rq, routes, tried, stop, r);
    }
    forall r | Blocked(rq, was, r) && !Replacement(contacts, ranges, own, rq.now, terminus, was, routes, r)
      ensures r !in tried
    {
      BlockedNotTried(contacts, ranges, own, rq, terminus, was, routes, tried, stop, r);
    }
    if AllInReach(own, rq, was) {
      AllInReachKept(own, rq, was, routes);
    }
  }

  /** A list in which the walk misses a route that would do: an admitted one behind a late one. */
  lemma UnorderedWalkMisses(contacts: seq<CXref>, ranges: seq<RXref>, own: nat, rq: Request, terminus: nat,
                            late: CgrRoute, good: CgrRoute, routes: seq<CgrRoute>, tried: seq<CgrRoute>, stop: int)
    requires Late(rq, late) && late.toTime >= rq.now && rq.Admits(own, good)
    requires Evolved(contacts, ranges, own, rq, terminus, [late, good], routes) && WalkOver(own, rq, routes, tried, stop)
    ensures good in routes && good !in tried && !AllInReach(own, rq, routes)
  {
    NoneExpired([late, good], rq.now);
    assert routes[0] == late && routes[1] == good;
    assert !NoneLate(rq, routes, 1);
    assert good !in routes[..0];
    WalkTriesAll(own, rq, routes, tried, stop);
  }

  lemma {:induction false} NoneExpired(routes: seq<CgrRoute>, now: int)
    requires forall r :: r in routes ==> r.toTime >= now
    ensures Expired(routes, now) == 0
  {
    if routes != [] {
      assert routes[|routes| - 1] in routes;
      NoneExpired(routes[..|routes| - 1], now);
    }
  }

  /** Only the list of one terminus may have changed. */
  ghost predicate OnlyListOf(terminus: nat, lists: map<nat, seq<CgrRoute>>, lists': map<nat, seq<CgrRoute>>) {
    terminus in lists' && lists' == lists[terminus := lists'[terminus]]
  }

  lemma OnlyListTwice(terminus: nat, lists: map<nat, seq<CgrRoute>>, mid: map<nat, seq<CgrRoute>>, lists': map<nat, seq<CgrRoute>>)
    requires OnlyListOf(terminus, lists, mid) && (lists' == mid || OnlyListOf(terminus, mid, lists'))
    ensures OnlyListOf(terminus, lists, lists')
  {
  }

  /** The list that a walk starts from: the cached one, or one that is loaded for it. */
  ghost predicate StartsFrom(contacts: seq<CXref>, ranges: seq<RXref>, own: nat, now: int, terminus: nat,
                             routeLists: map<nat, seq<CgrRoute>>, was: seq<CgrRoute>) {
    if terminus in routeLists then was == routeLists[terminus]
    else RouteList(contacts, ranges, own, now, terminus, was, PAYLOAD_CLASSES - 1)
  }

  /** By a route found before now, over the ranges of now, nothing is expected to arrive before
      the route does, less the allowances made for movement. */
  lemma BestNeverBefore(p: Problem, terminus: nat, route: CgrRoute, index: seq<CXref>, own: nat, rq: Request)
    requires BestRoute(p, terminus, route) && route.hops != [] && p.now <= rq.now
    ensures var expected := Estimate(index, p.ranges, own, rq, route);
      expected != 0 ==> expected >= route.arrivalTime - Margins(p.ranges, route.hops, |route.hops|)
  {
    var path :| Describes(p, route, path) && p.Reaches(path, terminus);
    if Estimate(index, p.ranges, own, rq, route) != 0 {
      var duct := rq.directives[route.toNodeNbr];
      NeverBeforeRoute(p, path, route, rq.now, rq.bundle.Deadline(),
                       Max(0, PriorClaims(index, own, route, rq.now, duct.Backlog())), Eccc(rq.bundle.GuessSize()));
    }
  }

  /** So it is with every route of a list loaded before, whatever contacts have come since. */
  lemma LoadedNeverBefore(contacts: seq<CXref>, ranges: seq<RXref>, own: nat, load: int, terminus: nat, routes: seq<CgrRoute>,
                          route: CgrRoute, index: seq<CXref>, rq: Request)
    requires RouteList(contacts, ranges, own, load, terminus, routes, PAYLOAD_CLASSES - 1) && route in routes && load <= rq.now
    ensures route.hops != []
    ensures var expected := Estimate(index, ranges, own, rq, route);
      expected != 0 ==> expected >= route.arrivalTime - Margins(ranges, route.hops, |route.hops|)
  {
    var j :| 0 <= j < |routes| && routes[j] == route;
    assert Enumerated(contacts, ranges, own, load, terminus, routes[..j], routes[j]);
    var suppressed: set<nat> :| AllListed(contacts, routes[..j], suppressed)
      && BestRoute(Problem(contacts, ranges, suppressed, MinCapacity(route.payloadClass), own, load), terminus, route);
    BestRouteLead(Problem(contacts, ranges, suppressed, MinCapacity(route.payloadClass), own, load), terminus, route);
    BestNeverBefore(Problem(contacts, ranges, suppressed, MinCapacity(route.payloadClass), own, load), terminus, route,
                    index, own, rq);
  }

  /** And with every route a walk has added. */
  lemma AddedNeverBefore(contacts: seq<CXref>, ranges: seq<RXref>, own: nat, now: int, terminus: nat, was: seq<CgrRoute>,
                         routes: seq<CgrRoute>, route: CgrRoute, index: seq<CXref>, rq: Request)
    requires Replacement(contacts, ranges, own, now, terminus, was, routes, route) && now <= rq.now
    ensures route.hops != []
    ensures var expected := Estimate(index, ranges, own, rq, route);
      expected != 0 ==> expected >= route.arrivalTime - Margins(ranges, route.hops, |route.hops|)
  {
    var others: seq<CgrRoute>, toNode: nat, fromTime: int :|
      ReplacedAmong(contacts, ranges, own, now, terminus, was, routes, route, others, toNode, fromTime);
    var p := Recomputation(contacts, ranges, own, now, others, toNode, fromTime, route.payloadClass);
    BestRouteLead(p, terminus, route);
    BestNeverBefore(p, terminus, route, index, own, rq);
  }

  /** The neighbor selected is not an excluded one; it is that of a route tried, every hop of which has
      room for the payload, and the route is good until some time after time zero. */
  ghost predicate Provided(rq: Request, tried: seq<CgrRoute>, selected: Option<ProximateNode>) {
    selected.Some? ==>
      && selected.value.forfeitTime > 0 && selected.value.neighborNodeNbr !in rq.excluded
      && exists r :: r in tried && r.hops != [] && r.hops[0].toNode == selected.value.neighborNodeNbr
                     && AllCarry(r.hops, rq.bundle.payloadLength)
  }

  lemma SelectedProvided(contacts: seq<CXref>, ranges: seq<RXref>, own: nat, rq: Request, routes: seq<CgrRoute>,
                         tried: seq<CgrRoute>, stop: int, selected: Option<ProximateNode>)
    requires ListSound(routes) && WalkOver(own, rq, routes, tried, stop)
    requires Chosen(contacts, ranges, own, rq, tried, selected)
    ensures Provided(rq, tried, selected)
  {
    if selected.Some? {
      var t := selected.value.Attempt();
      TrialsAre(contacts, ranges, own, rq, tried, t);
      var k :| 0 <= k < |tried| && TrialBy(contacts, ranges, own, rq, tried[k], t);
      assert tried[k] in tried && tried[k] in routes && RouteSound(tried[k]);
      PayloadFits(tried[k].hops, rq.bundle.payloadLength);
    }
  }

  // ---------------------------------------------------------- step by step

  lemma ReplacementFresh(contacts: seq<CXref>, ranges: seq<RXref>, own: nat, now: int, terminus: nat,
                         was: seq<CgrRoute>, routes: seq<CgrRoute>, route: CgrRoute)
    requires Replacement(contacts, ranges, own, now, terminus, was, routes, route)
    ensures route.toTime > now
  {
    var others: seq<CgrRoute>, toNode: nat, fromTime: int :|
      ReplacedAmong(contacts, ranges, own, now, terminus, was, routes, route, others, toNode, fromTime);
    FreshRoute(Recomputation(contacts, ranges, own, now, others, toNode, fromTime, route.payloadClass), terminus, route);
  }

  lemma ReplacementUsesOnly(contacts: seq<CXref>, ranges: seq<RXref>, own: nat, now: int, terminus: nat,
                            was: seq<CgrRoute>, routes: seq<CgrRoute>, route: CgrRoute)
    requires Replacement(contacts, ranges, own, now, terminus, was, routes, route)
    ensures UsesOnly(contacts, route)
  {
    var others: seq<CgrRoute>, toNode: nat, fromTime: int :|
      ReplacedAmong(contacts, ranges, own, now, terminus, was, routes, route, others, toNode, fromTime);
    BestRouteUsesOnly(Recomputation(contacts, ranges, own, now, others, toNode, fromTime, route.payloadClass), terminus, route);
  }

  lemma ReplacementAmongMore(contacts: seq<CXref>, ranges: seq<RXref>, own: nat, now: int, terminus: nat,
                             was: seq<CgrRoute>, routes: seq<CgrRoute>, was': seq<CgrRoute>, routes': seq<CgrRoute>, route: CgrRoute)
    requires Replacement(contacts, ranges, own, now, terminus, was, routes, route)
    requires forall r :: r in was || r in routes ==> r in was' || r in routes'
    ensures Replacement(contacts, ranges, own, now, terminus, was', routes', route)
  {
    var others: seq<CgrRoute>, toNode: nat, fromTime: int :|
      ReplacedAmong(contacts, ranges, own, now, terminus, was, routes, route, others, toNode, fromTime);
    assert ReplacedAmong(contacts, ranges, own, now, terminus, was', routes', route, others, toNode, fromTime);
  }

  /** Nothing in between is forgotten: it was there before, or it is fresh and stays. */
  lemma MidKnown(contacts: seq<CXref>, ranges: seq<RXref>, own: nat, now: int, terminus: nat,
                 was: seq<CgrRoute>, mid: seq<CgrRoute>, routes: seq<CgrRoute>)
    requires Updated(contacts, ranges, own, now, terminus, was, mid) && Updated(contacts, ranges, own, now, terminus, mid, routes)
    ensures forall r :: r in mid ==> r in was || r in routes
  {
    forall r | r in mid && r !in was
      ensures r in routes
    {
      ReplacementFresh(contacts, ranges, own, now, terminus, was, mid, r);
    }
  }

  lemma ReplacementVia(contacts: seq<CXref>, ranges: seq<RXref>, own: nat, now: int, terminus: nat,
                       was: seq<CgrRoute>, mid: seq<CgrRoute>, routes: seq<CgrRoute>, r: CgrRoute)
    requires Updated(contacts, ranges, own, now, terminus, was, mid) && Updated(contacts, ranges, own, now, terminus, mid, routes)
    requires Replacement(contacts, ranges, own, now, terminus, was, mid, r)
             || Replacement(contacts, ranges, own, now, terminus, mid, routes, r)
    ensures Replacement(contacts, ranges, own, now, terminus, was, routes, r)
  {
    MidKnown(contacts, ranges, own, now, terminus, was, mid, routes);
    if Replacement(contacts, ranges, own, now, terminus, was, mid, r) {
      ReplacementAmongMore(contacts, ranges, own, now, terminus, was, mid, was, routes, r);
    } else {
      ReplacementAmongMore(contacts, ranges, own, now, terminus, mid, routes, was, routes, r);
    }
  }

  lemma UpdatedTwice(contacts: seq<CXref>, ranges: seq<RXref>, own: nat, now: int, terminus: nat,
                     was: seq<CgrRoute>, mid: seq<CgrRoute>, routes: seq<CgrRoute>)
    requires Updated(contacts, ranges, own, now, terminus, was, mid) && Updated(contacts, ranges, own, now, terminus, mid, routes)
    ensures Updated(contacts, ranges, own, now, terminus, was, routes)
  {
    forall r | r in routes && r !in was
      ensures Replacement(contacts, ranges, own, now, terminus, was, routes, r)
    {
      ReplacementVia(contacts, ranges, own, now, terminus, was, mid, routes, r);
    }
  }

  lemma AddedFresh(contacts: seq<CXref>, ranges: seq<RXref>, own: nat, now: int, terminus: nat, was: seq<CgrRoute>, routes: seq<CgrRoute>)
    requires Updated(contacts, ranges, own, now, terminus, was, routes)
    ensures forall r :: r in routes && r !in was ==> r.toTime > now
  {
    forall r | r in routes && r !in was
      ensures r.toTime > now
    {
      ReplacementFresh(contacts, ranges, own, now, terminus, was, routes, r);
    }
  }

  lemma EvolvedTwice(contacts: seq<CXref>, ranges: seq<RXref>, own: nat, rq: Request, terminus: nat,
                     was: seq<CgrRoute>, mid: seq<CgrRoute>, routes: seq<CgrRoute>)
    requires Evolved(contacts, ranges, own, rq, terminus, was, mid) && Evolved(contacts, ranges, own, rq, terminus, mid, routes)
    ensures Evolved(contacts, ranges, own, rq, terminus, was, routes)
  {
    UpdatedTwice(contacts, ranges, own, rq.now, terminus, was, mid, routes);
    AddedFresh(contacts, ranges, own, rq.now, terminus, was, mid);
    ReachKeptTwice(rq, was, mid, routes);
    forall r | Blocked(rq, was, r) && !Blocked(rq, routes, r)
      ensures Replacement(contacts, ranges, own, rq.now, terminus, was, routes, r)
    {
      ReplacementVia(contacts, ranges, own, rq.now, terminus, was, mid, routes, r);
    }
  }

  lemma NotEvolved(contacts: seq<CXref>, ranges: seq<RXref>, own: nat, rq: Request, terminus: nat, routes: seq<CgrRoute>)
    ensures Evolved(contacts, ranges, own, rq, terminus, routes, routes)
  {
  }

  lemma DeletionUpdates(contacts: seq<CXref>, ranges: seq<RXref>, own: nat, now: int, terminus: nat, routes: seq<CgrRoute>, i: nat)
    requires i < |routes| && routes[i].toTime < now
    ensures Updated(contacts, ranges, own, now, terminus, routes, routes[..i] + routes[i + 1..])
  {
    forall r | r in routes && r.toTime >= now
      ensures r in routes[..i] + routes[i + 1..]
    {
      var k :| 0 <= k < |routes| && routes[k] == r;
      assert (routes[..i] + routes[i + 1..])[if k < i then k else k - 1] == r;
    }
  }

  lemma DeletionEvolves(contacts: seq<CXref>, ranges: seq<RXref>, own: nat, rq: Request, terminus: nat, routes: seq<CgrRoute>, i: nat)
    requires i < |routes| && routes[i].toTime < rq.now
    ensures Evolved(contacts, ranges, own, rq, terminus, routes, routes[..i] + routes[i + 1..])
  {
    DeletionUpdates(contacts, ranges, own, rq.now, terminus, routes, i);
    OrderRemoved(rq, routes, i);
    ExpiredRemoved(routes, i, rq.now);
    forall r | Blocked(rq, routes, r)
      ensures Blocked(rq, routes[..i] + routes[i + 1..], r)
    {
      BlockedRemoved(rq, routes, i, r);
    }
  }

  /** A recomputation adds a route that is best without the other listed leads. */
  lemma InsertionUpdates(contacts: seq<CXref>, ranges: seq<RXref>, own: nat, now: int, terminus: nat, routes: seq<CgrRoute>,
                         toNode: nat, fromTime: int, payloadClass: int, routes': seq<CgrRoute>, n: nat, route: CgrRoute)
    requires Recomputed(contacts, ranges, own, terminus, now, routes, toNode, fromTime, payloadClass, routes', n, route)
    ensures Updated(contacts, ranges, own, now, terminus, routes, routes')
    ensures Replacement(contacts, ranges, own, now, terminus, routes, routes', route)
  {
    assert ReplacedAmong(contacts, ranges, own, now, terminus, routes, routes', route, routes, toNode, fromTime);
    forall r | r in routes
      ensures r in routes'
    {
      var k :| 0 <= k < |routes| && routes[k] == r;
      assert routes'[if k < n then k else k + 1] == r;
    }
    assert forall r :: r in routes' ==> r in routes[..n] || r == route || r in routes[n..];
  }

  lemma InsertionBlocks(contacts: seq<CXref>, ranges: seq<RXref>, own: nat, rq: Request, terminus: nat, routes: seq<CgrRoute>,
                        toNode: nat, fromTime: int, payloadClass: int, routes': seq<CgrRoute>, n: nat, route: CgrRoute)
    requires Recomputed(contacts, ranges, own, terminus, rq.now, routes, toNode, fromTime, payloadClass, routes', n, route)
    ensures forall r :: Blocked(rq, routes, r) ==>
      Blocked(rq, routes', r) || Replacement(contacts, ranges, own, rq.now, terminus, routes, routes', r)
  {
    InsertionUpdates(contacts, ranges, own, rq.now, terminus, routes, toNode, fromTime, payloadClass, routes', n, route);
    forall r | Blocked(rq, routes, r) && r != route
      ensures Blocked(rq, routes', r)
    {
      BlockedInserted(rq, routes, routes', n, route, r);
    }
  }

  /** A deletion, then a recomputation. */
  lemma ReplacementEvolves(contacts: seq<CXref>, ranges: seq<RXref>, own: nat, rq: Request, terminus: nat,
                           was: seq<CgrRoute>, routes: seq<CgrRoute>, toNode: nat, fromTime: int, payloadClass: int,
                           routes': seq<CgrRoute>, n: nat, route: CgrRoute)
    requires Evolved(contacts, ranges, own, rq, terminus, was, routes) && Expired(was, rq.now) > 0
    requires Recomputed(contacts, ranges, own, terminus, rq.now, routes, toNode, fromTime, payloadClass, routes', n, route)
    ensures Evolved(contacts, ranges, own, rq, terminus, was, routes')
  {
    InsertionUpdates(contacts, ranges, own, rq.now, terminus, routes, toNode, fromTime, payloadClass, routes', n, route);
    UpdatedTwice(contacts, ranges, own, rq.now, terminus, was, routes, routes');
    OrderInserted(rq, routes, routes', n, route);
    AddedFresh(contacts, ranges, own, rq.now, terminus, was, routes);
    ReachKeptTwice(rq, was, routes, routes');
    InsertionBlocks(contacts, ranges, own, rq, terminus, routes, toNode, fromTime, payloadClass, routes', n, route);
    forall r | Blocked(rq, was, r) && !Blocked(rq, routes', r)
      ensures Replacement(contacts, ranges, own, rq.now, terminus, was, routes', r)
    {
      ReplacementVia(contacts, ranges, own, rq.now, terminus, was, routes, routes', r);
    }
  }

  /** The expired route at position i, the first that is expired or late, is deleted; if there is a
      replacement for it, that is listed, and otherwise nothing is. */
  ghost predicate ReplacesAt(contacts: seq<CXref>, ranges: seq<RXref>, own: nat, rq: Request, terminus: nat,
                             before: seq<CgrRoute>, after: seq<CgrRoute>, i: nat) {
    && i < |before| && before[i].toTime < rq.now
    && (forall k :: 0 <= k < i ==> before[k].toTime >= rq.now && before[k].arrivalTime <= rq.bundle.Deadline())
    && ReplacedBy(contacts, ranges, own, terminus, rq.now, before[..i] + before[i + 1..], before[i], after)
  }

  ghost predicate ReplacedBy(contacts: seq<CXref>, ranges: seq<RXref>, own: nat, terminus: nat, now: int,
                             shorter: seq<CgrRoute>, expired: CgrRoute, after: seq<CgrRoute>) {
    if Replaceable(contacts, ranges, own, terminus, now, shorter, expired.toNodeNbr, expired.fromTime, expired.payloadClass) then
      |after| == |shorter| + 1 && exists n: nat, route ::
        Recomputed(contacts, ranges, own, terminus, now, shorter, expired.toNodeNbr, expired.fromTime, expired.payloadClass,
                   after, n, route)
    else after == shorter
  }

  ghost predicate Replaces(contacts: seq<CXref>, ranges: seq<RXref>, own: nat, rq: Request, terminus: nat,
                           before: seq<CgrRoute>, after: seq<CgrRoute>) {
    exists i: nat :: ReplacesAt(contacts, ranges, own, rq, terminus, before, after, i)
  }

  /** The lists that a walk goes through, from the one it is given to the one it leaves: each comes
      of the one before by the replacement of an expired route. */
  ghost predicate Run(contacts: seq<CXref>, ranges: seq<RXref>, own: nat, rq: Request, terminus: nat,
                      was: seq<CgrRoute>, routes: seq<CgrRoute>, run: seq<seq<CgrRoute>>) {
    && run != [] && run[0] == was && run[|run| - 1] == routes
    && forall k :: 0 <= k < |run| - 1 ==> Replaces(contacts, ranges, own, rq, terminus, run[k], run[k + 1])
  }

  lemma RunStarts(contacts: seq<CXref>, ranges: seq<RXref>, own: nat, rq: Request, terminus: nat, was: seq<CgrRoute>)
    returns (run: seq<seq<CgrRoute>>)
    ensures Run(contacts, ranges, own, rq, terminus, was, was, run)
  {
    run := [was];
  }

  lemma RunGoesOn(contacts: seq<CXref>, ranges: seq<RXref>, own: nat, rq: Request, terminus: nat,
                  was: seq<CgrRoute>, mid: seq<CgrRoute>, routes: seq<CgrRoute>, run: seq<seq<CgrRoute>>)
    returns (longer: seq<seq<CgrRoute>>)
    requires Run(contacts, ranges, own, rq, terminus, was, mid, run)
    requires Replaces(contacts, ranges, own, rq, terminus, mid, routes)
    ensures Run(contacts, ranges, own, rq, terminus, was, routes, longer)
  {
    longer := run + [routes];
    forall k | 0 <= k < |longer| - 1
      ensures Replaces(contacts, ranges, own, rq, terminus, longer[k], longer[k + 1])
    {
      assert longer[k] == run[k] && (k < |run| - 1 ==> longer[k + 1] == run[k + 1]);
    }
  }

  lemma ReplacedAt(contacts: seq<CXref>, ranges: seq<RXref>, own: nat, rq: Request, terminus: nat, before: seq<CgrRoute>,
                   after: seq<CgrRoute>, i: nat, tried: seq<CgrRoute>)
    requires Walked(own, rq, before, i, tried) && i < |before| && before[i].toTime < rq.now
    requires ReplacedBy(contacts, ranges, own, terminus, rq.now, before[..i] + before[i + 1..], before[i], after)
    ensures Replaces(contacts, ranges, own, rq, terminus, before, after)
  {
    assert ReplacesAt(contacts, ranges, own, rq, terminus, before, after, i);
  }

  /** An expired route is gone, and perhaps another one is there: the walk can go on. */
  ghost predicate Replaced(contacts: seq<CXref>, ranges: seq<RXref>, own: nat, rq: Request, terminus: nat,
                           routes: seq<CgrRoute>, routes': seq<CgrRoute>, nodes: seq<ProximateNode>, next: int,
                           tried: seq<CgrRoute>) {
    && Walking(contacts, ranges, own, rq, routes', nodes, next, tried)
    && Expired(routes', rq.now) < Expired(routes, rq.now)
    && Evolved(contacts, ranges, own, rq, terminus, routes, routes')
  }

  lemma JustDeleted(contacts: seq<CXref>, ranges: seq<RXref>, own: nat, rq: Request, terminus: nat, routes: seq<CgrRoute>,
                    nodes: seq<ProximateNode>, i: nat, tried: seq<CgrRoute>)
    requires Walking(contacts, ranges, own, rq, routes, nodes, i, tried) && i < |routes| && routes[i].toTime < rq.now
    ensures Replaced(contacts, ranges, own, rq, terminus, routes, routes[..i] + routes[i + 1..], nodes, i, tried)
  {
    WalkDeletes(contacts, ranges, own, rq, routes, nodes, i, tried);
    DeletionEvolves(contacts, ranges, own, rq, terminus, routes, i);
  }

  lemma DeletedAndRecomputed(contacts: seq<CXref>, ranges: seq<RXref>, own: nat, rq: Request, terminus: nat,
                             routes: seq<CgrRoute>, shorter: seq<CgrRoute>, nodes: seq<ProximateNode>, i: nat,
                             tried: seq<CgrRoute>, toNode: nat, fromTime: int, payloadClass: int,
                             routes': seq<CgrRoute>, n: nat, route: CgrRoute)
    requires Replaced(contacts, ranges, own, rq, terminus, routes, shorter, nodes, i, tried)
    requires Recomputed(contacts, ranges, own, terminus, rq.now, shorter, toNode, fromTime, payloadClass, routes', n, route)
    ensures Replaced(contacts, ranges, own, rq, terminus, routes, routes', nodes, 0, tried)
  {
    WalkRestarts(contacts, ranges, own, rq, shorter, nodes, i, tried, terminus, toNode, fromTime, payloadClass,
                 routes', n, route);
    ReplacementEvolves(contacts, ranges, own, rq, terminus, routes, shorter, toNode, fromTime, payloadClass, routes', n, route);
  }
}
