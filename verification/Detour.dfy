/** A plan in which the recomputation of a route finds one that leads by another contact. */
module Detour {
  import opened Keys
  import opened ContactPlan
  import opened ContactGraph
  import opened SearchSteps
  import opened AnchoredSearch
  import opened Eto
  import opened Forwarding
  import opened Recomputing

  // Node 1 reaches node 2 by a slow link, or later by way of node 4; node 2 meets node 3 twice.
  const DIRECT := CXref(1, 2, 100, 1000, 1000, 0, 0, 0, 0, 1000, 0)
  const ASIDE := CXref(1, 4, 400, 500, 1000, 0, 0, 0, 0, 500, 1)
  const SOON := CXref(2, 3, 100, 300, 1000, 0, 0, 0, 0, 300, 2)
  const LATER := CXref(2, 3, 420, 900, 1000, 0, 0, 0, 0, 900, 3)
  const BACK := CXref(4, 2, 400, 600, 1000, 0, 0, 0, 0, 600, 4)

  const PLAN: seq<CXref> := [DIRECT, ASIDE, SOON, LATER, BACK]

  const LINKS: seq<RXref> := [RXref(1, 2, 60, 2000, 100), RXref(1, 4, 60, 2000, 1), RXref(2, 3, 60, 2000, 1), RXref(4, 2, 60, 2000, 1)]

  const BY_SOON := CgrRoute(2, 100, 300, 201, [DIRECT, SOON], 200000, 0)
  const BY_LATER := CgrRoute(2, 100, 900, 421, [DIRECT, LATER], 480000, 0)

  lemma PlanOrdered()
    ensures ContactsOrdered(PLAN) && RangesOrdered(LINKS) && AllFit(PLAN)
  {
    assert ContactKeys(PLAN) == [ContactKey(DIRECT), ContactKey(ASIDE), ContactKey(SOON), ContactKey(LATER), ContactKey(BACK)];
    assert RangeKeys(LINKS) == [RangeKey(LINKS[0]), RangeKey(LINKS[1]), RangeKey(LINKS[2]), RangeKey(LINKS[3])];
  }

  ghost function Search(suppressed: set<nat>, payloadClass: int, now: int): Problem {
    Problem(PLAN, LINKS, suppressed, MinCapacity(payloadClass), 1, now)
  }

  lemma PlanOwlts(p: Problem)
    requires p.contacts == PLAN && p.ranges == LINKS
    ensures p.Owlt(0) == Some(100) && p.Owlt(1) == Some(1) && p.Owlt(2) == Some(1) && p.Owlt(3) == Some(1) && p.Owlt(4) == Some(1)
  {
    ApplicableRangeFound(LINKS, DIRECT, 0);
    ApplicableRangeFound(LINKS, ASIDE, 1);
    ApplicableRangeFound(LINKS, SOON, 2);
    ApplicableRangeFound(LINKS, LATER, 2);
    ApplicableRangeFound(LINKS, BACK, 3);
  }

  lemma PathDirect(p: Problem, i: nat)
    requires p == Search(p.suppressed, 0, p.now) && 0 <= p.now < 800 && 0 !in p.suppressed && i !in p.suppressed
    requires (i == 2 || i == 3) && Max(100, p.now) + 100 < PLAN[i].toTime
    ensures p.Feasible([0]) && p.EndNode([0]) == 2 && p.EndTime([0]) == Max(100, p.now) + 100
    ensures p.Reaches([0, i], 3) && p.EndTime([0, i]) == Max(PLAN[i].fromTime, p.EndTime([0])) + 1
  {
    PlanOwlts(p);
    assert p.Feasible([]) && p.EndNode([]) == 1 && p.EndTime([]) == p.now;
    PathExtended(p, [], 0, [0]);
    PathExtended(p, [0], i, [0, i]);
  }

  lemma PathAside(p: Problem)
    requires p == Search({}, 0, p.now) && 0 <= p.now <= 400
    ensures p.Reaches([1, 4], 2) && p.EndTime([1, 4]) == 402 && p.Reaches([1, 4, 3], 3) && p.EndTime([1, 4, 3]) == 421
  {
    PlanOwlts(p);
    assert p.Feasible([]) && p.EndNode([]) == 1 && p.EndTime([]) == p.now;
    PathExtended(p, [], 1, [1]);
    PathExtended(p, [1], 4, [1, 4]);
    PathExtended(p, [1, 4], 3, [1, 4, 3]);
  }

  lemma NodeTwoNotBefore(p: Problem, path: seq<nat>)
    requires p == Search(p.suppressed, 0, p.now) && p.Feasible(path) && p.EndNode(path) == 2
    ensures p.EndTime(path) >= 200
  {
    PlanOwlts(p);
    assert path != [] && path[|path| - 1] in path;
    var i, t := path[|path| - 1], p.EndTime(path[..|path| - 1]);
    assert i == 0 || i == 4;
    assert p.EndTime(path) == p.Arrival(i, t);
  }

  /** Node 3 is reached by one of its two contacts, from node 2; that takes some time. */
  lemma LastHop(p: Problem, path: seq<nat>)
    requires p == Search(p.suppressed, 0, p.now) && p.now >= 0 && p.Reaches(path, 3)
    ensures var i := path[|path| - 1]; (i == 2 || i == 3) && i !in p.suppressed && p.EndTime(path) >= PLAN[i].fromTime + 1
    ensures p.EndTime(path) >= 201
  {
    PlanOwlts(p);
    var q, i := path[..|path| - 1], path[|path| - 1];
    assert i in path && p.EndNode(q) == 2;
    NodeTwoNotBefore(p, q);
  }

  lemma BySoonIsBest()
    ensures BestRoute(Search({}, 0, 50), 3, BY_SOON)
  {
    var p := Search({}, 0, 50);
    PathDirect(p, 2);
    RouteEnds(SOON);
    assert Describes(p, BY_SOON, [0, 2]);
    forall path | p.Reaches(path, 3)
      ensures 201 <= p.EndTime(path)
    {
      LastHop(p, path);
    }
  }

  lemma RouteEnds(last: CXref)
    requires last == SOON || last == LATER
    ensures EarliestEnd([DIRECT, last]) == last.toTime && LeastVolume([DIRECT, last]) == Volume(last)
  {
    assert [last][1..] == [] && EarliestEnd([last]) == last.toTime && LeastVolume([last]) == Volume(last);
    assert [DIRECT, last][1..] == [last];
  }

  lemma ByLaterIsBest(suppressed: set<nat>, now: int)
    requires 0 <= now <= 320 && (suppressed == {2} || (suppressed == {} && now >= 300))
    ensures BestRoute(Search(suppressed, 0, now), 3, BY_LATER)
  {
    var p := Search(suppressed, 0, now);
    PathDirect(p, 3);
    RouteEnds(LATER);
    assert Describes(p, BY_LATER, [0, 3]);
    forall path | p.Reaches(path, 3)
      ensures 421 <= p.EndTime(path)
    {
      LastHop(p, path);
      if suppressed == {} {
        SoonIsOver(p, path);
      }
    }
  }

  lemma SoonIsOver(p: Problem, path: seq<nat>)
    requires p == Search(p.suppressed, 0, p.now) && p.now >= 300 && p.Reaches(path, 3)
    ensures path[|path| - 1] == 3
  {
    LastHop(p, path);
    HopsOutlast(p, path);
    assert path[|path| - 1] in path;
  }

  /** The contacts are too small for the other payload classes. */
  lemma NothingBigger(payloadClass: int, now: int, path: seq<nat>)
    requires payloadClass == 1 || payloadClass == 2
    ensures !Search({}, payloadClass, now).Reaches(path, 3)
  {
    var p := Search({}, payloadClass, now);
    assert forall i: nat :: !p.Usable(i);
    assert path != [] ==> path[0] in path;
  }

  /** At time 50, loading may list two routes to node 3, both by the slow link. */
  lemma LoadedAt50()
    ensures ContactsOrdered(PLAN) && RangesOrdered(LINKS) && AllFit(PLAN)
    ensures RouteList(PLAN, LINKS, 1, 50, 3, [BY_SOON, BY_LATER], PAYLOAD_CLASSES - 1)
  {
    PlanOrdered();
    var routes := [BY_SOON, BY_LATER];
    BySoonIsBest();
    ByLaterIsBest({2}, 50);
    assert routes[..0] == [] && routes[..1] == [BY_SOON];
    assert AllListed(PLAN, [], {}) && Listed(PLAN, [BY_SOON], 2) by {
      assert BY_SOON in [BY_SOON] && Excludable(BY_SOON, PLAN[2]);
    }
    assert Enumerated(PLAN, LINKS, 1, 50, 3, routes[..0], routes[0]);
    assert Enumerated(PLAN, LINKS, 1, 50, 3, routes[..1], routes[1]);
    FirstsBest();
    NoneLeftAt50();
  }

  lemma FirstsBest()
    ensures FirstsAreBest(PLAN, LINKS, 1, 50, 3, [BY_SOON, BY_LATER], 3)
  {
    var routes := [BY_SOON, BY_LATER];
    BySoonIsBest();
    assert FirstOf(routes, 0, 0);
    forall c | c == 1 || c == 2
      ensures FirstIsBest(Unrestricted(PLAN, LINKS, 1, 50, c), 3, routes, c)
    {
      forall path
        ensures !Search({}, c, 50).Reaches(path, 3)
      {
        NothingBigger(c, 50, path);
      }
    }
  }

  lemma NoneLeftAt50()
    ensures NoneLeftInClasses(PLAN, LINKS, 1, 50, 3, [BY_SOON, BY_LATER], 3)
  {
    forall c | 0 <= c < 3
      ensures NoneLeft(Unrestricted(PLAN, LINKS, 1, 50, c), 3, [BY_SOON, BY_LATER], c)
    {
      forall path | Unrestricted(PLAN, LINKS, 1, 50, c).Reaches(path, 3)
        ensures MeetsListed(PLAN, 1, 0, [BY_SOON, BY_LATER], c, path)
      {
        MetAtLastHop(c, path);
      }
      assert AllMeetListed(Unrestricted(PLAN, LINKS, 1, 50, c), 3, 0, [BY_SOON, BY_LATER], c);
    }
  }

  lemma MetAtLastHop(c: int, path: seq<nat>)
    requires 0 <= c < 3 && Unrestricted(PLAN, LINKS, 1, 50, c).Reaches(path, 3)
    ensures MeetsListed(PLAN, 1, 0, [BY_SOON, BY_LATER], c, path)
  {
    var routes := [BY_SOON, BY_LATER];
    if c > 0 {
      NothingBigger(c, 50, path);
    }
    LastHop(Search({}, 0, 50), path);
    var i := path[|path| - 1];
    assert i in path && routes[0] in routes && routes[1] in routes;
    assert ExcludedBy(PLAN, 1, 0, routes[0], i) || ExcludedBy(PLAN, 1, 0, routes[1], i);
    assert ListedUpTo(PLAN, 1, 0, routes, c, i);
  }

  lemma NoneSuppressed(now: int)
    ensures Recomputation(PLAN, LINKS, 1, now, [BY_LATER], 2, 100, 0) == Search({}, 0, now)
  {
    forall i: nat
      ensures !LeadsListed(PLAN, 1, [BY_LATER], 2, 100, i)
    {
    }
  }

  /** At time 350 the first of the routes has expired, and recomputation for the contact it
      leads by finds a route by node 4. */
  lemma OtherLeadFound(routes': seq<CgrRoute>, n: nat, route: CgrRoute)
    ensures BY_SOON.toTime < 350 && Replaceable(PLAN, LINKS, 1, 3, 350, [BY_LATER], BY_SOON.toNodeNbr, BY_SOON.fromTime, 0)
    ensures Recomputed(PLAN, LINKS, 1, 3, 350, [BY_LATER], BY_SOON.toNodeNbr, BY_SOON.fromTime, 0, routes', n, route) ==>
      !SameLead(route, BY_SOON.toNodeNbr, BY_SOON.fromTime)
  {
    var p, k := Search({}, 0, 350), Key(1, 2, 100);
    NoneSuppressed(350);
    PathAside(p);
    assert DIRECT == PLAN[0] && DIRECT in PLAN;
    forall other | p.Reaches(other, 3) && Starts(p, other, k)
      ensures 421 < p.EndTime(other)
    {
      PlanOwlts(p);
      FirstReady(p, other);
      assert other[0] == 0;
    }
    assert AheadOfOthers(p, 3, k, false, p.EndTime([1, 4, 3]));
    PrevailingDecides(p, 3, k, false);
    if Recomputed(PLAN, LINKS, 1, 3, 350, [BY_LATER], 2, 100, 0, routes', n, route) {
      RecomputedLead(p, 3, route, 2, 100);
    }
  }

  /** At time 310 a route by the slow link is as good; but it is overtaken at node 2, and so
      that is not the one found. */
  lemma TiedLead(routes': seq<CgrRoute>, n: nat, route: CgrRoute)
    ensures BY_SOON.toTime < 310 && BestRoute(Search({}, 0, 310), 3, BY_LATER)
    ensures Recomputed(PLAN, LINKS, 1, 3, 310, [BY_LATER], BY_SOON.toNodeNbr, BY_SOON.fromTime, 0, routes', n, route) ==>
      !SameLead(route, BY_SOON.toNodeNbr, BY_SOON.fromTime)
  {
    var p, k := Search({}, 0, 310), Key(1, 2, 100);
    ByLaterIsBest({}, 310);
    NoneSuppressed(310);
    PathAside(p);
    PathDirect(p, 3);
    forall path | p.Reaches(path, 3) && Starts(p, path, k)
      ensures !Prompt(p, path)
    {
      assert path[0] == 0 && path[..1] == [0];
      OvertakenNotPrompt(p, path, 1, [1, 4]);
    }
    if Recomputed(PLAN, LINKS, 1, 3, 310, [BY_LATER], 2, 100, 0, routes', n, route) {
      RecomputedLead(p, 3, route, 2, 100);
    }
  }
}
