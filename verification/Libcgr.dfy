/** Contact graph routing: the procedures, on the working notes they update in place. */
module Libcgr {
  import opened Keys
  import opened ContactPlan
  import opened ContactGraph
  import opened Dijkstra
  import opened SearchSteps
  import opened AnchoredSearch
  import opened Itineraries
  import opened Eto
  import opened Forwarding
  import opened Recomputing
  import opened Walk
  import opened Selection
  import opened Scalars

  class Cgr {
    const localNode: nat
    var contacts: seq<CXref>  // the contact index, in key order
    var ranges: seq<RXref>    // the range index, in key order
    var work: Notes           // one note for each contact
    var routeLists: map<nat, seq<CgrRoute>>  // by terminus
    var proximateNodes: seq<ProximateNode>

    constructor (localNode: nat)
      ensures this.localNode == localNode && contacts == [] && ranges == [] && work == [] && routeLists == map[]
      ensures proximateNodes == []
    {
      this.localNode := localNode;
      contacts, ranges, work, routeLists, proximateNodes := [], [], [], map[], [];
    }

    ghost predicate Valid()
      reads this
    {
      ContactsOrdered(contacts) && RangesOrdered(ranges) && |work| == |contacts|
    }

    /** The range that applies to a contact, if there is one. */
    method GetApplicableRange(contact: CXref) returns (owlt: Option<nat>)
      requires RangesOrdered(ranges)
      ensures owlt == ApplicableRange(ranges, contact)
    {
      var i := ScanStart(RangeKeys(ranges), Key(contact.fromNode, contact.toNode, 0));
      forall j | 0 <= j < i
        ensures !Serves(ranges[j], contact)
      {
        RangeScanStarts(ranges, contact, j);
      }
      while i < |ranges|
        invariant ScanStart(RangeKeys(ranges), Key(contact.fromNode, contact.toNode, 0)) <= i <= |ranges|
        invariant forall j :: 0 <= j < i ==> !Serves(ranges[j], contact)
      {
        var range := ranges[i];
        if range.fromNode > contact.fromNode || range.toNode > contact.toNode {
          break;
        }
        if range.toTime < contact.fromTime {
          i := i + 1;
          continue;
        }
        if range.fromTime > contact.fromTime {
          break;
        }
        RangeScanHit(ranges, contact, i);
        return Some(range.owlt);
      }
      forall j | i <= j < |ranges|
        ensures !Serves(ranges[j], contact)
      {
        RangeScanEnds(ranges, contact, i, j);
      }
      ApplicableRangeNone(ranges, contact);
      owlt := None;
    }

    // ---------------------------------------------------------- searching

    ghost predicate Poses(p: Problem)
      reads this
    {
      p.contacts == contacts && p.ranges == ranges && p.source == localNode
    }

    method SetCapacity(i: nat, ghost p: Problem)
      requires Poses(p) && i < |work| == |contacts| && p.Capacity(i) >= 0
      modifies this`work
      ensures work == WithCapacity(p, old(work), i)
    {
      var contact := contacts[i];
      work := work[i := work[i].(capacity := contact.xmitRate * (contact.toTime - contact.fromTime))];
    }

    method NoteCapacity(i: nat, ghost p: Problem, ghost hist: seq<int>, ghost terminus: nat, ghost final: int, ghost earliest: int)
      requires Poses(p) && Searching(p, work, hist, terminus, final, earliest) && i < |work| && p.Capacity(i) >= 0
      modifies this`work
      ensures Searching(p, work, hist, terminus, final, earliest) && Noted(p, old(work), work, hist, i)
    {
      ghost var w := work;
      if work[i].capacity == 0 {
        SetCapacity(i, p);
      }
      CapacityEffect(p, w, work, hist, terminus, final, earliest, i);
    }

    method NoteArrival(i: nat, v: int, arrivalTime: int, terminus: nat, final: int, earliest: int,
                       ghost p: Problem, ghost hist: seq<int>)
      returns (final': int, earliest': int)
      requires Poses(p) && Searching(p, work, hist, terminus, final, earliest) && i < |work|
      requires v == hist[|hist| - 1] && p.Ready(i, NodeOf(p, v), TimeAt(p, work, v))
      requires work[i].capacity == p.Capacity(i) && arrivalTime == p.Arrival(i, TimeAt(p, work, v)) < work[i].arrivalTime
      modifies this`work
      ensures Searching(p, work, hist, terminus, final', earliest')
      ensures NoLater(old(work), work) && TimeAt(p, work, v) == TimeAt(p, old(work), v) && work[i].arrivalTime == arrivalTime
    {
      ghost var w := work;
      work := work[i := work[i].(arrivalTime := arrivalTime, predecessor := v)];
      final', earliest' := final, earliest;
      if contacts[i].toNode == terminus {
        if arrivalTime < earliest {
          final', earliest' := i, arrivalTime;
        }
      }
      ArrivalEffect(p, w, work, hist, terminus, final, earliest, i, v, arrivalTime);
    }

    /** What contact i's range, if it has one, means for the arrival through v. */
    method ConsiderArrival(i: nat, v: int, time: int, terminus: nat, final: int, earliest: int,
                           ghost p: Problem, ghost hist: seq<int>)
      returns (final': int, earliest': int)
      requires RangesOrdered(ranges) && Poses(p) && Searching(p, work, hist, terminus, final, earliest)
      requires i < |work| && work[i].capacity == p.Capacity(i) >= p.floor && !work[i].suppressed
      requires v == hist[|hist| - 1] && time == TimeAt(p, work, v)
      requires contacts[i].fromNode == NodeOf(p, v) && contacts[i].toTime > time
      modifies this`work
      ensures Searching(p, work, hist, terminus, final', earliest')
      ensures NoLater(old(work), work) && TimeAt(p, work, v) == time && RelaxedAt(p, work, v, i)
    {
      final', earliest' := final, earliest;
      var contact := contacts[i];
      var owlt := GetApplicableRange(contact);
      if owlt == None {
        return;
      }
      var transmitTime := if contact.fromTime < time then time else contact.fromTime;
      var arrivalTime := transmitTime + (owlt.value + Margin(owlt.value));
      EligibleReady(p, work, hist, terminus, final, earliest, i, time);
      if arrivalTime < work[i].arrivalTime {
        final', earliest' := NoteArrival(i, v, arrivalTime, terminus, final, earliest, p, hist);
      }
    }

    /** Consider contact i as the next hop after the current contact v. */
    method ConsiderContact(i: nat, v: int, time: int, floor: nat, terminus: nat, final: int, earliest: int,
                           ghost p: Problem, ghost hist: seq<int>)
      returns (final': int, earliest': int)
      requires RangesOrdered(ranges) && Poses(p) && p.floor == floor
      requires Searching(p, work, hist, terminus, final, earliest) && i < |work| && p.Capacity(i) >= 0
      requires v == hist[|hist| - 1] && time == TimeAt(p, work, v) && contacts[i].fromNode == NodeOf(p, v)
      modifies this`work
      ensures Searching(p, work, hist, terminus, final', earliest')
      ensures NoLater(old(work), work) && TimeAt(p, work, v) == time && RelaxedAt(p, work, v, i)
    {
      final', earliest' := final, earliest;
      var contact := contacts[i];
      if contact.toTime <= time {
        return;
      }
      if work[i].suppressed || work[i].visited {
        IneligibleRelaxed(p, work, hist, terminus, final, earliest, i);
        return;
      }
      ghost var w := work;
      NoteCapacity(i, p, hist, terminus, final, earliest);
      ghost var w' := work;
      if work[i].capacity < floor {
        return;
      }
      final', earliest' := ConsiderArrival(i, v, time, terminus, final, earliest, p, hist);
      NoLaterTransitive(w, w', work);
    }

    /** Consider the contacts that leave the node the current contact leads to. */
    method ConsiderNeighbors(v: int, time: int, floor: nat, terminus: nat, final: int, earliest: int,
                             ghost p: Problem, ghost hist: seq<int>)
      returns (final': int, earliest': int)
      requires Valid() && Poses(p) && p.floor == floor && Searching(p, work, hist, terminus, final, earliest)
      requires v == hist[|hist| - 1] && time == TimeAt(p, work, v)
      modifies this`work
      ensures Searching(p, work, hist, terminus, final', earliest') && Relaxed(p, work, v)
    {
      final', earliest' := final, earliest;
      var node := if 0 <= v < |contacts| then contacts[v].toNode else localNode;
      var i := ScanStart(ContactKeys(contacts), Key(node, 0, 0));
      ContactScanStarts(p, work, v, i);
      while i < |contacts|
        invariant ScanStart(ContactKeys(contacts), Key(node, 0, 0)) <= i <= |contacts|
        invariant Searching(p, work, hist, terminus, final', earliest')
        invariant time == TimeAt(p, work, v) && RelaxedBelow(p, work, v, i)
      {
        ContactScanned(contacts, node, i);
        if contacts[i].fromNode > node {
          break;
        }
        CapacityPositive(p, i);
        ghost var w := work;
        final', earliest' := ConsiderContact(i, v, time, floor, terminus, final', earliest', p, hist);
        RelaxedKept(p, w, work, v, i);
        i := i + 1;
      }
      ContactScanEnds(p, work, v, i);
    }

    /** The unsuppressed, unvisited contact with the earliest arrival that is not beyond a
        bound, if there is one before MAX_TIME. */
    method SelectNext(bound: int) returns (next: int)
      ensures Selected(work, bound, next)
    {
      next := ROOT;
      var earliest := MAX_TIME;
      var i := 0;
      while i < |work|
        invariant 0 <= i <= |work|
        invariant next == ROOT ==> earliest == MAX_TIME
        invariant next != ROOT ==> 0 <= next < i && !Ineligible(work[next]) && work[next].arrivalTime == earliest <= Min(bound, MAX_TIME - 1)
        invariant forall j :: 0 <= j < i ==> Ineligible(work[j]) || work[j].arrivalTime > bound || earliest <= work[j].arrivalTime
      {
        var note := work[i];
        if !(note.suppressed || note.visited) && note.arrivalTime <= bound && note.arrivalTime < earliest {
          next, earliest := i, note.arrivalTime;
        }
        i := i + 1;
      }
    }

    method MarkVisited(current: int)
      modifies this`work
      ensures work == WithVisited(old(work), current)
    {
      if 0 <= current < |work| {
        work := work[current := work[current].(visited := true)];
      }
    }

    /** Consider the current contact's neighbors, then select the contact to consider next. */
    method SearchFrom(current: int, time: int, floor: nat, terminus: nat, final: int, earliest: int,
                      ghost p: Problem, ghost hist: seq<int>)
      returns (next: int, final': int, earliest': int, ghost w: Notes, ghost hist': seq<int>)
      requires Valid() && Poses(p) && p.floor == floor && Searching(p, work, hist, terminus, final, earliest)
      requires current == hist[|hist| - 1] && time == TimeAt(p, work, current)
      modifies this`work
      ensures work == WithVisited(w, current) && Stepped(p, w, work, hist, hist', terminus, final', earliest', next)
    {
      final', earliest' := ConsiderNeighbors(current, time, floor, terminus, final, earliest, p, hist);
      w := work;
      MarkVisited(current);
      next := SelectNext(earliest');
      hist' := StepTaken(p, w, work, hist, current, terminus, final', earliest', next);
    }

    /** Search for the earliest arrivals by contacts that are not suppressed. */
    method Search(terminus: nat, floor: nat, now: int, ghost p: Problem)
      returns (final: int, earliest: int, ghost w: Notes, ghost hist: seq<int>)
      requires Valid() && now <= MAX_TIME && Cleared(contacts, work)
      requires p == Problem(contacts, ranges, SuppressedIn(work), floor, localNode, now)
      modifies this`work
      ensures Complete(p, w, hist, terminus, final, earliest) && work == WithVisited(w, hist[|hist| - 1])
    {
      final, earliest := ROOT, MAX_TIME;
      var current, time := ROOT, now;
      hist := StartSearching(p, work, terminus);
      while true
        invariant Searching(p, work, hist, terminus, final, earliest) && |hist| <= |contacts| + 1
        invariant current == hist[|hist| - 1] && time == TimeAt(p, work, current)
        decreases |contacts| + 1 - |hist|
      {
        var next;
        next, final, earliest, w, hist := SearchFrom(current, time, floor, terminus, final, earliest, p, hist);
        if next == ROOT {
          break;
        }
        current, time := next, work[next].arrivalTime;
      }
    }

    /** List the hops to the final contact, backtracking to the root. */
    method Backtrack(final: nat, ghost p: Problem, ghost w: Notes, ghost hist: seq<int>)
      returns (hops: seq<CXref>, toTime: int, maxCapacity: int)
      requires Valid() && Poses(p) && OnTrace(p, w, hist, final) && SamePredecessors(w, work)
      ensures hops != [] && hops[0].toNode != 0
      ensures Summed(p.contacts, Trace(p, w, hist, final), hops, toTime, maxCapacity)
    {
      hops, toTime, maxCapacity := [], MAX_TIME, NO_CAPACITY_LIMIT;
      var c: int := final;
      ghost var suffix: seq<nat>, path := [], Trace(p, w, hist, final);
      while c != ROOT
        invariant Backtracked(p, w, hist, path, c, suffix)
        invariant Summed(p.contacts, suffix, hops, toTime, maxCapacity)
        decreases Rank(hist, c)
      {
        BacktrackStep(p, w, hist, path, c, suffix);
        SummedStep(p.contacts, c, suffix, hops, toTime, maxCapacity);
        var contact := contacts[c];
        if contact.toTime < toTime {
          toTime := contact.toTime;
        }
        if work[c].capacity < maxCapacity {
          maxCapacity := work[c].capacity;
        }
        hops, suffix := [contact] + hops, [c] + suffix;
        c := work[c].predecessor;
      }
      TraceWellFormed(p, w, hist, final);
    }

    /** Search, and describe the route to the terminus; a route to node zero means none. */
    method ComputeDistanceToTerminus(terminus: nat, payloadClass: int, now: int, ghost p: Problem) returns (route: CgrRoute)
      requires Valid() && now <= MAX_TIME && Cleared(contacts, work)
      requires p == Problem(contacts, ranges, SuppressedIn(work), MinCapacity(payloadClass), localNode, now)
      modifies this`work
      ensures CapacitiesNoted(contacts, work) && SameSuppressed(old(work), work)
      ensures route.toNodeNbr == 0 ==> forall path :: !p.Reaches(path, terminus)
      ensures route.toNodeNbr != 0 ==> BestRoute(p, terminus, route) && route.payloadClass == payloadClass
      ensures route.toNodeNbr != 0 ==> PromptRoute(p, terminus, route)
    {
      var final, earliest;
      ghost var w, hist;
      final, earliest, w, hist := Search(terminus, MinCapacity(payloadClass), now, p);
      SearchLeaves(p, old(work), w, work, hist, terminus, final, earliest);
      route := CgrRoute(0, 0, 0, 0, [], 0, 0);
      if final != ROOT {
        var hops, toTime, maxCapacity := Backtrack(final, p, w, hist);
        route := CgrRoute(hops[0].toNode, hops[0].fromTime, toTime, earliest, hops, maxCapacity, payloadClass);
        RecordedIsBest(p, w, hist, terminus, final, earliest, route);
      }
    }

    /** The best route by contacts that are not suppressed, if there is one. */
    method FindNextBestRoute(terminus: nat, payloadClass: int, now: int, ghost p: Problem) returns (route: Option<CgrRoute>)
      requires Valid() && now <= MAX_TIME && Cleared(contacts, work)
      requires p == Problem(contacts, ranges, SuppressedIn(work), MinCapacity(payloadClass), localNode, now)
      modifies this`work
      ensures CapacitiesNoted(contacts, work) && SameSuppressed(old(work), work)
      ensures route == None <==> forall path :: !p.Reaches(path, terminus)
      ensures FoundOrNone(p, terminus, route)
      ensures route.Some? ==> BestRoute(p, terminus, route.value) && route.value.payloadClass == payloadClass
      ensures route.Some? ==> PromptRoute(p, terminus, route.value)
    {
      var found := ComputeDistanceToTerminus(terminus, payloadClass, now, p);
      if found.toNodeNbr == 0 {
        route := None;
      } else {
        route := Some(found);
      }
      SearchAnswers(p, terminus, route);
    }

    // ---------------------------------------------------------- loading route lists

    /** Clear the notes, except capacities and suppressions. */
    method RenewNotes()
      requires CapacitiesNoted(contacts, work)
      modifies this`work
      ensures Cleared(contacts, work) && SameSuppressed(old(work), work)
    {
      var i := 0;
      while i < |work|
        invariant 0 <= i <= |work| == |old(work)|
        invariant forall j :: 0 <= j < i ==> work[j] == Renewed(old(work)[j])
        invariant forall j :: i <= j < |work| ==> work[j] == old(work)[j]
      {
        work := work[i := work[i].(predecessor := NO_PREDECESSOR, arrivalTime := MAX_TIME, visited := false)];
        i := i + 1;
      }
    }

    /** Clear the notes, and end the suppression of all but the local node's contacts. */
    method EndAnchoredSearch()
      requires CapacitiesNoted(contacts, work)
      modifies this`work
      ensures Cleared(contacts, work)
      ensures |work| == |old(work)| && forall j :: 0 <= j < |work| ==>
        (work[j].suppressed <==> old(work)[j].suppressed && contacts[j].fromNode == localNode)
    {
      var i := 0;
      while i < |work|
        invariant 0 <= i <= |work| == |old(work)|
        invariant forall j :: 0 <= j < i ==>
          work[j] == if contacts[j].fromNode != localNode then Released(old(work)[j]) else Renewed(old(work)[j])
        invariant forall j :: i <= j < |work| ==> work[j] == old(work)[j]
      {
        if contacts[i].fromNode != localNode {
          work := work[i := work[i].(suppressed := false)];
        }
        work := work[i := work[i].(predecessor := NO_PREDECESSOR, arrivalTime := MAX_TIME, visited := false)];
        i := i + 1;
      }
    }

    /** Notes as they are before the first search of a payload class. */
    method StartNotes()
      modifies this`work
      ensures Cleared(contacts, work) && SuppressedIn(work) == {}
    {
      work := seq(|contacts|, i => ContactNote(NO_PREDECESSOR, 0, MAX_TIME, false, false));
    }

    /** The anchored search has found its last route; start over with the anchor suppressed. */
    method DropAnchor(anchor: nat, ghost w: Notes)
      requires CapacitiesNoted(contacts, work) && anchor < |work| && SameSuppressed(w, work)
      modifies this`work
      ensures Cleared(contacts, work) && SearchEnded(contacts, localNode, w, work, anchor)
    {
      EndAnchoredSearch();
      work := work[anchor := work[anchor].(suppressed := true)];
    }

    /** The contact to exclude after recording a route: the first hop if none ends before it,
        or else the first one to end, with the first hop as the anchor. */
    method LimitOf(route: CgrRoute, anchor: int) returns (limit: Option<nat>, anchor': int, ghost k: nat)
      requires Valid() && Follows(contacts, work, localNode, route.hops) && route.toTime == EarliestEnd(route.hops)
      ensures limit == None <==> forall h :: h in route.hops ==> h.toTime > MAX_TIME
      ensures limit.Some? ==> LimitAt(route, k) && limit.value == IndexOf(contacts, route.hops[k])
      ensures limit.Some? ==> anchor' == if k == 0 then anchor else IndexOf(contacts, route.hops[0])
      ensures limit.Some? ==> limit.value < |contacts| && contacts[limit.value] in route.hops
      ensures limit.Some? ==> FirstToEnd(contacts[limit.value], route.hops) && FirstToEnd(route.hops[k], route.hops)
      ensures limit.Some? ==> forall h :: h in route.hops ==> contacts[limit.value].toTime <= h.toTime
      ensures limit.Some? && k > 0 ==> route.hops[0].toTime > contacts[limit.value].toTime
    {
      anchor', k := anchor, 0;
      EarliestEndIsLeast(route.hops);
      HopIndex(contacts, work, localNode, route.hops, 0);
      if route.toTime == route.hops[0].toTime {
        limit := Some(IndexOf(contacts, route.hops[0]));
      } else {
        anchor' := IndexOf(contacts, route.hops[0]);
        var i := 0;
        while i < |route.hops| && route.hops[i].toTime != route.toTime
          invariant 0 <= i <= |route.hops| && forall j :: 0 <= j < i ==> route.hops[j].toTime != route.toTime
        {
          i := i + 1;
        }
        if i == |route.hops| {
          LimitExists(route.hops);
          return None, anchor', 0;
        }
        k := i;
        HopIndex(contacts, work, localNode, route.hops, i);
        limit := Some(IndexOf(contacts, route.hops[i]));
      }
    }

    /** After a route is recorded, exclude one of its contacts and clear the notes. That fails
        if no hop ends when the route does. */
    method ExcludeLimit(route: CgrRoute, anchor: int, routes: seq<CgrRoute>, ghost p: Problem, ghost w: Notes,
                       ghost terminus: nat, ghost now: int)
      returns (ok: bool, anchor': int, ghost k: nat)
      requires Valid() && CapacitiesNoted(contacts, work) && SameSuppressed(w, work) && route.payloadClass >= 0
      requires Loading(contacts, ranges, localNode, now, terminus, w, anchor, routes, route.payloadClass)
      requires p == Problem(contacts, ranges, SuppressedIn(w), MinCapacity(route.payloadClass), localNode, now)
      requires BestRoute(p, terminus, route) && (anchor == ROOT || anchor == IndexOf(contacts, route.hops[0]))
      modifies this`work
      ensures Valid() && (!ok ==> exists c :: c in contacts && c.toTime > MAX_TIME)
      ensures ok ==> Cleared(contacts, work) && Limited(contacts, w, anchor, work, anchor', route, k)
      ensures ok ==> ExcludedFirstToEnd(contacts, w, work, anchor, anchor', route.hops)
      ensures ok ==> Progress(contacts, ranges, localNode, now, terminus, w, anchor, work, anchor', routes + [route], route.payloadClass)
    {
      BestRouteFollows(p, w, terminus, route);
      FollowsSame(contacts, w, work, localNode, route.hops);
      var limit;
      limit, anchor', k := LimitOf(route, anchor);
      if limit == None {
        assert route.hops[0] in contacts && route.hops[0] in route.hops;
        return false, anchor', k;
      }
      HopIndex(contacts, work, localNode, route.hops, k);
      ghost var w1 := work;
      Exclude(limit.value);
      SuppressedVia(w, w1, work, limit.value);
      HopIndex(contacts, w, localNode, route.hops, 0);
      LimitFirstToEnd(contacts, w, work, anchor, anchor', route.hops, limit.value);
      RecordStep(contacts, ranges, localNode, now, terminus, w, work, anchor, anchor', routes, route, k, p);
      ok := true;
    }

    /** Suppress a contact and clear the notes. */
    method Exclude(i: nat)
      requires CapacitiesNoted(contacts, work) && i < |work|
      modifies this`work
      ensures Cleared(contacts, work) && SuppressedOne(old(work), work, i)
    {
      work := work[i := work[i].(suppressed := true)];
      RenewNotes();
    }

    /** End the anchored search: the route does not start with its anchor, and will be found again. */
    method Postpone(route: CgrRoute, anchor: nat, routes: seq<CgrRoute>, ghost first: Problem, ghost p: Problem, ghost w: Notes,
                    ghost terminus: nat, ghost now: int)
      requires Valid() && CapacitiesNoted(contacts, work) && SameSuppressed(w, work)
      requires Loading(contacts, ranges, localNode, now, terminus, w, anchor, routes, route.payloadClass)
      requires route.payloadClass >= 0 && first == Unrestricted(contacts, ranges, localNode, now, route.payloadClass)
      requires Begun(first, terminus, w, anchor, routes, route.payloadClass) && p == first.(suppressed := SuppressedIn(w))
      requires BestRoute(p, terminus, route) && route.hops != [] && IndexOf(contacts, route.hops[0]) != anchor
      modifies this`work
      ensures Valid() && SearchEnded(contacts, localNode, w, work, anchor)
      ensures Loaded(More, first, terminus, w, anchor, routes, work, ROOT, routes, route.payloadClass)
    {
      DropAnchor(anchor, w);
      FirstPostponed(first, p, terminus, w, work, anchor, routes, route);
      EndStep(contacts, ranges, localNode, now, terminus, w, work, anchor, routes, route.payloadClass);
    }

    /** Find the next route of a payload class, and record it unless it ends an anchored search. */
    method LoadNext(terminus: nat, payloadClass: nat, now: int, routes: seq<CgrRoute>, anchor: int, ghost first: Problem)
      returns (status: LoadStatus, routes': seq<CgrRoute>, anchor': int, ghost found: CgrRoute, ghost k: nat)
      requires Valid() && now <= MAX_TIME && Cleared(contacts, work)
      requires Loading(contacts, ranges, localNode, now, terminus, work, anchor, routes, payloadClass)
      requires first == Unrestricted(contacts, ranges, localNode, now, payloadClass)
      requires Begun(first, terminus, work, anchor, routes, payloadClass)
      modifies this`work
      ensures Valid()
      ensures status == Failed ==> exists c :: c in contacts && c.toTime > MAX_TIME
      ensures status != Failed ==> Loaded(status, first, terminus, old(work), anchor, routes, work, anchor', routes', payloadClass)
      ensures Transition(status, Problem(contacts, ranges, SuppressedIn(old(work)), MinCapacity(payloadClass), localNode, now),
                         terminus, old(work), anchor, routes, work, anchor', routes', found, k)
    {
      ghost var w := work;
      ghost var p := Problem(contacts, ranges, SuppressedIn(work), MinCapacity(payloadClass), localNode, now);
      var route := FindNextBestRoute(terminus, payloadClass, now, p);
      k := 0;
      if route == None {
        NoFirst(first, p, terminus, w, anchor, routes, payloadClass);
        found := CgrRoute(0, 0, 0, 0, [], 0, 0);
        return Done, routes, anchor, found, k;
      }
      found := route.value;
      BestRouteFollows(p, w, terminus, route.value);
      if anchor != ROOT && IndexOf(contacts, route.value.hops[0]) != anchor {
        Postpone(route.value, anchor, routes, first, p, w, terminus, now);
        return More, routes, ROOT, found, k;
      }
      FirstRecorded(first, p, terminus, w, anchor, routes, route.value);
      var ok;
      routes' := routes + [route.value];
      ok, anchor', k := ExcludeLimit(route.value, anchor, routes, p, w, terminus, now);
      status := if ok then More else Failed;
    }

    /** Find routes for one payload class until there are no more. */
    method LoadClass(terminus: nat, payloadClass: nat, now: int, routes: seq<CgrRoute>, anchor: int)
      returns (ok: bool, routes': seq<CgrRoute>, anchor': int)
      requires Valid() && now <= MAX_TIME
      requires Carried(contacts, ranges, localNode, now, terminus, routes, anchor, payloadClass)
      modifies this`work
      ensures Valid() && (!ok ==> exists c :: c in contacts && c.toTime > MAX_TIME)
      ensures ok ==> Carried(contacts, ranges, localNode, now, terminus, routes', anchor', payloadClass + 1)
      ensures ok ==> Exhausted(contacts, ranges, localNode, now, terminus, work, payloadClass)
    {
      ghost var first := Unrestricted(contacts, ranges, localNode, now, payloadClass);
      StartNotes();
      StartClass(contacts, ranges, localNode, now, terminus, routes, anchor, payloadClass, work);
      var status := More;
      routes', anchor' := routes, anchor;
      while true
        invariant Cleared(contacts, work)
        invariant Loading(contacts, ranges, localNode, now, terminus, work, anchor', routes', payloadClass)
        invariant Begun(first, terminus, work, anchor', routes', payloadClass)
        decreases LocalFree(contacts, work, localNode), Phase(work, anchor'), Free(work)
      {
        ghost var w := work;
        ghost var found, k;
        status, routes', anchor', found, k := LoadNext(terminus, payloadClass, now, routes', anchor', first);
        if status == Failed {
          return false, routes', anchor';
        }
        if status == Done {
          EndClass(contacts, ranges, localNode, now, terminus, routes', anchor', payloadClass, w);
          SameSuppressedIn(w, work);
          return true, routes', anchor';
        }
      }
    }

    /** Create the list of routes to a terminus, class by class; the anchor is never reset. */
    method LoadRouteList(terminus: nat, now: int) returns (ok: bool)
      requires Valid() && now <= MAX_TIME
      modifies this`work, this`routeLists
      ensures Valid() && terminus in routeLists && OnlyListOf(terminus, old(routeLists), routeLists)
      ensures !ok ==> exists c :: c in contacts && c.toTime > MAX_TIME
      ensures ok ==> RouteList(contacts, ranges, localNode, now, terminus, routeLists[terminus], PAYLOAD_CLASSES - 1)
    {
      routeLists := routeLists[terminus := []];
      var anchor, payloadClass := ROOT, 0;
      while payloadClass < PAYLOAD_CLASSES
        invariant 0 <= payloadClass <= PAYLOAD_CLASSES && Valid() && terminus in routeLists
        invariant OnlyListOf(terminus, old(routeLists), routeLists)
        invariant Carried(contacts, ranges, localNode, now, terminus, routeLists[terminus], anchor, payloadClass)
      {
        var routes;
        ok, routes, anchor := LoadClass(terminus, payloadClass, now, routeLists[terminus], anchor);
        routeLists := routeLists[terminus := routes];
        if !ok {
          return;
        }
        payloadClass := payloadClass + 1;
      }
      ok := true;
    }

    // ---------------------------------------------------------- earliest transmission opportunity

    /** The bytes a contact can still carry. */
    method ComputeCapacity(contact: CXref, now: int, capacity: Scalar)
      requires Fits32(contact) && 0 <= now <= contact.toTime && contact.fromTime < contact.toTime
      modifies capacity
      ensures capacity.Normal() && capacity.Value() == Remaining(contact, now) >= 0
      ensures capacity.Value() == contact.xmitRate * (contact.toTime - (if now > contact.fromTime then now else contact.fromTime))
    {
      RemainingFits(contact, now);
      var startTime := if now > contact.fromTime then now else contact.fromTime;
      var secRemaining := contact.toTime - startTime;
      capacity.Load(secRemaining as int32);
      capacity.Multiply(contact.xmitRate as int32);
    }

    /** Allot to a contact what it can carry of the remaining backlog. */
    method AllotContact(contact: CXref, now: int, protected: Scalar, capacity: Scalar, allotment: Scalar)
      requires Fits32(contact) && 0 <= now <= contact.toTime && contact.fromTime < contact.toTime
      requires protected != capacity && capacity != allotment && allotment != protected
      requires protected.Normal() && protected.Value() >= 0
      modifies protected, capacity, allotment
      ensures protected.Normal() && capacity.Normal() && allotment.Normal()
      ensures capacity.Value() == Remaining(contact, now)
           == contact.xmitRate * (contact.toTime - (if now > contact.fromTime then now else contact.fromTime))
      ensures allotment.Value() == Min(capacity.Value(), old(protected.Value()))
      ensures protected.Value() == Max(0, old(protected.Value()) - capacity.Value())
    {
      ComputeCapacity(contact, now, capacity);
      allotment.Copy(capacity);
      allotment.Subtract(protected);
      var spare := allotment.IsValid();
      if !spare {
        allotment.Copy(capacity);
      } else {
        allotment.Copy(protected);
      }
      protected.Subtract(capacity);
      var left := protected.IsValid();
      if !left {
        protected.Load(0);
      }
    }

    /** Allot a part of the backlog to the i'th contact, and of the prior claims on the route's
        first contact, unless it is that one. */
    method ServeContact(i: nat, toNode: nat, fromTime: int, now: int, priorClaims: Scalar, protected: Scalar,
                        capacity: Scalar, allotment: Scalar, ghost backlog: int)
      returns (verdict: Verdict)
      requires ContactsOrdered(contacts) && i < |contacts| && Fits32(contacts[i]) && 0 <= now
      requires contacts[i].fromNode == localNode && contacts[i].toNode == toNode && 0 < contacts[i].fromTime <= fromTime
      requires contacts[i].toTime >= now && contacts[i].fromTime < contacts[i].toTime
      requires Scanning(contacts, i, localNode, toNode, fromTime, now, backlog, priorClaims.Value())
      requires priorClaims != protected && priorClaims != capacity && priorClaims != allotment
      requires protected != capacity && capacity != allotment && allotment != protected
      requires priorClaims.Normal() && protected.Normal() && priorClaims.Value() == protected.Value()
      modifies priorClaims, protected, capacity, allotment
      ensures priorClaims.Normal() && protected.Normal() && capacity.Normal() && allotment.Normal()
      ensures Scanned(contacts, i, localNode, toNode, fromTime, now, backlog, verdict,
                      priorClaims.Value(), capacity.Value(), allotment.Value(), protected.Value())
    {
      var contact := contacts[i];
      ghost var prior := priorClaims.Value();
      AllotContact(contact, now, protected, capacity, allotment);
      if contact.fromTime >= fromTime {
        ScanStops(contacts, i, localNode, toNode, fromTime, now, backlog,
                  prior, capacity.Value(), allotment.Value(), protected.Value());
        return Found;
      }
      priorClaims.Subtract(capacity);
      var left := priorClaims.IsValid();
      if !left {
        priorClaims.Load(0);
      }
      ScanServes(contacts, i, localNode, toNode, fromTime, now, backlog, prior);
      verdict := Going;
    }

    /** Look at the i'th contact for the claims ahead of a route. */
    method ScanContact(i: nat, toNode: nat, fromTime: int, now: int, priorClaims: Scalar, protected: Scalar,
                       capacity: Scalar, allotment: Scalar, ghost backlog: int)
      returns (verdict: Verdict)
      requires ContactsOrdered(contacts) && i < |contacts| && Fits32(contacts[i]) && 0 <= now
      requires Scanning(contacts, i, localNode, toNode, fromTime, now, backlog, priorClaims.Value())
      requires priorClaims != protected && priorClaims != capacity && priorClaims != allotment
      requires protected != capacity && capacity != allotment && allotment != protected
      requires priorClaims.Normal() && protected.Normal() && capacity.Normal() && allotment.Normal()
      requires priorClaims.Value() == protected.Value()
      modifies priorClaims, protected, capacity, allotment
      ensures priorClaims.Normal() && protected.Normal() && capacity.Normal() && allotment.Normal()
      ensures Scanned(contacts, i, localNode, toNode, fromTime, now, backlog, verdict,
                      priorClaims.Value(), capacity.Value(), allotment.Value(), protected.Value())
    {
      var contact := contacts[i];
      if contact.fromNode > localNode || contact.toNode > toNode || contact.fromTime > fromTime {
        ScanRejects(contacts, i, localNode, toNode, fromTime, now, backlog, priorClaims.Value());
        return Passed;
      }
      ScanMeets(contacts, i, localNode, toNode);
      if contact.toTime < now {
        ScanSkips(contacts, i, localNode, toNode, fromTime, now, backlog, priorClaims.Value());
        return Going;
      }
      verdict := ServeContact(i, toNode, fromTime, now, priorClaims, protected, capacity, allotment, backlog);
    }

    /** Allot the backlog to the contacts with a neighbor, up to the one a route begins with.
        A route whose initial contact is passed without being found is rejected. */
    method AllotBacklog(toNode: nat, fromTime: int, now: int, priorClaims: Scalar, protected: Scalar,
                        capacity: Scalar, allotment: Scalar)
      returns (accepted: bool)
      requires ContactsOrdered(contacts) && AllFit(contacts) && 0 <= now
      requires priorClaims != protected && priorClaims != capacity && priorClaims != allotment
      requires protected != capacity && capacity != allotment && allotment != protected
      requires priorClaims.Normal() && protected.Normal() && priorClaims.Value() == protected.Value() >= 0
      modifies priorClaims, protected, capacity, allotment
      ensures priorClaims.Normal() && protected.Normal() && capacity.Normal() && allotment.Normal()
      ensures Claimed(contacts, localNode, toNode, fromTime, now, old(priorClaims.Value()), accepted,
                      priorClaims.Value(), capacity.Value(), allotment.Value(), protected.Value())
    {
      ghost var backlog := priorClaims.Value();
      allotment.Load(0);
      capacity.Load(0);
      var i := ScanStart(ContactKeys(contacts), Key(localNode, toNode, 0));
      ScanReady(contacts, localNode, toNode, fromTime, now, backlog);
      while i < |contacts|
        invariant Scanning(contacts, i, localNode, toNode, fromTime, now, backlog, priorClaims.Value())
        invariant priorClaims.Normal() && protected.Normal() && capacity.Normal() && allotment.Normal()
        invariant priorClaims.Value() == protected.Value()
        decreases |contacts| - i
      {
        FitsAt(contacts, i);
        var verdict := ScanContact(i, toNode, fromTime, now, priorClaims, protected, capacity, allotment, backlog);
        if verdict != Going {
          return verdict == Found;
        }
        i := i + 1;
      }
      ScanRunsOut(contacts, localNode, toNode, fromTime, now, backlog, priorClaims.Value(), capacity.Value(), allotment.Value());
      accepted := true;
    }

    /** Seconds to transmit a volume, by way of a scalar. */
    method RadiationLatency(latency: Scalar, rate: nat) returns (seconds: int)
      requires latency.Normal() && latency.Value() >= 0 && rate <= MAX_TIME
      modifies latency
      ensures seconds == Radiation(old(latency.Value()), rate)
    {
      latency.Divide(rate as int32);
      seconds := (ONE_GIG as int) * latency.gigs + latency.units as int;
    }

    /** Follow the hops from the time transmission on the first one is complete. */
    method FollowHops(hops: seq<CXref>, start: int, eccc: nat) returns (arrival: Option<int>)
      requires RangesOrdered(ranges) && hops != [] && AllFit(hops) && eccc <= MAX_TIME
      ensures arrival == Delivery(ranges, hops, start, eccc)
    {
      var transmitTime, k := start, 0;
      while true
        invariant 0 <= k < |hops|
        invariant Delivery(ranges, hops, start, eccc) == Delivery(ranges, hops[k..], transmitTime, eccc)
        decreases |hops| - k
      {
        var contact := hops[k];
        if transmitTime >= contact.toTime {
          return None;
        }
        var owlt := GetApplicableRange(contact);
        if owlt == None {
          return None;
        }
        var arrivalTime := transmitTime + owlt.value;
        k := k + 1;
        if k == |hops| {
          return Some(arrivalTime);
        }
        assert hops[k - 1..][1..] == hops[k..] && hops[k] in hops;
        transmitTime := if arrivalTime > hops[k].fromTime then arrivalTime else hops[k].fromTime;
        var latency := new Scalar();
        latency.Load(eccc as int32);
        var seconds := RadiationLatency(latency, hops[k].xmitRate);
        transmitTime := transmitTime + seconds;
      }
    }

    /** What of the allotment and the bundle exceeds the initial contact. */
    method ComputeOverbooked(allotment: Scalar, capacity: Scalar, eccc: nat, overbooked: Scalar)
      requires allotment.Normal() && capacity.Normal() && allotment != overbooked && capacity != overbooked && eccc <= MAX_TIME
      modifies overbooked
      ensures overbooked.Normal() && overbooked.Value() == Max(0, allotment.Value() + eccc - capacity.Value())
    {
      overbooked.Copy(allotment);
      overbooked.Increase(eccc as int32);
      overbooked.Subtract(capacity);
      var over := overbooked.IsValid();
      if !over {
        overbooked.Load(0);
      }
    }

    /** The arrival by a route, behind the claims on its first contact; zero if it is too late. */
    method ProjectArrival(route: CgrRoute, deadline: int, now: int, priorClaims: Scalar, eccc: nat)
      returns (arrivalTime: int, eto: int)
      requires RangesOrdered(ranges) && eccc <= MAX_TIME && priorClaims.Normal() && priorClaims.Value() >= 0
      requires route.hops != [] && route.hops[0].xmitRate > 0 && AllFit(route.hops)
      modifies priorClaims
      ensures arrivalTime == Projected(ranges, route.hops, route.fromTime, now, deadline, old(priorClaims.Value()), eccc)
      ensures eto == Max(now, route.fromTime) + Radiation(old(priorClaims.Value()) + eccc, route.hops[0].xmitRate)
    {
      assert route.hops[0] in route.hops;
      eto := if now > route.fromTime then now else route.fromTime;
      priorClaims.Increase(eccc as int32);
      var seconds := RadiationLatency(priorClaims, route.hops[0].xmitRate);
      eto := eto + seconds;
      var arrival := FollowHops(route.hops, eto, eccc);
      arrivalTime := if arrival.Some? && arrival.value <= deadline then arrival.value else 0;
    }

    /** When a bundle would arrive by a route, behind a backlog; zero if it would not, and an
        error if its initial contact cannot transmit. */
    method ComputeArrivalTime(route: CgrRoute, bundle: Bundle, now: int, backlog: Scalar, overbooked: Scalar, protected: Scalar)
      returns (arrivalTime: int, eto: int)
      requires Valid() && AllFit(contacts) && 0 <= now
      requires route.hops != [] && AllFit(route.hops)
      requires bundle.GuessSize() <= MAX_TIME && backlog.Normal() && backlog.Value() >= 0
      requires backlog != overbooked && overbooked != protected && protected != backlog
      modifies overbooked, protected
      ensures arrivalTime != 0 ==> overbooked.Normal() && protected.Normal()
      ensures EstimateTried(contacts, ranges, localNode, route, bundle, now, backlog.Value(),
                            arrivalTime, eto, overbooked.Value(), protected.Value())
    {
      var priorClaims := new Scalar();
      priorClaims.Copy(backlog);
      protected.Copy(backlog);
      arrivalTime, eto := AllotAndEstimate(route, bundle, now, priorClaims, overbooked, protected);
    }

    /** Allot the backlog, and make the estimate for a route that is not rejected. */
    method AllotAndEstimate(route: CgrRoute, bundle: Bundle, now: int, priorClaims: Scalar, overbooked: Scalar, protected: Scalar)
      returns (arrivalTime: int, eto: int)
      requires Valid() && AllFit(contacts) && 0 <= now
      requires route.hops != [] && AllFit(route.hops) && bundle.GuessSize() <= MAX_TIME
      requires priorClaims.Normal() && protected.Normal() && priorClaims.Value() == protected.Value() >= 0
      requires priorClaims != overbooked && overbooked != protected && protected != priorClaims
      modifies priorClaims, overbooked, protected
      ensures arrivalTime != 0 ==> overbooked.Normal() && protected.Normal()
      ensures EstimateTried(contacts, ranges, localNode, route, bundle, now, old(priorClaims.Value()),
                            arrivalTime, eto, overbooked.Value(), protected.Value())
    {
      arrivalTime, eto := 0, 0;
      ghost var total := priorClaims.Value();
      var capacity := new Scalar();
      var allotment := new Scalar();
      var accepted := AllotBacklog(route.toNodeNbr, route.fromTime, now, priorClaims, protected, capacity, allotment);
      if !accepted {
        EstimateRefused(contacts, ranges, localNode, route, bundle, now, total, priorClaims.Value(),
                        capacity.Value(), allotment.Value(), overbooked.Value(), protected.Value(), protected.Value());
        return;
      }
      arrivalTime, eto := EstimateArrival(route, bundle, now, total, priorClaims, capacity, allotment, overbooked, protected);
    }

    /** The estimate for a route that is accepted, from what the scan of the contacts found. */
    method EstimateArrival(route: CgrRoute, bundle: Bundle, now: int, ghost backlog: nat, priorClaims: Scalar, capacity: Scalar,
                           allotment: Scalar, overbooked: Scalar, protected: Scalar)
      returns (arrivalTime: int, eto: int)
      requires RangesOrdered(ranges) && route.hops != [] && AllFit(route.hops)
      requires bundle.GuessSize() <= MAX_TIME && priorClaims.Normal() && capacity.Normal() && allotment.Normal()
      requires allotment != overbooked && capacity != overbooked && priorClaims != overbooked
      requires protected != overbooked && protected != priorClaims && protected.Normal()
      requires Claimed(contacts, localNode, route.toNodeNbr, route.fromTime, now, backlog, true,
                       priorClaims.Value(), capacity.Value(), allotment.Value(), protected.Value())
      modifies overbooked, priorClaims
      ensures overbooked.Normal()
      ensures EstimateTried(contacts, ranges, localNode, route, bundle, now, backlog,
                            arrivalTime, eto, overbooked.Value(), protected.Value())
    {
      var eccc := Eccc(bundle.GuessSize());
      ghost var free, allotted := capacity.Value(), allotment.Value();
      ComputeOverbooked(allotment, capacity, eccc, overbooked);
      if route.hops[0].xmitRate == 0 {
        return ERROR, 0;
      }
      ghost var prior := priorClaims.Value();
      ClaimsPositive(contacts, localNode, route, now, backlog);
      arrivalTime, eto := ProjectArrival(route, bundle.Deadline(), now, priorClaims, eccc);
      EstimateMade(contacts, ranges, localNode, route, bundle, now, backlog, prior, free, allotted,
                   overbooked.Value(), protected.Value(), arrivalTime, eto);
    }

    // ---------------------------------------------------------- trying routes

    /** Note a plausible route, if it is the first or the best one by way of its neighbor. */
    method NoteRoute(node: ProximateNode, ghost trials: seq<Trial>)
      requires Represents(proximateNodes, trials)
      modifies this`proximateNodes
      ensures Represents(proximateNodes, trials + [node.Attempt()])
      ensures forall n :: n in proximateNodes ==> n in old(proximateNodes) || n == node
    {
      var i := 0;
      while i < |proximateNodes|
        invariant 0 <= i <= |proximateNodes| && proximateNodes == old(proximateNodes)
        invariant forall j :: 0 <= j < i ==> proximateNodes[j].neighborNodeNbr != node.neighborNodeNbr
      {
        var known := proximateNodes[i];
        if known.neighborNodeNbr == node.neighborNodeNbr {
          KnownNeighbor(proximateNodes, trials, i, node);
          if node.arrivalTime < known.arrivalTime {
            proximateNodes := proximateNodes[i := node];
          } else if node.arrivalTime == known.arrivalTime {
            if node.hopCount < known.hopCount {
              proximateNodes := proximateNodes[i := node];
            }
          }
          return;
        }
        i := i + 1;
      }
      NewNeighbor(proximateNodes, trials, node);
      proximateNodes := proximateNodes + [node];
    }

    /** What a route offers a bundle; nothing if it is not plausible. */
    method ExamineRoute(route: CgrRoute, rq: Request) returns (node: Option<ProximateNode>)
      requires Valid() && AllFit(contacts) && rq.Valid() && RouteSound(route)
      ensures var arrivalTime := Estimate(contacts, ranges, localNode, rq, route);
        if arrivalTime == 0 then node == None else node.Some? && node.value.Attempt() == TrialOf(route, arrivalTime)
      ensures node.Some? ==> Offered(contacts, ranges, localNode, rq, route, node.value)
    {
      if route.toNodeNbr !in rq.directives {
        return None;
      }
      var outduct := rq.directives[route.toNodeNbr];
      if !outduct.Usable(rq.bundle) {
        return None;
      }
      var backlog := new Scalar();
      backlog.gigs, backlog.units := outduct.gigs, outduct.units;
      var overbooked := new Scalar();
      var protected := new Scalar();
      var arrivalTime, eto := ComputeArrivalTime(route, rq.bundle, rq.now, backlog, overbooked, protected);
      if arrivalTime == 0 {
        return None;
      }
      node := Some(ProximateNode(route.toNodeNbr, route.toTime, arrivalTime,
                                 overbooked.Value(), protected.Value(), |route.hops|));
    }

    /** Try a route: if it is a plausible way to forward the bundle, note it. */
    method TryRoute(route: CgrRoute, rq: Request, ghost tried: seq<CgrRoute>)
      requires Valid() && AllFit(contacts) && rq.Valid() && RouteSound(route) && HaveHops(tried)
      requires Represents(proximateNodes, Trials(contacts, ranges, localNode, rq, tried))
      requires AllOffered(contacts, ranges, localNode, rq, tried, proximateNodes)
      modifies this`proximateNodes
      ensures HaveHops(tried + [route])
      ensures Represents(proximateNodes, Trials(contacts, ranges, localNode, rq, tried + [route]))
      ensures AllOffered(contacts, ranges, localNode, rq, tried + [route], proximateNodes)
    {
      ghost var nodes := proximateNodes;
      var node := ExamineRoute(route, rq);
      TrialsAppend(contacts, ranges, localNode, rq, tried, route);
      if node.Some? {
        NoteRoute(node.value, Trials(contacts, ranges, localNode, rq, tried));
      }
      OneMoreOffered(contacts, ranges, localNode, rq, tried, route, nodes, proximateNodes);
    }

    /** The neighbor of the best of all the trials that the proximate nodes represent. */
    method SelectNeighbor(nodes: seq<ProximateNode>, ghost trials: seq<Trial>) returns (selected: Option<ProximateNode>)
      requires Represents(nodes, trials)
      ensures selected == None <==> trials == []
      ensures selected.Some? ==> selected.value in nodes && Minimal(selected.value.Attempt(), trials)
    {
      NothingSelected(nodes, trials);
      if nodes == [] {
        return None;
      }
      var best, i := 0, 1;
      while i < |nodes|
        invariant 1 <= i <= |nodes| && SelectedFrom(nodes, i, best)
      {
        SelectionStep(nodes, i, best);
        if nodes[i].arrivalTime < nodes[best].arrivalTime {
          best := i;
        } else if nodes[i].arrivalTime == nodes[best].arrivalTime {
          if nodes[i].hopCount < nodes[best].hopCount {
            best := i;
          } else if nodes[i].hopCount == nodes[best].hopCount {
            if nodes[i].neighborNodeNbr < nodes[best].neighborNodeNbr {
              best := i;
            }
          }
        }
        i := i + 1;
      }
      SelectedIsMinimal(nodes, trials, best);
      selected := Some(nodes[best]);
    }

    // ---------------------------------------------------------- walking a route list

    /** Suppress the leading contacts of all listed routes except those by a given contact. */
    method SuppressLeads(routes: seq<CgrRoute>, toNode: nat, fromTime: int)
      requires Valid() && Cleared(contacts, work) && SuppressedIn(work) == {}
      modifies this`work
      ensures Cleared(contacts, work) && LeadsSuppressed(contacts, localNode, routes, toNode, fromTime, work)
    {
      var k := 0;
      assert forall i :: 0 <= i < |work| ==> !work[i].suppressed by {
        assert forall i: nat :: i < |work| && work[i].suppressed ==> i in SuppressedIn(work);
      }
      while k < |routes|
        invariant 0 <= k <= |routes| && Cleared(contacts, work)
        invariant LeadsSuppressed(contacts, localNode, routes[..k], toNode, fromTime, work)
      {
        ghost var w := work;
        var key := Key(localNode, routes[k].toNodeNbr, routes[k].fromTime);
        if !SameLead(routes[k], toNode, fromTime) && key in ContactKeys(contacts) {
          AfterPosition(ContactKeys(contacts), key);
          var i := Position(ContactKeys(contacts), key);
          work := work[i := work[i].(suppressed := true)];
        }
        forall i | 0 <= i < |w|
          ensures work[i].suppressed <==> w[i].suppressed || Leads(localNode, routes[k], toNode, fromTime, contacts[i])
        {
          LeadAt(contacts, key, i);
        }
        LeadSuppressed(contacts, localNode, routes, k, toNode, fromTime, w, work);
        k := k + 1;
      }
      assert routes[..k] == routes;
    }

    /** Find the place of a new route in a list by arrival. */
    method PlaceOf(routes: seq<CgrRoute>, route: CgrRoute) returns (n: nat)
      ensures n <= |routes| && InsertedAt(routes, routes[..n] + [route] + routes[n..], n, route)
    {
      n := 0;
      while n < |routes| && routes[n].arrivalTime <= route.arrivalTime
        invariant n <= |routes| && forall k :: 0 <= k < n ==> routes[k].arrivalTime <= route.arrivalTime
      {
        n := n + 1;
      }
    }

    /** Compute a new route to replace one by a given contact, unless that is gone or over.
        The new route need not lead by it. */
    method RecomputeRouteForContact(toNode: nat, fromTime: int, terminus: nat, now: int, payloadClass: int)
      returns (added: bool, ghost n: nat, ghost route: CgrRoute)
      requires Valid() && AllFit(contacts) && 0 <= now <= MAX_TIME && terminus in routeLists
      modifies this`work, this`routeLists
      ensures Valid() && (!added ==> routeLists == old(routeLists))
      ensures added == Replaceable(contacts, ranges, localNode, terminus, now, old(routeLists)[terminus], toNode, fromTime, payloadClass)
      ensures added ==> terminus in routeLists && OnlyListOf(terminus, old(routeLists), routeLists)
      ensures added ==> Recomputed(contacts, ranges, localNode, terminus, now, old(routeLists)[terminus], toNode, fromTime,
                                   payloadClass, routeLists[terminus], n, route)
    {
      n, route := 0, CgrRoute(0, 0, 0, 0, [], 0, 0);
      var key := Key(localNode, toNode, fromTime);
      LeadIndexed(contacts, key, now);
      if key !in ContactKeys(contacts) {
        return false, n, route;
      }
      AfterPosition(ContactKeys(contacts), key);
      if contacts[Position(ContactKeys(contacts), key)].toTime <= now {
        return false, n, route;
      }
      var routes := routeLists[terminus];
      var found := FindOtherRoute(routes, toNode, fromTime, terminus, now, payloadClass);
      if found == None {
        return false, n, route;
      }
      var place := PlaceOf(routes, found.value);
      Enlist(terminus, routes[..place] + [found.value] + routes[place..]);
      n, route, added := place, found.value, true;
    }

    /** Search for a route while the leading contacts of the other listed routes are suppressed. */
    method FindOtherRoute(routes: seq<CgrRoute>, toNode: nat, fromTime: int, terminus: nat, now: int, payloadClass: int)
      returns (found: Option<CgrRoute>)
      requires Valid() && AllFit(contacts) && 0 <= now <= MAX_TIME
      modifies this`work
      ensures Valid()
      ensures found == None
         <==> forall path :: !Recomputation(contacts, ranges, localNode, now, routes, toNode, fromTime, payloadClass).Reaches(path, terminus)
      ensures found.Some? ==>
        NewRoute(contacts, ranges, localNode, terminus, now, routes, toNode, fromTime, payloadClass, found.value)
    {
      StartNotes();
      SuppressLeads(routes, toNode, fromTime);
      ghost var w := work;
      ghost var p := Problem(contacts, ranges, SuppressedIn(work), MinCapacity(payloadClass), localNode, now);
      LeadsAreSuppressed(contacts, ranges, localNode, now, routes, toNode, fromTime, payloadClass, work);
      found := FindNextBestRoute(terminus, payloadClass, now, p);
      if found.Some? {
        RouteRecomputed(p, terminus, routes, toNode, fromTime, w, found.value);
      }
    }

    method Enlist(terminus: nat, routes: seq<CgrRoute>)
      modifies this`routeLists
      ensures routeLists == old(routeLists)[terminus := routes]
    {
      routeLists := routeLists[terminus := routes];
    }

    /** Delete the expired route at position i, and try to replace it; then the walk starts
        again, or goes on in place. */
    method ReplaceRoute(i: nat, terminus: nat, rq: Request, ghost tried: seq<CgrRoute>) returns (next: nat)
      requires Valid() && AllFit(contacts) && rq.Valid() && terminus in routeLists && i < |routeLists[terminus]|
      requires Walking(contacts, ranges, localNode, rq, routeLists[terminus], proximateNodes, i, tried)
      requires routeLists[terminus][i].toTime < rq.now
      modifies this`work, this`routeLists
      ensures Valid() && terminus in routeLists && OnlyListOf(terminus, old(routeLists), routeLists)
      ensures Replaced(contacts, ranges, localNode, rq, terminus, old(routeLists)[terminus], routeLists[terminus],
                       proximateNodes, next, tried)
      ensures Replaces(contacts, ranges, localNode, rq, terminus, old(routeLists)[terminus], routeLists[terminus])
    {
      var routes := routeLists[terminus];
      var route := routes[i];
      var shorter := routes[..i] + routes[i + 1..];
      ghost var lists := routeLists;
      routeLists := routeLists[terminus := shorter];
      JustDeleted(contacts, ranges, localNode, rq, terminus, routes, proximateNodes, i, tried);
      var added;
      ghost var n, recomputed;
      added, n, recomputed := RecomputeRouteForContact(route.toNodeNbr, route.fromTime, terminus, rq.now, route.payloadClass);
      next := i;
      OnlyListTwice(terminus, lists, lists[terminus := shorter], routeLists);
      if added {
        DeletedAndRecomputed(contacts, ranges, localNode, rq, terminus, routes, shorter, proximateNodes, i, tried,
                             route.toNodeNbr, route.fromTime, route.payloadClass, routeLists[terminus], n, recomputed);
        next := 0;
      }
      ReplacedAt(contacts, ranges, localNode, rq, terminus, routes, routeLists[terminus], i, tried);
    }

    /** Replace the expired route at position i of the list that a run has come to. */
    method ReplaceInRun(i: nat, terminus: nat, rq: Request, ghost tried: seq<CgrRoute>, ghost was: seq<CgrRoute>,
                        ghost run: seq<seq<CgrRoute>>)
      returns (next: nat, ghost run': seq<seq<CgrRoute>>)
      requires Valid() && AllFit(contacts) && rq.Valid() && terminus in routeLists && i < |routeLists[terminus]|
      requires Walking(contacts, ranges, localNode, rq, routeLists[terminus], proximateNodes, i, tried)
      requires routeLists[terminus][i].toTime < rq.now
      requires Evolved(contacts, ranges, localNode, rq, terminus, was, routeLists[terminus])
      requires Run(contacts, ranges, localNode, rq, terminus, was, routeLists[terminus], run)
      modifies this`work, this`routeLists
      ensures Valid() && terminus in routeLists && OnlyListOf(terminus, old(routeLists), routeLists)
      ensures Walking(contacts, ranges, localNode, rq, routeLists[terminus], proximateNodes, next, tried)
      ensures Expired(routeLists[terminus], rq.now) < Expired(old(routeLists)[terminus], rq.now)
      ensures Evolved(contacts, ranges, localNode, rq, terminus, was, routeLists[terminus])
      ensures Run(contacts, ranges, localNode, rq, terminus, was, routeLists[terminus], run')
    {
      ghost var mid := routeLists[terminus];
      next := ReplaceRoute(i, terminus, rq, tried);
      EvolvedTwice(contacts, ranges, localNode, rq, terminus, was, mid, routeLists[terminus]);
      run' := RunGoesOn(contacts, ranges, localNode, rq, terminus, was, mid, routeLists[terminus], run);
    }

    /** Consider the route at position i, which is current and would arrive in time. */
    method ConsiderRoute(i: nat, terminus: nat, rq: Request, ghost tried: seq<CgrRoute>)
      returns (ghost tried': seq<CgrRoute>)
      requires Valid() && AllFit(contacts) && rq.Valid() && terminus in routeLists && i < |routeLists[terminus]|
      requires Walking(contacts, ranges, localNode, rq, routeLists[terminus], proximateNodes, i, tried)
      requires routeLists[terminus][i].toTime >= rq.now && !Late(rq, routeLists[terminus][i])
      modifies this`proximateNodes
      ensures Walking(contacts, ranges, localNode, rq, routeLists[terminus], proximateNodes, i + 1, tried')
    {
      var route := routeLists[terminus][i];
      tried' := tried;
      var skip := false;
      if route.toNodeNbr == localNode {
        if !(rq.bundle.cbhe && rq.bundle.destination == route.toNodeNbr) {
          skip := true;
        }
      }
      if skip || rq.bundle.payloadLength > route.maxCapacity || route.toNodeNbr in rq.excluded {
        WalkPasses(contacts, ranges, localNode, rq, routeLists[terminus], proximateNodes, i, tried);
        return;
      }
      ghost var nodes := proximateNodes;
      assert route in routeLists[terminus];
      TryRoute(route, rq, tried);
      WalkTries(contacts, ranges, localNode, rq, routeLists[terminus], nodes, proximateNodes, i, tried);
      tried' := tried + [route];
    }

    /** Walk a list of routes, trying those that are admitted. */
    method WalkRoutes(terminus: nat, rq: Request)
      returns (ghost tried: seq<CgrRoute>, ghost stop: int, ghost run: seq<seq<CgrRoute>>)
      requires Valid() && AllFit(contacts) && rq.Valid() && terminus in routeLists
      requires Walking(contacts, ranges, localNode, rq, routeLists[terminus], proximateNodes, 0, [])
      modifies this`work, this`routeLists, this`proximateNodes
      ensures Valid() && terminus in routeLists && OnlyListOf(terminus, old(routeLists), routeLists)
      ensures WalkOver(localNode, rq, routeLists[terminus], tried, stop)
      ensures ListSound(routeLists[terminus]) && HaveHops(tried)
      ensures Represents(proximateNodes, Trials(contacts, ranges, localNode, rq, tried))
      ensures AllOffered(contacts, ranges, localNode, rq, tried, proximateNodes)
      ensures Evolved(contacts, ranges, localNode, rq, terminus, old(routeLists)[terminus], routeLists[terminus])
      ensures Run(contacts, ranges, localNode, rq, terminus, old(routeLists)[terminus], routeLists[terminus], run)
    {
      tried := [];
      ghost var was := routeLists[terminus];
      NotEvolved(contacts, ranges, localNode, rq, terminus, was);
      run := RunStarts(contacts, ranges, localNode, rq, terminus, was);
      var i := 0;
      while i < |routeLists[terminus]|
        invariant Valid() && terminus in routeLists && OnlyListOf(terminus, old(routeLists), routeLists)
        invariant Evolved(contacts, ranges, localNode, rq, terminus, was, routeLists[terminus])
        invariant Run(contacts, ranges, localNode, rq, terminus, was, routeLists[terminus], run)
        invariant Walking(contacts, ranges, localNode, rq, routeLists[terminus], proximateNodes, i, tried)
        decreases Expired(routeLists[terminus], rq.now), |routeLists[terminus]| - i
      {
        if routeLists[terminus][i].toTime < rq.now {
          i, run := ReplaceInRun(i, terminus, rq, tried, was, run);
          continue;
        }
        if routeLists[terminus][i].arrivalTime > rq.bundle.Deadline() {
          break;
        }
        tried := ConsiderRoute(i, terminus, rq, tried);
        i := i + 1;
      }
      WalkEnds(localNode, rq, routeLists[terminus], i, tried);
      stop := i;
    }

    /** Load the routes to a terminus if there is no list of them yet, and walk the list. */
    method IdentifyProximateNodes(terminus: nat, rq: Request)
      returns (ok: bool, ghost tried: seq<CgrRoute>, ghost stop: int, ghost was: seq<CgrRoute>, ghost run: seq<seq<CgrRoute>>)
      requires Valid() && AllFit(contacts) && rq.Valid() && proximateNodes == []
      requires terminus in routeLists ==> ListSound(routeLists[terminus])
      modifies this`work, this`routeLists, this`proximateNodes
      ensures ok && Valid() && terminus in routeLists && OnlyListOf(terminus, old(routeLists), routeLists)
      ensures ListSound(routeLists[terminus]) && HaveHops(tried)
      ensures WalkOver(localNode, rq, routeLists[terminus], tried, stop)
      ensures Represents(proximateNodes, Trials(contacts, ranges, localNode, rq, tried))
      ensures AllOffered(contacts, ranges, localNode, rq, tried, proximateNodes)
      ensures StartsFrom(contacts, ranges, localNode, rq.now, terminus, old(routeLists), was)
      ensures Evolved(contacts, ranges, localNode, rq, terminus, was, routeLists[terminus])
      ensures Run(contacts, ranges, localNode, rq, terminus, was, routeLists[terminus], run)
    {
      tried, stop, run := [], 0, [];
      ok, was := EnsureListed(terminus, rq.now);
      ghost var lists, mid := old(routeLists), routeLists;
      if !ok {
        return;
      }
      WalkStarts(contacts, ranges, localNode, rq, was);
      tried, stop, run := WalkRoutes(terminus, rq);
      OnlyListTwice(terminus, lists, mid, routeLists);
    }

    method EnsureListed(terminus: nat, now: int) returns (ok: bool, ghost was: seq<CgrRoute>)
      requires Valid() && AllFit(contacts) && 0 <= now <= MAX_TIME && (terminus in routeLists ==> ListSound(routeLists[terminus]))
      modifies this`work, this`routeLists
      ensures ok && Valid() && terminus in routeLists && OnlyListOf(terminus, old(routeLists), routeLists)
      ensures was == routeLists[terminus] && ListSound(was)
      ensures StartsFrom(contacts, ranges, localNode, now, terminus, old(routeLists), was)
    {
      ok := true;
      if terminus !in routeLists {
        ok := LoadRouteList(terminus, now);
        if ok {
          ListStartsSound(contacts, ranges, localNode, now, terminus, routeLists[terminus]);
        }
      }
      was := routeLists[terminus];
    }

    /** Identify the proximate nodes by a walk, and select the neighbor to forward to. */
    method ChooseNeighbor(terminus: nat, rq: Request)
      returns (selected: Option<ProximateNode>, ghost tried: seq<CgrRoute>, ghost stop: int, ghost was: seq<CgrRoute>,
               ghost run: seq<seq<CgrRoute>>)
      requires Valid() && AllFit(contacts) && rq.Valid() && (terminus in routeLists ==> ListSound(routeLists[terminus]))
      modifies this`work, this`routeLists, this`proximateNodes
      ensures Valid() && terminus in routeLists && OnlyListOf(terminus, old(routeLists), routeLists)
      ensures ListSound(routeLists[terminus]) && WalkOver(localNode, rq, routeLists[terminus], tried, stop)
      ensures StartsFrom(contacts, ranges, localNode, rq.now, terminus, old(routeLists), was)
      ensures Evolved(contacts, ranges, localNode, rq, terminus, was, routeLists[terminus])
      ensures Run(contacts, ranges, localNode, rq, terminus, was, routeLists[terminus], run)
      ensures Chosen(contacts, ranges, localNode, rq, tried, selected)
      ensures Provided(rq, tried, selected) && proximateNodes == []
    {
      var ok;
      proximateNodes := [];
      ok, tried, stop, was, run := IdentifyProximateNodes(terminus, rq);
      selected := SelectNeighbor(proximateNodes, Trials(contacts, ranges, localNode, rq, tried));
      SelectedProvided(contacts, ranges, localNode, rq, routeLists[terminus], tried, stop, selected);
      proximateNodes := [];
    }

    // ---------------------------------------------------------- the route cache

    /** Forget all route lists. */
    method DiscardRouteLists()
      modifies this`routeLists
      ensures routeLists == map[]
    {
      while routeLists.Keys != {}
        decreases |routeLists.Keys|
      {
        var terminus :| terminus in routeLists.Keys;
        routeLists := routeLists - {terminus};
      }
    }

    /** Take over the contact plan; new contacts have no notes yet. */
    method TakeContacts(contacts: seq<CXref>)
      requires ContactsOrdered(contacts) && RangesOrdered(ranges)
      modifies this`contacts, this`work
      ensures Valid() && this.contacts == contacts
    {
      this.contacts := contacts;
      StartNotes();
    }
  }
}
