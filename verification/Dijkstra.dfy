/** The search for the earliest arrival at a terminus, and the route it leaves behind. */
module Dijkstra {
  import opened ContactGraph
  import opened Sequences

  /** Working values of a contact, reset for each search. The predecessor is the index of
      a contact, or ROOT. */
  datatype ContactNote = ContactNote(predecessor: int, capacity: nat, arrivalTime: int, visited: bool, suppressed: bool)

  const ROOT: int := -1

  type Notes = seq<ContactNote>

  /** The node that data is at after contact v, or at the root. */
  function NodeOf(p: Problem, v: int): nat {
    if 0 <= v < |p.contacts| then p.contacts[v].toNode else p.source
  }

  function TimeAt(p: Problem, w: Notes, v: int): int {
    if 0 <= v < |w| then w[v].arrivalTime else p.now
  }

  /** The notes belong to the problem's contacts. */
  ghost predicate Fits(p: Problem, w: Notes) {
    && |w| == |p.contacts|
    && (forall i :: 0 <= i < |w| ==> (w[i].suppressed <==> i in p.suppressed))
    && (forall i :: 0 <= i < |w| ==> w[i].arrivalTime <= MAX_TIME)
    && (forall i :: 0 <= i < |w| ==> w[i].capacity == 0 || w[i].capacity == p.Capacity(i))
  }

  /** The root, then the contacts in the order they were made current. */
  ghost predicate History(p: Problem, w: Notes, hist: seq<int>) {
    && hist != [] && hist[0] == ROOT && NoRepeats(hist)
    && (forall k :: 0 < k < |hist| ==> Settled(p, w, hist[k]))
    && InOrder(p, w, hist) && NoneSooner(p, w, hist)
  }

  ghost predicate Settled(p: Problem, w: Notes, v: int) {
    0 <= v < |w| && p.Usable(v) && w[v].arrivalTime < MAX_TIME
  }

  ghost predicate InOrder(p: Problem, w: Notes, hist: seq<int>) {
    forall k, l :: 0 <= k <= l < |hist| ==> TimeAt(p, w, hist[k]) <= TimeAt(p, w, hist[l])
  }

  ghost predicate NoneSooner(p: Problem, w: Notes, hist: seq<int>) {
    forall k, i :: 0 <= k < |hist| && 0 <= i < |w| && i !in hist ==> TimeAt(p, w, hist[k]) <= w[i].arrivalTime
  }

  /** Contact i was reached through the k'th of the history: in time, at the noted time, and
      none before the k'th led to i's node. */
  ghost predicate ReachedFrom(p: Problem, w: Notes, hist: seq<int>, i: nat, k: nat)
    requires |w| == |p.contacts| && i < |w| && k < |hist|
  {
    && hist[k] == w[i].predecessor
    && p.Ready(i, NodeOf(p, hist[k]), TimeAt(p, w, hist[k]))
    && w[i].arrivalTime == p.Arrival(i, TimeAt(p, w, hist[k]))
    && w[i].capacity == p.Capacity(i)
    && (forall l :: 0 <= l < k ==> NodeOf(p, hist[l]) != p.contacts[i].fromNode)
    && (forall l :: 0 <= l <= k ==> hist[l] != i)
  }

  ghost predicate ReachedSomehow(p: Problem, w: Notes, hist: seq<int>, i: nat)
    requires |w| == |p.contacts| && i < |w|
  {
    exists k :: 0 <= k < |hist| && ReachedFrom(p, w, hist, i, k)
  }

  ghost predicate Reached(p: Problem, w: Notes, hist: seq<int>)
    requires |w| == |p.contacts|
  {
    forall i: nat {:trigger ReachedSomehow(p, w, hist, i)} :: i < |w| && w[i].arrivalTime < MAX_TIME ==>
      ReachedSomehow(p, w, hist, i)
  }

  /** Every contact that can follow v is noted to arrive no later than through v. */
  ghost predicate Relaxed(p: Problem, w: Notes, v: int)
  {
    forall i :: 0 <= i < |w| && p.Ready(i, NodeOf(p, v), TimeAt(p, w, v)) ==>
      w[i].arrivalTime <= p.Arrival(i, TimeAt(p, w, v))
  }

  ghost predicate VisitedAre(w: Notes, visited: seq<int>) {
    forall i :: 0 <= i < |w| ==> (w[i].visited <==> i in visited)
  }

  ghost predicate AllRelaxed(p: Problem, w: Notes, hist: seq<int>) {
    forall k :: 0 <= k < |hist| - 1 ==> Relaxed(p, w, hist[k])
  }

  /** The best contact with the terminus noted so far. */
  ghost predicate Best(p: Problem, w: Notes, terminus: nat, final: int, earliest: int)
    requires |w| == |p.contacts|
  {
    && earliest <= MAX_TIME
    && (forall i :: 0 <= i < |w| && p.contacts[i].toNode == terminus ==> earliest <= w[i].arrivalTime)
    && (final == ROOT ==> earliest == MAX_TIME)
    && (final != ROOT ==> 0 <= final < |w| && p.contacts[final].toNode == terminus
                          && w[final].arrivalTime == earliest < MAX_TIME)
  }

  /** What holds whenever a contact has just become current: it is the last of the history. */
  ghost predicate Searching(p: Problem, w: Notes, hist: seq<int>, terminus: nat, final: int, earliest: int) {
    && Fits(p, w) && History(p, w, hist) && Reached(p, w, hist)
    && VisitedAre(w, hist[..|hist| - 1])
    && AllRelaxed(p, w, hist)
    && Best(p, w, terminus, final, earliest)
  }

  // ---------------------------------------------------------- one contact

  /** w' keeps the times of the history, and improves no other below the current one. */
  ghost predicate Refines(p: Problem, w: Notes, w': Notes, hist: seq<int>)
    requires |w| == |p.contacts| == |w'| && hist != []
  {
    && (forall k :: 0 <= k < |hist| ==> TimeAt(p, w', hist[k]) == TimeAt(p, w, hist[k]))
    && (forall i :: 0 <= i < |w| ==> w'[i].arrivalTime <= w[i].arrivalTime)
    && (forall i :: 0 <= i < |w| && i !in hist ==> TimeAt(p, w, hist[|hist| - 1]) <= w'[i].arrivalTime)
  }

  lemma HistoryKept(p: Problem, w: Notes, w': Notes, hist: seq<int>)
    requires |w| == |p.contacts| == |w'| && History(p, w, hist) && Refines(p, w, w', hist)
    ensures History(p, w', hist)
  {
    forall k, i | 0 <= k < |hist| && 0 <= i < |w'| && i !in hist
      ensures TimeAt(p, w', hist[k]) <= w'[i].arrivalTime
    {
      assert TimeAt(p, w, hist[k]) <= TimeAt(p, w, hist[|hist| - 1]);
    }
    forall k, l | 0 <= k <= l < |hist|
      ensures TimeAt(p, w', hist[k]) <= TimeAt(p, w', hist[l])
    {
      assert TimeAt(p, w, hist[k]) <= TimeAt(p, w, hist[l]);
    }
    forall k | 0 < k < |hist|
      ensures Settled(p, w', hist[k])
    {
      assert Settled(p, w, hist[k]) && TimeAt(p, w', hist[k]) == TimeAt(p, w, hist[k]);
    }
  }

  /** Only contact i, if any, is reached in a new way. */
  lemma ReachedKept(p: Problem, w: Notes, w': Notes, hist: seq<int>, i: int)
    requires |w| == |p.contacts| == |w'| && hist != [] && Refines(p, w, w', hist) && Reached(p, w, hist)
    requires forall j :: 0 <= j < |w| && j != i ==>
      w'[j].predecessor == w[j].predecessor && w'[j].arrivalTime == w[j].arrivalTime && w'[j].capacity == w[j].capacity
    requires 0 <= i < |w| ==> ReachedSomehow(p, w', hist, i)
    ensures Reached(p, w', hist)
  {
    forall j | 0 <= j < |w'| && j != i && w'[j].arrivalTime < MAX_TIME
      ensures ReachedSomehow(p, w', hist, j)
    {
      assert ReachedSomehow(p, w, hist, j);
      var k :| 0 <= k < |hist| && ReachedFrom(p, w, hist, j, k);
      assert TimeAt(p, w', hist[k]) == TimeAt(p, w, hist[k]);
      assert ReachedFrom(p, w', hist, j, k);
    }
  }

  lemma AllRelaxedKept(p: Problem, w: Notes, w': Notes, hist: seq<int>)
    requires |w| == |p.contacts| == |w'| && hist != [] && Refines(p, w, w', hist) && AllRelaxed(p, w, hist)
    ensures AllRelaxed(p, w', hist)
  {
    forall k | 0 <= k < |hist| - 1
      ensures Relaxed(p, w', hist[k])
    {
      assert Relaxed(p, w, hist[k]) && TimeAt(p, w', hist[k]) == TimeAt(p, w, hist[k]);
    }
  }

  function WithCapacity(p: Problem, w: Notes, i: nat): Notes
    requires i < |w| && i < |p.contacts| && p.Capacity(i) >= 0
  {
    w[i := w[i].(capacity := p.Capacity(i))]
  }

  lemma CapacityReached(p: Problem, w: Notes, hist: seq<int>, i: nat)
    requires |w| == |p.contacts| && hist != [] && i < |w| && p.Capacity(i) >= 0 && Reached(p, w, hist)
    ensures Reached(p, WithCapacity(p, w, i), hist)
  {
    var w' := WithCapacity(p, w, i);
    forall j | 0 <= j < |w'| && w'[j].arrivalTime < MAX_TIME
      ensures ReachedSomehow(p, w', hist, j)
    {
      assert ReachedSomehow(p, w, hist, j);
      var k :| 0 <= k < |hist| && ReachedFrom(p, w, hist, j, k);
      assert TimeAt(p, w', hist[k]) == TimeAt(p, w, hist[k]);
      assert ReachedFrom(p, w', hist, j, k);
    }
  }

  lemma CapacityFits(p: Problem, w: Notes, hist: seq<int>, terminus: nat, final: int, earliest: int, i: nat)
    requires Fits(p, w) && VisitedAre(w, hist) && Best(p, w, terminus, final, earliest) && i < |w| && p.Capacity(i) >= 0
    ensures var w' := WithCapacity(p, w, i);
      Fits(p, w') && VisitedAre(w', hist) && Best(p, w', terminus, final, earliest)
  {
  }

  lemma CapacityPaths(p: Problem, w: Notes, hist: seq<int>, i: nat)
    requires |w| == |p.contacts| && i < |w| && p.Capacity(i) >= 0 && History(p, w, hist) && AllRelaxed(p, w, hist)
    ensures History(p, WithCapacity(p, w, i), hist) && AllRelaxed(p, WithCapacity(p, w, i), hist)
  {
    var w' := WithCapacity(p, w, i);
    SameTimesHistory(p, w, w', hist);
    assert TimeAt(p, w, hist[|hist| - 1]) == TimeAt(p, w', hist[|hist| - 1]);
    AllRelaxedKept(p, w, w', hist);
  }

  lemma CapacityNoted(p: Problem, w: Notes, hist: seq<int>, terminus: nat, final: int, earliest: int, i: nat)
    requires Searching(p, w, hist, terminus, final, earliest) && i < |w| && p.Capacity(i) >= 0
    ensures Searching(p, WithCapacity(p, w, i), hist, terminus, final, earliest)
  {
    var w' := WithCapacity(p, w, i);
    CapacityPaths(p, w, hist, i);
    CapacityReached(p, w, hist, i);
    CapacityFits(p, w, hist[..|hist| - 1], terminus, final, earliest, i);
  }

  /** A contact that is already visited cannot be reached sooner. */
  lemma VisitedSettled(p: Problem, w: Notes, hist: seq<int>, i: nat)
    requires Fits(p, w) && History(p, w, hist) && i in hist && p.Usable(i)
    ensures w[i].arrivalTime <= p.Arrival(i, TimeAt(p, w, hist[|hist| - 1]))
  {
    var k :| 0 <= k < |hist| && hist[k] == i;
    ArrivalMonotone(p, i, TimeAt(p, w, hist[|hist| - 1]), TimeAt(p, w, hist[|hist| - 1]));
  }

  /** If an earlier one of the history led to i's node, going through the last cannot help. */
  lemma FirstLeader(p: Problem, w: Notes, hist: seq<int>, i: nat, l: nat)
    requires Fits(p, w) && History(p, w, hist) && i < |w| && l < |hist| - 1 && Relaxed(p, w, hist[l])
    requires p.Ready(i, NodeOf(p, hist[|hist| - 1]), TimeAt(p, w, hist[|hist| - 1]))
    requires p.Arrival(i, TimeAt(p, w, hist[|hist| - 1])) < w[i].arrivalTime
    ensures NodeOf(p, hist[l]) != p.contacts[i].fromNode
  {
    var s, t := TimeAt(p, w, hist[l]), TimeAt(p, w, hist[|hist| - 1]);
    assert s <= t;
    ArrivalMonotone(p, i, s, t);
  }

  function WithArrival(w: Notes, i: nat, v: int, time: int): Notes
    requires i < |w|
  {
    w[i := w[i].(arrivalTime := time, predecessor := v)]
  }

  lemma ImprovedPaths(p: Problem, w: Notes, hist: seq<int>, i: nat, a: int)
    requires Fits(p, w) && History(p, w, hist) && Reached(p, w, hist) && AllRelaxed(p, w, hist)
    requires i < |w| && i !in hist && w[i].capacity == p.Capacity(i)
    requires var v := hist[|hist| - 1]; p.Ready(i, NodeOf(p, v), TimeAt(p, w, v))
                                        && a == p.Arrival(i, TimeAt(p, w, v)) < w[i].arrivalTime
    ensures var w' := WithArrival(w, i, hist[|hist| - 1], a);
      History(p, w', hist) && Reached(p, w', hist) && AllRelaxed(p, w', hist)
  {
    var n := |hist| - 1;
    var v := hist[n];
    var w' := WithArrival(w, i, v, a);
    ArrivalMonotone(p, i, TimeAt(p, w, v), TimeAt(p, w, v));
    assert Refines(p, w, w', hist);
    HistoryKept(p, w, w', hist);
    AllRelaxedKept(p, w, w', hist);
    forall l | 0 <= l < n
      ensures NodeOf(p, hist[l]) != p.contacts[i].fromNode
    {
      FirstLeader(p, w, hist, i, l);
    }
    assert ReachedFrom(p, w', hist, i, n);
    ReachedKept(p, w, w', hist, i);
  }

  lemma ImprovedBest(p: Problem, w: Notes, visited: seq<int>, terminus: nat, final: int, earliest: int,
                     i: nat, v: int, a: int)
    requires Fits(p, w) && VisitedAre(w, visited) && Best(p, w, terminus, final, earliest)
    requires i < |w| && a < w[i].arrivalTime
    ensures var better := p.contacts[i].toNode == terminus && a < earliest;
      var w' := WithArrival(w, i, v, a);
      && Fits(p, w') && VisitedAre(w', visited)
      && Best(p, w', terminus, if better then i else final, if better then a else earliest)
  {
  }

  /** Noting a better arrival through the current contact. */
  lemma Improved(p: Problem, w: Notes, hist: seq<int>, terminus: nat, final: int, earliest: int, i: nat, a: int)
    requires Searching(p, w, hist, terminus, final, earliest)
    requires i < |w| && i !in hist && w[i].capacity == p.Capacity(i)
    requires var v := hist[|hist| - 1]; p.Ready(i, NodeOf(p, v), TimeAt(p, w, v))
                                        && a == p.Arrival(i, TimeAt(p, w, v)) < w[i].arrivalTime
    ensures var better := p.contacts[i].toNode == terminus && a < earliest;
      Searching(p, WithArrival(w, i, hist[|hist| - 1], a), hist, terminus,
                if better then i else final, if better then a else earliest)
  {
    ImprovedPaths(p, w, hist, i, a);
    ImprovedBest(p, w, hist[..|hist| - 1], terminus, final, earliest, i, hist[|hist| - 1], a);
  }

  // ---------------------------------------------------------- moving on

  function WithVisited(w: Notes, v: int): Notes {
    if 0 <= v < |w| then w[v := w[v].(visited := true)] else w
  }

  /** The contact to consider next: the earliest of those that could still matter. */
  ghost predicate Next(w: Notes, hist: seq<int>, next: nat) {
    && next < |w| && next !in hist && w[next].arrivalTime < MAX_TIME
    && forall i :: 0 <= i < |w| && i !in hist ==> w[next].arrivalTime <= w[i].arrivalTime
  }

  lemma AdvancedReached(p: Problem, w: Notes, hist: seq<int>, v: int, next: nat)
    requires |w| == |p.contacts| && Reached(p, w, hist)
    ensures Reached(p, WithVisited(w, v), hist + [next])
  {
    var w', hist' := WithVisited(w, v), hist + [next];
    forall i | 0 <= i < |w'| && w'[i].arrivalTime < MAX_TIME
      ensures ReachedSomehow(p, w', hist', i)
    {
      assert ReachedSomehow(p, w, hist, i);
      var k :| 0 <= k < |hist| && ReachedFrom(p, w, hist, i, k);
      assert forall l :: 0 <= l <= k ==> hist'[l] == hist[l];
      assert ReachedFrom(p, w', hist', i, k);
    }
  }

  lemma AppendInOrder(p: Problem, w: Notes, hist: seq<int>, next: nat)
    requires InOrder(p, w, hist) && NoneSooner(p, w, hist) && Next(w, hist, next)
    ensures InOrder(p, w, hist + [next])
  {
    forall k, l | 0 <= k <= l < |hist + [next]|
      ensures TimeAt(p, w, (hist + [next])[k]) <= TimeAt(p, w, (hist + [next])[l])
    {
      if k < |hist| == l {
        assert TimeAt(p, w, hist[k]) <= w[next].arrivalTime;
      }
    }
  }

  lemma AppendNoneSooner(p: Problem, w: Notes, hist: seq<int>, next: nat)
    requires NoneSooner(p, w, hist) && Next(w, hist, next)
    ensures NoneSooner(p, w, hist + [next])
  {
    forall k, i | 0 <= k < |hist + [next]| && 0 <= i < |w| && i !in hist + [next]
      ensures TimeAt(p, w, (hist + [next])[k]) <= w[i].arrivalTime
    {
      assert i !in hist by {
        assert forall x :: x in hist ==> x in hist + [next];
      }
    }
  }

  lemma SameTimesHistory(p: Problem, w: Notes, w': Notes, hist: seq<int>)
    requires |w| == |w'| && forall i :: 0 <= i < |w| ==> w'[i].arrivalTime == w[i].arrivalTime
    requires History(p, w, hist)
    ensures History(p, w', hist)
  {
    assert forall u :: TimeAt(p, w', u) == TimeAt(p, w, u);
    assert InOrder(p, w', hist);
    assert NoneSooner(p, w', hist);
    forall k | 0 < k < |hist|
      ensures Settled(p, w', hist[k])
    {
      assert Settled(p, w, hist[k]);
    }
  }

  lemma AppendSettled(p: Problem, w: Notes, hist: seq<int>, next: nat)
    requires |w| == |p.contacts| && Reached(p, w, hist) && Next(w, hist, next)
    requires forall k :: 0 < k < |hist| ==> Settled(p, w, hist[k])
    ensures forall k :: 0 < k < |hist + [next]| ==> Settled(p, w, (hist + [next])[k])
  {
    assert ReachedSomehow(p, w, hist, next);
    assert Settled(p, w, next);
  }

  lemma AdvancedHistory(p: Problem, w: Notes, hist: seq<int>, v: int, next: nat)
    requires |w| == |p.contacts| && History(p, w, hist) && Reached(p, w, hist) && Next(w, hist, next)
    ensures History(p, WithVisited(w, v), hist + [next])
  {
    AppendNoRepeats(hist, next);
    AppendInOrder(p, w, hist, next);
    AppendNoneSooner(p, w, hist, next);
    AppendSettled(p, w, hist, next);
    assert (hist + [next])[0] == ROOT;
    SameTimesHistory(p, w, WithVisited(w, v), hist + [next]);
  }

  lemma AdvancedRelaxed(p: Problem, w: Notes, hist: seq<int>, v: int, next: nat)
    requires |w| == |p.contacts| && hist != [] && AllRelaxed(p, w, hist) && Relaxed(p, w, hist[|hist| - 1])
    ensures AllRelaxed(p, WithVisited(w, v), hist + [next])
  {
    var w', hist' := WithVisited(w, v), hist + [next];
    forall k | 0 <= k < |hist|
      ensures Relaxed(p, w', hist'[k])
    {
      assert hist'[k] == hist[k] && Relaxed(p, w, hist[k]);
      assert TimeAt(p, w', hist[k]) == TimeAt(p, w, hist[k]);
    }
  }

  lemma AdvancedVisited(w: Notes, hist: seq<int>)
    requires hist != [] && hist[|hist| - 1] < |w| && VisitedAre(w, hist[..|hist| - 1])
    ensures VisitedAre(WithVisited(w, hist[|hist| - 1]), hist)
  {
    var v := hist[|hist| - 1];
    assert hist == hist[..|hist| - 1] + [v];
  }

  lemma AdvancedBest(p: Problem, w: Notes, terminus: nat, final: int, earliest: int, v: int)
    requires Fits(p, w) && Best(p, w, terminus, final, earliest)
    ensures Fits(p, WithVisited(w, v)) && Best(p, WithVisited(w, v), terminus, final, earliest)
  {
  }

  lemma Advanced(p: Problem, w: Notes, hist: seq<int>, terminus: nat, final: int, earliest: int, next: nat)
    requires Searching(p, w, hist, terminus, final, earliest)
    requires Relaxed(p, w, hist[|hist| - 1]) && Next(w, hist, next)
    ensures Searching(p, WithVisited(w, hist[|hist| - 1]), hist + [next], terminus, final, earliest)
  {
    var v := hist[|hist| - 1];
    AdvancedReached(p, w, hist, v, next);
    AdvancedHistory(p, w, hist, v, next);
    AdvancedRelaxed(p, w, hist, v, next);
    AdvancedVisited(w, hist);
    AdvancedBest(p, w, terminus, final, earliest, v);
    assert (hist + [next])[..|hist + [next]| - 1] == hist;
  }

  // ---------------------------------------------------------- the end of the search

  /** Nothing left to consider could lie on a better path. */
  ghost predicate Complete(p: Problem, w: Notes, hist: seq<int>, terminus: nat, final: int, earliest: int) {
    && Searching(p, w, hist, terminus, final, earliest) && Relaxed(p, w, hist[|hist| - 1])
    && forall i :: 0 <= i < |w| && i !in hist ==> w[i].arrivalTime >= MAX_TIME || w[i].arrivalTime > earliest
  }

  lemma {:induction false} PathsGrowLater(p: Problem, path: seq<nat>)
    requires p.Feasible(path) && path != []
    ensures p.EndTime(path[..|path| - 1]) <= p.EndTime(path)
  {
    ArrivalMonotone(p, path[|path| - 1], p.EndTime(path[..|path| - 1]), p.EndTime(path[..|path| - 1]));
  }

  /** Following a relaxed contact from no earlier than its noted time. */
  lemma Followed(p: Problem, w: Notes, v: int, i: nat, t: int)
    requires |w| == |p.contacts| && Relaxed(p, w, v) && TimeAt(p, w, v) <= t && p.Ready(i, NodeOf(p, v), t)
    ensures w[i].arrivalTime <= p.Arrival(i, t)
  {
    ArrivalMonotone(p, i, TimeAt(p, w, v), t);
  }

  lemma CompleteRelaxed(p: Problem, w: Notes, hist: seq<int>, terminus: nat, final: int, earliest: int, v: int)
    requires Complete(p, w, hist, terminus, final, earliest)
    requires v == ROOT || (0 <= v < |w| && w[v].arrivalTime < earliest)
    ensures Relaxed(p, w, v)
  {
    assert v in hist by {
      if v == ROOT {
        assert hist[0] == ROOT;
      }
    }
    var k :| 0 <= k < |hist| && hist[k] == v;
    assert k < |hist| - 1 ==> Relaxed(p, w, hist[k]);
  }

  /** No path reaches a contact sooner than noted, unless it is too late to matter. */
  lemma {:induction false} NotedIsEarliest(p: Problem, w: Notes, hist: seq<int>, terminus: nat, final: int, earliest: int,
                                           path: seq<nat>)
    requires Complete(p, w, hist, terminus, final, earliest) && p.Feasible(path) && path != []
    ensures var i := path[|path| - 1];
      i < |w| && (w[i].arrivalTime <= p.EndTime(path) || earliest <= p.EndTime(path))
  {
    var q, i := path[..|path| - 1], path[|path| - 1];
    PathsGrowLater(p, path);
    if q == [] {
      CompleteRelaxed(p, w, hist, terminus, final, earliest, ROOT);
      Followed(p, w, ROOT, i, p.now);
    } else {
      var j := q[|q| - 1];
      NotedIsEarliest(p, w, hist, terminus, final, earliest, q);
      if p.EndTime(q) < earliest {
        CompleteRelaxed(p, w, hist, terminus, final, earliest, j);
        Followed(p, w, j, i, p.EndTime(q));
      }
    }
  }

  /** The search is optimal: no path to the terminus arrives before the earliest noted. */
  lemma Optimal(p: Problem, w: Notes, hist: seq<int>, terminus: nat, final: int, earliest: int, path: seq<nat>)
    requires Complete(p, w, hist, terminus, final, earliest) && p.Reaches(path, terminus)
    ensures earliest <= p.EndTime(path) && final != ROOT
  {
    NotedIsEarliest(p, w, hist, terminus, final, earliest, path);
    assert path[|path| - 1] in path;
  }

  // ---------------------------------------------------------- backtracking

  /** When a contact was made current; the others come after all of the history. */
  ghost function Rank(hist: seq<int>, v: int): (r: nat)
    ensures r <= |hist| && (r < |hist| ==> hist[r] == v) && (v in hist ==> r < |hist|)
  {
    if v in hist then (var k :| 0 <= k < |hist| && hist[k] == v; k) else |hist|
  }

  lemma RankAt(hist: seq<int>, k: nat)
    requires NoRepeats(hist) && k < |hist|
    ensures Rank(hist, hist[k]) == k
  {
    var r := Rank(hist, hist[k]);
    assert r < |hist| && hist[r] == hist[k];
  }

  /** Predecessors were current before their successors, even when light times are zero. */
  lemma PredecessorFirst(p: Problem, w: Notes, hist: seq<int>, i: nat)
    requires |w| == |p.contacts| && History(p, w, hist) && Reached(p, w, hist)
    requires i < |w| && w[i].arrivalTime < MAX_TIME
    ensures var v := w[i].predecessor;
      && Rank(hist, v) < Rank(hist, i) && Rank(hist, v) < |hist| && ReachedFrom(p, w, hist, i, Rank(hist, v))
      && (v != ROOT ==> 0 <= v < |w| && w[v].arrivalTime < MAX_TIME)
  {
    assert ReachedSomehow(p, w, hist, i);
    var k :| 0 <= k < |hist| && ReachedFrom(p, w, hist, i, k);
    RankAt(hist, k);
    var r := Rank(hist, i);
    if r < |hist| {
      assert hist[r] == i;
    }
    if hist[k] != ROOT {
      assert Settled(p, w, hist[k]);
    }
  }

  /** The contacts met when backtracking from i to the root, in travel order. */
  ghost function Trace(p: Problem, w: Notes, hist: seq<int>, i: nat): seq<nat>
    requires |w| == |p.contacts| && History(p, w, hist) && Reached(p, w, hist)
    requires i < |w| && w[i].arrivalTime < MAX_TIME
    decreases Rank(hist, i)
  {
    PredecessorFirst(p, w, hist, i);
    var v := w[i].predecessor;
    if v == ROOT then [i] else Trace(p, w, hist, v) + [i]
  }

  /** The trace is a path, and the arrival recurrence along it gives the noted time. */
  lemma {:induction false} TraceIsPath(p: Problem, w: Notes, hist: seq<int>, i: nat)
    requires |w| == |p.contacts| && History(p, w, hist) && Reached(p, w, hist)
    requires i < |w| && w[i].arrivalTime < MAX_TIME
    ensures var path := Trace(p, w, hist, i);
      && path != [] && path[|path| - 1] == i && p.Feasible(path) && p.EndTime(path) == w[i].arrivalTime
    decreases Rank(hist, i)
  {
    PredecessorFirst(p, w, hist, i);
    var v, path := w[i].predecessor, Trace(p, w, hist, i);
    if v == ROOT {
      assert path[..0] == [];
    } else {
      TraceIsPath(p, w, hist, v);
      assert path[..|path| - 1] == Trace(p, w, hist, v);
    }
  }

  lemma {:induction false} TraceRanks(p: Problem, w: Notes, hist: seq<int>, i: nat)
    requires |w| == |p.contacts| && History(p, w, hist) && Reached(p, w, hist)
    requires i < |w| && w[i].arrivalTime < MAX_TIME
    ensures forall h :: h in Trace(p, w, hist, i) ==>
      h < |w| && w[h].arrivalTime < MAX_TIME && Rank(hist, h) <= Rank(hist, i)
      && w[h].capacity == p.Capacity(h)
    decreases Rank(hist, i)
  {
    PredecessorFirst(p, w, hist, i);
    if w[i].predecessor != ROOT {
      TraceRanks(p, w, hist, w[i].predecessor);
    }
  }

  /** The contact that first led to a node got there as early as any path does. */
  lemma LeaderNoneAhead(p: Problem, w: Notes, hist: seq<int>, terminus: nat, final: int, earliest: int, i: nat)
    requires Complete(p, w, hist, terminus, final, earliest)
    requires i < |w| && w[i].arrivalTime < MAX_TIME && w[i].arrivalTime <= earliest && w[i].predecessor != ROOT
    ensures var v := w[i].predecessor;
      0 <= v < |w| && w[v].arrivalTime < MAX_TIME && w[v].arrivalTime <= earliest && NoneAhead(p, Trace(p, w, hist, v))
  {
    PredecessorFirst(p, w, hist, i);
    var v := w[i].predecessor;
    var k := Rank(hist, v);
    ArrivalMonotone(p, i, w[v].arrivalTime, w[v].arrivalTime);
    TraceIsPath(p, w, hist, v);
    var path := Trace(p, w, hist, v);
    forall other | p.Reaches(other, p.EndNode(path))
      ensures p.EndTime(path) <= p.EndTime(other)
    {
      NotedIsEarliest(p, w, hist, terminus, final, earliest, other);
      var j := other[|other| - 1];
      assert j in other && NodeOf(p, j) == NodeOf(p, v);
      if j in hist {
        var l :| 0 <= l < |hist| && hist[l] == j;
        assert k <= l && TimeAt(p, w, hist[k]) <= TimeAt(p, w, hist[l]);
      } else {
        assert TimeAt(p, w, hist[k]) <= w[j].arrivalTime;
      }
    }
  }

  ghost predicate NoneAheadWithin(p: Problem, path: seq<nat>) {
    forall k :: 0 < k < |path| ==> NoneAhead(p, path[..k])
  }

  lemma AheadExtended(p: Problem, path: seq<nat>, i: nat, longer: seq<nat>)
    requires longer == path + [i] && NoneAheadWithin(p, path) && NoneAhead(p, path)
    ensures NoneAheadWithin(p, longer)
  {
    forall k | 0 < k < |longer|
      ensures NoneAhead(p, longer[..k])
    {
      assert longer[..k] == path[..k];
      assert k == |path| ==> path[..k] == path;
    }
  }

  /** Every contact on the trace of one that is not beyond the best is such a leader. */
  lemma {:induction false} TraceAhead(p: Problem, w: Notes, hist: seq<int>, terminus: nat, final: int, earliest: int, i: nat)
    requires Complete(p, w, hist, terminus, final, earliest)
    requires i < |w| && w[i].arrivalTime < MAX_TIME && w[i].arrivalTime <= earliest
    ensures NoneAheadWithin(p, Trace(p, w, hist, i))
    decreases Rank(hist, i)
  {
    PredecessorFirst(p, w, hist, i);
    var v := w[i].predecessor;
    if v != ROOT {
      LeaderNoneAhead(p, w, hist, terminus, final, earliest, i);
      TraceAhead(p, w, hist, terminus, final, earliest, v);
      AheadExtended(p, Trace(p, w, hist, v), i, Trace(p, w, hist, i));
    }
  }

  /** The path found is the earliest to every node on its way. */
  lemma TraceIsPrompt(p: Problem, w: Notes, hist: seq<int>, terminus: nat, final: int, earliest: int)
    requires Complete(p, w, hist, terminus, final, earliest) && final != ROOT
    ensures Prompt(p, Trace(p, w, hist, final))
  {
    var path := Trace(p, w, hist, final);
    TraceIsPath(p, w, hist, final);
    TraceAhead(p, w, hist, terminus, final, earliest, final);
    forall other | p.Reaches(other, p.EndNode(path))
      ensures p.EndTime(path) <= p.EndTime(other)
    {
      Optimal(p, w, hist, terminus, final, earliest, other);
    }
    assert path[..|path|] == path;
  }

  /** Two contacts reached from different points of the history leave different nodes. */
  lemma LeadersDiffer(p: Problem, w: Notes, hist: seq<int>, h: nat, i: nat)
    requires |w| == |p.contacts| && History(p, w, hist) && Reached(p, w, hist)
    requires h < |w| && i < |w| && w[h].arrivalTime < MAX_TIME && w[i].arrivalTime < MAX_TIME
    requires Rank(hist, h) <= Rank(hist, w[i].predecessor)
    ensures p.contacts[h].fromNode != p.contacts[i].fromNode
  {
    PredecessorFirst(p, w, hist, h);
    PredecessorFirst(p, w, hist, i);
    var k, l := Rank(hist, w[h].predecessor), Rank(hist, w[i].predecessor);
    assert k < l && NodeOf(p, hist[k]) == p.contacts[h].fromNode;
  }

  /** The trace leaves no node twice; only its first contact leaves the source. */
  lemma {:induction false} TraceIsSimple(p: Problem, w: Notes, hist: seq<int>, i: nat)
    requires |w| == |p.contacts| && History(p, w, hist) && Reached(p, w, hist)
    requires i < |w| && w[i].arrivalTime < MAX_TIME
    ensures var path := Trace(p, w, hist, i);
      && (forall a :: 0 <= a < |path| ==> path[a] < |w|)
      && (forall a, b :: 0 <= a < b < |path| ==> p.contacts[path[a]].fromNode != p.contacts[path[b]].fromNode)
      && p.contacts[path[0]].fromNode == p.source
    decreases Rank(hist, i)
  {
    PredecessorFirst(p, w, hist, i);
    var v := w[i].predecessor;
    if v == ROOT {
      assert NodeOf(p, v) == p.source;
    } else {
      var q := Trace(p, w, hist, v);
      TraceIsPath(p, w, hist, v);
      TraceIsSimple(p, w, hist, v);
      TraceRanks(p, w, hist, v);
      forall a | 0 <= a < |q|
        ensures p.contacts[q[a]].fromNode != p.contacts[i].fromNode
      {
        assert q[a] in q;
        LeadersDiffer(p, w, hist, q[a], i);
      }
    }
  }
}
