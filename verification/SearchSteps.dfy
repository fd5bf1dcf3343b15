/** What each step of a search does to its working notes, and what scanning the contacts and
    ranges in key order visits. */
module SearchSteps {
  import opened Keys
  import opened ContactPlan
  import opened ContactGraph
  import opened Dijkstra
  import opened Sequences

  function ContactKeys(contacts: seq<CXref>): (s: seq<Key>)
    ensures |s| == |contacts|
  {
    seq(|contacts|, i requires 0 <= i < |contacts| => ContactKey(contacts[i]))
  }

  function RangeKeys(ranges: seq<RXref>): (s: seq<Key>)
    ensures |s| == |ranges|
  {
    seq(|ranges|, i requires 0 <= i < |ranges| => RangeKey(ranges[i]))
  }

  ghost predicate ContactsOrdered(contacts: seq<CXref>) {
    Sorted(ContactKeys(contacts)) && forall c :: c in contacts ==> c.WellFormed()
  }

  /** As contacts do, ranges have a nonzero start. */
  ghost predicate RangesOrdered(ranges: seq<RXref>) {
    Sorted(RangeKeys(ranges)) && forall r :: r in ranges ==> r.fromTime != 0
  }

  /** A search for a zero-time key never finds it. */
  lemma NoZeroKey(contacts: seq<CXref>, fromNode: nat, toNode: nat)
    requires ContactsOrdered(contacts)
    ensures Key(fromNode, toNode, 0) !in ContactKeys(contacts)
  {
    forall j | 0 <= j < |contacts|
      ensures ContactKeys(contacts)[j] != Key(fromNode, toNode, 0)
    {
      assert contacts[j] in contacts;
    }
  }

  lemma NoZeroRangeKey(ranges: seq<RXref>, fromNode: nat, toNode: nat)
    requires RangesOrdered(ranges)
    ensures Key(fromNode, toNode, 0) !in RangeKeys(ranges)
  {
    forall j | 0 <= j < |ranges|
      ensures RangeKeys(ranges)[j] != Key(fromNode, toNode, 0)
    {
      assert ranges[j] in ranges;
    }
  }

  /** The pair's ranges that start after time zero begin where the scan does. */
  lemma RangeScanStarts(ranges: seq<RXref>, c: CXref, i: nat)
    requires RangesOrdered(ranges) && i < ScanStart(RangeKeys(ranges), Key(c.fromNode, c.toNode, 0))
    ensures !Serves(ranges[i], c)
  {
    var ks, k := RangeKeys(ranges), Key(c.fromNode, c.toNode, 0);
    NoZeroRangeKey(ranges, c.fromNode, c.toNode);
    assert Below(ks[i], k);
  }

  /** From a range beyond the pair or the contact's start on, none serves it. */
  lemma RangeScanEnds(ranges: seq<RXref>, c: CXref, i: nat, j: nat)
    requires RangesOrdered(ranges) && i <= j < |ranges|
    requires ScanStart(RangeKeys(ranges), Key(c.fromNode, c.toNode, 0)) <= i
    requires ranges[i].fromNode > c.fromNode || ranges[i].toNode > c.toNode || ranges[i].fromTime > c.fromTime
    ensures !Serves(ranges[j], c)
  {
    var ks, k := RangeKeys(ranges), Key(c.fromNode, c.toNode, 0);
    AfterPosition(ks, k);
    assert ranges[i] in ranges;
    assert i < j ==> Below(ks[i], ks[j]);
    assert Compare(ks[i], k) >= 0;
  }

  lemma RangeScanHit(ranges: seq<RXref>, c: CXref, i: nat)
    requires RangesOrdered(ranges) && i < |ranges|
    requires ScanStart(RangeKeys(ranges), Key(c.fromNode, c.toNode, 0)) <= i
    requires ranges[i].fromNode <= c.fromNode && ranges[i].toNode <= c.toNode
    requires ranges[i].fromTime <= c.fromTime <= ranges[i].toTime
    requires forall j :: 0 <= j < i ==> !Serves(ranges[j], c)
    ensures ApplicableRange(ranges, c) == Some(ranges[i].owlt)
  {
    var ks, k := RangeKeys(ranges), Key(c.fromNode, c.toNode, 0);
    AfterPosition(ks, k);
    assert ranges[i] in ranges;
    assert Compare(ks[i], k) >= 0;
    assert Serves(ranges[i], c);
    ApplicableRangeFound(ranges, c, i);
  }

  /** A range is found just when one that starts at or after time zero covers the contact's
      start, and then the earliest-starting such range is. */
  lemma ApplicableRangeIsEarliest(ranges: seq<RXref>, c: CXref)
    requires RangesOrdered(ranges)
    ensures ApplicableRange(ranges, c).Some? <==> exists r :: r in ranges && Serves(r, c)
    ensures ApplicableRange(ranges, c).Some? ==>
      exists r :: r in ranges && Serves(r, c) && ApplicableRange(ranges, c) == Some(r.owlt)
                  && forall s :: s in ranges && Serves(s, c) ==> r.fromTime <= s.fromTime
  {
    var n := FirstServing(ranges, c);
    if n < |ranges| {
      var r := ranges[n];
      forall s | s in ranges && Serves(s, c)
        ensures r.fromTime <= s.fromTime
      {
        var i :| 0 <= i < |ranges| && ranges[i] == s;
        assert n < i ==> Below(RangeKeys(ranges)[n], RangeKeys(ranges)[i]);
      }
      assert r in ranges;
    }
  }

  lemma CapacityPositive(p: Problem, i: nat)
    requires i < |p.contacts| && ContactsOrdered(p.contacts)
    ensures p.Capacity(i) >= 0
  {
    assert p.contacts[i] in p.contacts;
  }

  ghost function SuppressedIn(work: Notes): set<nat> {
    set i: nat | 0 <= i < |work| && work[i].suppressed
  }

  ghost predicate NoLater(w: Notes, w': Notes) {
    |w'| == |w| && forall j :: 0 <= j < |w| ==> w'[j].arrivalTime <= w[j].arrivalTime
  }

  lemma NoLaterTransitive(w: Notes, w': Notes, w'': Notes)
    requires NoLater(w, w') && NoLater(w', w'')
    ensures NoLater(w, w'')
  {
  }

  ghost predicate SameTimes(w: Notes, w': Notes) {
    |w'| == |w| && forall j :: 0 <= j < |w| ==> w'[j].arrivalTime == w[j].arrivalTime
  }

  ghost predicate RelaxedAt(p: Problem, w: Notes, v: int, i: nat) {
    i < |w| && p.Ready(i, NodeOf(p, v), TimeAt(p, w, v)) ==> w[i].arrivalTime <= p.Arrival(i, TimeAt(p, w, v))
  }

  lemma IneligibleRelaxed(p: Problem, w: Notes, hist: seq<int>, terminus: nat, final: int, earliest: int, i: nat)
    requires Searching(p, w, hist, terminus, final, earliest) && i < |w| && (w[i].suppressed || w[i].visited)
    ensures RelaxedAt(p, w, hist[|hist| - 1], i)
  {
    if p.Usable(i) {
      assert i in hist[..|hist| - 1];
      VisitedSettled(p, w, hist, i);
    }
  }

  lemma EligibleReady(p: Problem, w: Notes, hist: seq<int>, terminus: nat, final: int, earliest: int, i: nat, time: int)
    requires Searching(p, w, hist, terminus, final, earliest) && i < |w| && !w[i].suppressed
    requires p.Capacity(i) >= p.floor && p.Owlt(i).Some? && p.contacts[i].toTime > time
    ensures p.Ready(i, p.contacts[i].fromNode, time)
  {
  }

  /** What noting contact i's capacity leaves as it was. */
  ghost predicate Noted(p: Problem, w: Notes, w': Notes, hist: seq<int>, i: nat) {
    && |w'| == |w| == |p.contacts| && i < |w| && hist != []
    && w'[i].capacity == p.Capacity(i) && w'[i].suppressed == w[i].suppressed
    && NoLater(w, w') && TimeAt(p, w', hist[|hist| - 1]) == TimeAt(p, w, hist[|hist| - 1])
  }

  lemma CapacityEffect(p: Problem, w: Notes, w': Notes, hist: seq<int>, terminus: nat, final: int, earliest: int, i: nat)
    requires Searching(p, w, hist, terminus, final, earliest) && i < |w| && p.Capacity(i) >= 0
    requires w' == if w[i].capacity == 0 then WithCapacity(p, w, i) else w
    ensures Searching(p, w', hist, terminus, final, earliest) && Noted(p, w, w', hist, i)
  {
    CapacityNoted(p, w, hist, terminus, final, earliest, i);
  }

  lemma ArrivalEffect(p: Problem, w: Notes, w': Notes, hist: seq<int>, terminus: nat, final: int, earliest: int,
                      i: nat, v: int, a: int)
    requires Searching(p, w, hist, terminus, final, earliest) && i < |w| && w[i].capacity == p.Capacity(i)
    requires v == hist[|hist| - 1] && p.Ready(i, NodeOf(p, v), TimeAt(p, w, v))
    requires a == p.Arrival(i, TimeAt(p, w, v)) < w[i].arrivalTime && w' == w[i := w[i].(arrivalTime := a, predecessor := v)]
    ensures var better := p.contacts[i].toNode == terminus && a < earliest;
      Searching(p, w', hist, terminus, if better then i else final, if better then a else earliest)
    ensures NoLater(w, w') && TimeAt(p, w', v) == TimeAt(p, w, v)
  {
    if i in hist {
      VisitedSettled(p, w, hist, i);
      assert false;
    }
    Improved(p, w, hist, terminus, final, earliest, i, a);
    assert w' == WithArrival(w, i, v, a);
  }

  /** A scan from a node's zero key, up to the first contact of a higher node, visits exactly
      the contacts that leave the node. */
  lemma NodeScan(contacts: seq<CXref>, node: nat, i: nat)
    requires ContactsOrdered(contacts) && i < |contacts|
    ensures contacts[i].fromNode == node
            <==> ScanStart(ContactKeys(contacts), Key(node, 0, 0)) <= i && contacts[i].fromNode <= node
  {
    var ks, k := ContactKeys(contacts), Key(node, 0, 0);
    NoZeroKey(contacts, node, 0);
    if i < ScanStart(ks, k) {
      assert Below(ks[i], k) && contacts[i] in contacts;
    } else {
      ContactScanned(contacts, node, i);
    }
  }

  /** A scan from a pair's zero-time key, up to the first range beyond the pair, visits exactly
      the pair's ranges that start after time zero. */
  lemma PairScan(ranges: seq<RXref>, fromNode: nat, toNode: nat, i: nat)
    requires RangesOrdered(ranges) && i < |ranges|
    ensures var n := ScanStart(RangeKeys(ranges), Key(fromNode, toNode, 0));
      (ranges[i].fromNode == fromNode && ranges[i].toNode == toNode && ranges[i].fromTime > 0)
      <==> (n <= i && ranges[i].fromNode <= fromNode && ranges[i].toNode <= toNode)
  {
    var ks, k := RangeKeys(ranges), Key(fromNode, toNode, 0);
    NoZeroRangeKey(ranges, fromNode, toNode);
    AfterPosition(ks, k);
    assert ranges[i] in ranges;
    if i < ScanStart(ks, k) {
      assert Below(ks[i], k);
    } else {
      assert Compare(ks[i], k) >= 0;
    }
  }

  /** The contacts before the scan's start leave other nodes. */
  lemma ContactScanStarts(p: Problem, w: Notes, v: int, n: nat)
    requires ContactsOrdered(p.contacts) && |w| == |p.contacts|
    requires n == ScanStart(ContactKeys(p.contacts), Key(NodeOf(p, v), 0, 0))
    ensures RelaxedBelow(p, w, v, n)
  {
    var ks, k := ContactKeys(p.contacts), Key(NodeOf(p, v), 0, 0);
    NoZeroKey(p.contacts, NodeOf(p, v), 0);
    forall j | 0 <= j < n
      ensures RelaxedAt(p, w, v, j)
    {
      assert Below(ks[j], k) && p.contacts[j] in p.contacts;
    }
  }

  lemma ContactScanned(contacts: seq<CXref>, node: nat, i: nat)
    requires ContactsOrdered(contacts) && ScanStart(ContactKeys(contacts), Key(node, 0, 0)) <= i < |contacts|
    ensures contacts[i].fromNode >= node
  {
    AfterPosition(ContactKeys(contacts), Key(node, 0, 0));
    assert Compare(ContactKeys(contacts)[i], Key(node, 0, 0)) >= 0;
  }

  lemma BeyondNode(contacts: seq<CXref>, n: nat, i: nat)
    requires ContactsOrdered(contacts) && n <= i < |contacts|
    ensures contacts[n].fromNode <= contacts[i].fromNode
  {
    assert n < i ==> Below(ContactKeys(contacts)[n], ContactKeys(contacts)[i]);
  }

  /** From a contact beyond the node's on, all leave other nodes. */
  lemma ContactScanEnds(p: Problem, w: Notes, v: int, n: nat)
    requires ContactsOrdered(p.contacts) && |w| == |p.contacts| && n <= |w|
    requires n < |w| ==> p.contacts[n].fromNode > NodeOf(p, v)
    requires RelaxedBelow(p, w, v, n)
    ensures Relaxed(p, w, v)
  {
    forall i | 0 <= i < |w| && p.Ready(i, NodeOf(p, v), TimeAt(p, w, v))
      ensures w[i].arrivalTime <= p.Arrival(i, TimeAt(p, w, v))
    {
      if i < n {
        assert RelaxedAt(p, w, v, i);
      } else {
        BeyondNode(p.contacts, n, i);
      }
    }
  }

  ghost predicate RelaxedBelow(p: Problem, w: Notes, v: int, n: int) {
    forall i :: 0 <= i < n ==> RelaxedAt(p, w, v, i)
  }

  lemma RelaxedKept(p: Problem, w: Notes, w': Notes, v: int, n: nat)
    requires RelaxedBelow(p, w, v, n) && NoLater(w, w') && TimeAt(p, w', v) == TimeAt(p, w, v) && RelaxedAt(p, w', v, n)
    ensures RelaxedBelow(p, w', v, n + 1)
  {
    forall i | 0 <= i < n
      ensures RelaxedAt(p, w', v, i)
    {
      assert RelaxedAt(p, w, v, i);
    }
  }

  predicate Ineligible(note: ContactNote) {
    note.suppressed || note.visited
  }

  /** The notes are as a search expects them: of earlier searches, only capacities remain. */
  ghost predicate Cleared(contacts: seq<CXref>, w: Notes) {
    CapacitiesNoted(contacts, w) && forall i :: 0 <= i < |w| ==> w[i].arrivalTime == MAX_TIME && !w[i].visited
  }

  ghost predicate CapacitiesNoted(contacts: seq<CXref>, w: Notes) {
    |w| == |contacts| && forall i :: 0 <= i < |w| ==> w[i].capacity == 0 || w[i].capacity == Volume(contacts[i])
  }

  ghost predicate SameSuppressed(w: Notes, w': Notes) {
    |w'| == |w| && forall i :: 0 <= i < |w| ==> w'[i].suppressed == w[i].suppressed
  }

  lemma StartSearching(p: Problem, w: Notes, terminus: nat) returns (hist: seq<int>)
    requires Cleared(p.contacts, w) && p.suppressed == SuppressedIn(w) && p.now <= MAX_TIME
    ensures |hist| == 1 && hist[0] == ROOT && Searching(p, w, hist, terminus, ROOT, MAX_TIME)
  {
    hist := [ROOT];
  }

  lemma FitsKeeps(p: Problem, w: Notes, w': Notes)
    requires |w| == |p.contacts| && p.suppressed == SuppressedIn(w) && Fits(p, w')
    ensures SameSuppressed(w, w') && CapacitiesNoted(p.contacts, w')
  {
    forall i: nat | i < |w|
      ensures w'[i].suppressed == w[i].suppressed
    {
      assert w[i].suppressed <==> i in p.suppressed;
    }
  }

  lemma {:induction false} DistinctBounded(s: seq<int>, n: nat)
    requires NoRepeats(s) && forall k :: 0 <= k < |s| ==> 0 <= s[k] < n
    ensures |s| <= n
  {
    var first := if s == [] then 0 else s[0];
    if n > 0 && n - 1 in s {
      var k :| 0 <= k < |s| && s[k] == n - 1;
      var t := s[..k] + s[k + 1..];
      assert forall l :: 0 <= l < |t| ==> t[l] == s[if l < k then l else l + 1];
      DistinctBounded(t, n - 1);
    } else if n > 0 {
      assert forall k :: 0 <= k < |s| ==> s[k] in s;
      DistinctBounded(s, n - 1);
    }
  }

  lemma HistoryBounded(p: Problem, w: Notes, hist: seq<int>, terminus: nat, final: int, earliest: int)
    requires Searching(p, w, hist, terminus, final, earliest)
    ensures |hist| <= |w| + 1
  {
    forall k | 0 <= k < |hist| - 1
      ensures 0 <= hist[1..][k] < |w|
    {
      assert Settled(p, w, hist[k + 1]);
    }
    DistinctBounded(hist[1..], |w|);
  }

  ghost predicate Selected(w: Notes, bound: int, next: int) {
    if next == ROOT then
      forall i :: 0 <= i < |w| ==> Ineligible(w[i]) || w[i].arrivalTime > Min(bound, MAX_TIME - 1)
    else
      && 0 <= next < |w| && !Ineligible(w[next]) && w[next].arrivalTime <= Min(bound, MAX_TIME - 1)
      && forall i :: 0 <= i < |w| ==> Ineligible(w[i]) || w[next].arrivalTime <= w[i].arrivalTime
  }

  ghost predicate SuppressedLate(w: Notes) {
    forall i :: 0 <= i < |w| && w[i].suppressed ==> w[i].arrivalTime >= MAX_TIME
  }

  lemma ReachedUsable(p: Problem, w: Notes, hist: seq<int>, i: nat)
    requires |w| == |p.contacts| && Reached(p, w, hist) && i < |w|
    ensures w[i].arrivalTime < MAX_TIME ==> p.Usable(i)
  {
    if w[i].arrivalTime < MAX_TIME {
      assert ReachedSomehow(p, w, hist, i);
      var k :| 0 <= k < |hist| && ReachedFrom(p, w, hist, i, k);
    }
  }

  /** Suppressed contacts were not reached, and the visited ones are the history. */
  lemma IneligibleAre(p: Problem, w: Notes, hist: seq<int>, terminus: nat, final: int, earliest: int)
    requires Searching(p, w, hist, terminus, final, earliest)
    ensures var w' := WithVisited(w, hist[|hist| - 1]); SuppressedLate(w') && VisitedAre(w', hist) && SameTimes(w, w')
  {
    var last := hist[|hist| - 1];
    assert last < |w| by {
      assert |hist| > 1 ==> Settled(p, w, hist[|hist| - 1]);
    }
    AdvancedVisited(w, hist);
    forall i | 0 <= i < |w| && w[i].suppressed
      ensures w[i].arrivalTime >= MAX_TIME
    {
      ReachedUsable(p, w, hist, i);
    }
  }

  lemma SelectedNext(w: Notes, w': Notes, hist: seq<int>, bound: int, next: nat)
    requires SuppressedLate(w') && VisitedAre(w', hist) && SameTimes(w, w') && Selected(w', bound, next)
    ensures Next(w, hist, next)
  {
    forall i | 0 <= i < |w| && i !in hist
      ensures w[next].arrivalTime <= w[i].arrivalTime
    {
      assert Ineligible(w'[i]) || w'[next].arrivalTime <= w'[i].arrivalTime;
    }
  }

  lemma NextSelected(p: Problem, w: Notes, hist: seq<int>, terminus: nat, final: int, earliest: int, next: nat)
    requires Searching(p, w, hist, terminus, final, earliest) && Relaxed(p, w, hist[|hist| - 1])
    requires Selected(WithVisited(w, hist[|hist| - 1]), earliest, next)
    ensures Searching(p, WithVisited(w, hist[|hist| - 1]), hist + [next], terminus, final, earliest)
  {
    IneligibleAre(p, w, hist, terminus, final, earliest);
    SelectedNext(w, WithVisited(w, hist[|hist| - 1]), hist, earliest, next);
    Advanced(p, w, hist, terminus, final, earliest, next);
  }

  ghost predicate NoneWithin(w: Notes, hist: seq<int>, bound: int) {
    forall i :: 0 <= i < |w| && i !in hist ==> w[i].arrivalTime >= MAX_TIME || w[i].arrivalTime > bound
  }

  lemma SelectedNone(w: Notes, w': Notes, hist: seq<int>, bound: int)
    requires SuppressedLate(w') && VisitedAre(w', hist) && SameTimes(w, w') && Selected(w', bound, ROOT)
    ensures NoneWithin(w, hist, bound)
  {
    forall i | 0 <= i < |w| && i !in hist
      ensures w[i].arrivalTime >= MAX_TIME || w[i].arrivalTime > bound
    {
      assert Ineligible(w'[i]) || w'[i].arrivalTime > Min(bound, MAX_TIME - 1);
    }
  }

  lemma NoneSelected(p: Problem, w: Notes, hist: seq<int>, terminus: nat, final: int, earliest: int)
    requires Searching(p, w, hist, terminus, final, earliest) && Relaxed(p, w, hist[|hist| - 1])
    requires Selected(WithVisited(w, hist[|hist| - 1]), earliest, ROOT)
    ensures Complete(p, w, hist, terminus, final, earliest)
  {
    IneligibleAre(p, w, hist, terminus, final, earliest);
    SelectedNone(w, WithVisited(w, hist[|hist| - 1]), hist, earliest);
    assert NoneWithin(w, hist, earliest);
  }

  /** After a contact was considered, either the search is complete or another is current. */
  ghost predicate Stepped(p: Problem, w: Notes, w': Notes, hist: seq<int>, hist': seq<int>, terminus: nat, final: int,
                          earliest: int, next: int) {
    if next == ROOT then hist' == hist && Complete(p, w, hist', terminus, final, earliest)
    else Advance(hist, hist', next, |p.contacts|) && Searching(p, w', hist', terminus, final, earliest)
  }

  lemma StepTaken(p: Problem, w: Notes, w': Notes, hist: seq<int>, v: int, terminus: nat, final: int, earliest: int, next: int)
    returns (hist': seq<int>)
    requires Searching(p, w, hist, terminus, final, earliest) && Relaxed(p, w, v) && v == hist[|hist| - 1]
    requires w' == WithVisited(w, v) && Selected(w', earliest, next)
    ensures Stepped(p, w, w', hist, hist', terminus, final, earliest, next)
  {
    if next == ROOT {
      hist' := hist;
      NoneSelected(p, w, hist, terminus, final, earliest);
    } else {
      hist' := hist + [next];
      NextSelected(p, w, hist, terminus, final, earliest, next);
      HistoryBounded(p, w', hist', terminus, final, earliest);
    }
  }

  ghost predicate Advance(hist: seq<int>, hist': seq<int>, next: int, n: nat) {
    0 <= next < n && |hist'| == |hist| + 1 <= n + 1 && hist'[|hist|] == next
  }

  // ---------------------------------------------------------- backtracking

  /** History and reached contacts are as a search leaves them, and c is one of the reached. */
  ghost predicate OnTrace(p: Problem, w: Notes, hist: seq<int>, c: int) {
    |w| == |p.contacts| && History(p, w, hist) && Reached(p, w, hist) && 0 <= c < |w| && w[c].arrivalTime < MAX_TIME
  }

  lemma TraceStep(p: Problem, w: Notes, hist: seq<int>, c: nat)
    requires OnTrace(p, w, hist, c)
    ensures var v := w[c].predecessor;
      && Rank(hist, v) < Rank(hist, c) && (v != ROOT ==> OnTrace(p, w, hist, v))
      && Trace(p, w, hist, c) == if v == ROOT then [c] else Trace(p, w, hist, v) + [c]
    ensures w[c].capacity == Volume(p.contacts[c])
  {
    PredecessorFirst(p, w, hist, c);
  }

  /** The contacts met from c on, going back, are the rest of the trace. */
  ghost predicate Backtracked(p: Problem, w: Notes, hist: seq<int>, path: seq<nat>, c: int, suffix: seq<nat>) {
    if c == ROOT then suffix == path
    else OnTrace(p, w, hist, c) && Trace(p, w, hist, c) + suffix == path
  }

  lemma BacktrackStep(p: Problem, w: Notes, hist: seq<int>, path: seq<nat>, c: nat, suffix: seq<nat>)
    requires Backtracked(p, w, hist, path, c, suffix)
    ensures c < |w| == |p.contacts| && w[c].capacity == Volume(p.contacts[c])
    ensures var v := w[c].predecessor;
      Backtracked(p, w, hist, path, v, [c] + suffix) && Rank(hist, v) < Rank(hist, c)
  {
    TraceStep(p, w, hist, c);
    var v := w[c].predecessor;
    if v != ROOT {
      var q := Trace(p, w, hist, v);
      assert q + ([c] + suffix) == (q + [c]) + suffix;
    }
  }

  /** The hops along a path, when the first of them ends, and the least they can carry. */
  ghost predicate Summed(contacts: seq<CXref>, path: seq<nat>, hops: seq<CXref>, toTime: int, maxCapacity: int) {
    && (forall i :: i in path ==> i < |contacts|) && hops == Along(contacts, path)
    && toTime == EarliestEnd(hops) && maxCapacity == LeastVolume(hops)
  }

  lemma SummedStep(contacts: seq<CXref>, c: nat, path: seq<nat>, hops: seq<CXref>, toTime: int, maxCapacity: int)
    requires Summed(contacts, path, hops, toTime, maxCapacity) && c < |contacts|
    ensures var contact := contacts[c];
      Summed(contacts, [c] + path, [contact] + hops, Min(contact.toTime, toTime), Min(Volume(contact), maxCapacity))
  {
    assert ([contacts[c]] + hops)[1..] == hops;
  }

  ghost predicate SamePredecessors(w: Notes, w': Notes) {
    |w'| == |w| && forall i :: 0 <= i < |w| ==> w'[i].predecessor == w[i].predecessor && w'[i].capacity == w[i].capacity
  }

  /** The route describes the trace of its final contact. */
  ghost predicate Recorded(p: Problem, route: CgrRoute, path: seq<nat>) {
    && path != [] && (forall i :: i in path ==> i < |p.contacts|) && route.hops == Along(p.contacts, path)
    && route.toNodeNbr == route.hops[0].toNode && route.fromTime == route.hops[0].fromTime
    && route.toTime == EarliestEnd(route.hops) && route.maxCapacity == LeastVolume(route.hops)
  }

  lemma RecordedIsBest(p: Problem, w: Notes, hist: seq<int>, terminus: nat, final: int, earliest: int, route: CgrRoute)
    requires Complete(p, w, hist, terminus, final, earliest) && final != ROOT && route.arrivalTime == earliest
    requires OnTrace(p, w, hist, final) ==> Recorded(p, route, Trace(p, w, hist, final))
    ensures BestRoute(p, terminus, route) && PromptRoute(p, terminus, route)
  {
    var path := Trace(p, w, hist, final);
    TraceIsPath(p, w, hist, final);
    TraceIsPrompt(p, w, hist, terminus, final, earliest);
    TraceIsSimple(p, w, hist, final);
    assert Describes(p, route, path) && p.Reaches(path, terminus);
    forall path | p.Reaches(path, terminus)
      ensures route.arrivalTime <= p.EndTime(path)
    {
      Optimal(p, w, hist, terminus, final, earliest, path);
    }
    forall a, b | 0 <= a < b < |route.hops|
      ensures route.hops[a].fromNode != route.hops[b].fromNode
    {
      assert p.contacts[path[a]].fromNode != p.contacts[path[b]].fromNode;
    }
  }

  lemma NoneReaches(p: Problem, w: Notes, hist: seq<int>, terminus: nat, earliest: int)
    requires Complete(p, w, hist, terminus, ROOT, earliest)
    ensures forall path :: !p.Reaches(path, terminus)
  {
    forall path
      ensures !p.Reaches(path, terminus)
    {
      if p.Reaches(path, terminus) {
        Optimal(p, w, hist, terminus, ROOT, earliest, path);
      }
    }
  }

  /** What a search leaves of the notes. */
  lemma SearchLeaves(p: Problem, was: Notes, w: Notes, w': Notes, hist: seq<int>, terminus: nat, final: int, earliest: int)
    requires |was| == |p.contacts| && p.suppressed == SuppressedIn(was) && Complete(p, w, hist, terminus, final, earliest)
    requires w' == WithVisited(w, hist[|hist| - 1])
    ensures SamePredecessors(w, w') && SameSuppressed(was, w') && CapacitiesNoted(p.contacts, w')
    ensures final != ROOT ==> OnTrace(p, w, hist, final)
    ensures final == ROOT ==> forall path :: !p.Reaches(path, terminus)
  {
    FitsKeeps(p, was, w);
    if final == ROOT {
      NoneReaches(p, w, hist, terminus, earliest);
    }
  }

  lemma TraceWellFormed(p: Problem, w: Notes, hist: seq<int>, i: nat)
    requires ContactsOrdered(p.contacts) && OnTrace(p, w, hist, i)
    ensures var path := Trace(p, w, hist, i);
      path != [] && path[0] < |p.contacts| && p.contacts[path[0]].toNode != 0
  {
    TraceIsPath(p, w, hist, i);
    TraceIsSimple(p, w, hist, i);
    assert p.contacts[Trace(p, w, hist, i)[0]] in p.contacts;
  }
}
