/** Paths through the contact graph and the times at which data can follow them. */
module ContactGraph {
  import opened Keys
  import opened ContactPlan

  const MAX_TIME: int := 0x7fff_ffff
  const MAX_SPEED_MPH := 150000

  datatype Option<+T> = None | Some(value: T)

  datatype RXref = RXref(fromNode: nat, toNode: nat, fromTime: int, toTime: int, owlt: nat)

  function RangeKey(r: RXref): Key {
    Key(r.fromNode, r.toNode, r.fromTime)
  }

  predicate Covers(r: RXref, c: CXref) {
    r.fromNode == c.fromNode && r.toNode == c.toNode && r.fromTime <= c.fromTime <= r.toTime
  }

  ghost predicate Serves(r: RXref, c: CXref) {
    Covers(r, c) && r.fromTime >= 0
  }

  /** Extra latency allowed for movement of the receiving node. */
  function Margin(owlt: nat): nat {
    MAX_SPEED_MPH / 3600 * owlt / 186282
  }

  function Max(a: int, b: int): int {
    if a < b then b else a
  }

  function Min(a: int, b: int): int {
    if a < b then a else b
  }

  /** One search: what it may use, where it starts, and when. */
  datatype Problem = Problem(
    contacts: seq<CXref>, ranges: seq<RXref>, suppressed: set<nat>, floor: nat, source: nat, now: int)
  {
    function Capacity(i: nat): int
      requires i < |contacts|
    {
      contacts[i].xmitRate * (contacts[i].toTime - contacts[i].fromTime)
    }

    ghost function Owlt(i: nat): Option<nat>
      requires i < |contacts|
    {
      ApplicableRange(ranges, contacts[i])
    }

    ghost predicate Usable(i: nat) {
      i < |contacts| && i !in suppressed && Capacity(i) >= floor && Owlt(i).Some?
    }

    /** Data at a node at a time can still leave through contact i. */
    ghost predicate Ready(i: nat, node: nat, time: int) {
      Usable(i) && contacts[i].fromNode == node && contacts[i].toTime > time
    }

    /** When data that is ready at a time has arrived through contact i. */
    ghost function Arrival(i: nat, time: int): int
      requires Usable(i)
    {
      Max(contacts[i].fromTime, time) + Owlt(i).value + Margin(Owlt(i).value)
    }

    ghost predicate InGraph(path: seq<nat>) {
      forall i :: i in path ==> Usable(i)
    }

    ghost function EndNode(path: seq<nat>): nat
      requires InGraph(path)
    {
      if path == [] then source
      else
        assert path[|path| - 1] in path;
        contacts[path[|path| - 1]].toNode
    }

    /** When data that leaves the source now has arrived at the end of the path. */
    ghost function EndTime(path: seq<nat>): int
      requires InGraph(path)
    {
      if path == [] then now else Arrival(path[|path| - 1], EndTime(path[..|path| - 1]))
    }

    /** Each contact starts where the one before led to, and ends after the data is there. */
    ghost predicate Feasible(path: seq<nat>) {
      InGraph(path) && (path != [] ==>
        var q, i := path[..|path| - 1], path[|path| - 1];
        Feasible(q) && Ready(i, EndNode(q), EndTime(q)) && EndTime(path) < MAX_TIME)
    }

    ghost predicate Reaches(path: seq<nat>, terminus: nat) {
      path != [] && Feasible(path) && EndNode(path) == terminus
    }
  }

  /** The first range, in key order, that covers the contact's start, if its pair's ranges
      that start at or after time zero include one. */
  ghost function ApplicableRange(ranges: seq<RXref>, c: CXref): Option<nat> {
    if ranges == [] then None
    else if Serves(ranges[0], c) then Some(ranges[0].owlt)
    else ApplicableRange(ranges[1..], c)
  }

  lemma {:induction false} ApplicableRangeFound(ranges: seq<RXref>, c: CXref, n: nat)
    requires n < |ranges| && Serves(ranges[n], c)
    requires forall i :: 0 <= i < n ==> !Serves(ranges[i], c)
    ensures ApplicableRange(ranges, c) == Some(ranges[n].owlt)
  {
    if n > 0 {
      ApplicableRangeFound(ranges[1..], c, n - 1);
    }
  }

  lemma {:induction false} ApplicableRangeNone(ranges: seq<RXref>, c: CXref)
    requires forall i :: 0 <= i < |ranges| ==> !Serves(ranges[i], c)
    ensures ApplicableRange(ranges, c) == None
  {
    if ranges != [] {
      ApplicableRangeNone(ranges[1..], c);
    }
  }

  lemma {:induction false} FirstServing(ranges: seq<RXref>, c: CXref) returns (n: nat)
    ensures n <= |ranges| && forall i :: 0 <= i < n ==> !Serves(ranges[i], c)
    ensures ApplicableRange(ranges, c) == if n < |ranges| then Some(ranges[n].owlt) else None
    ensures n < |ranges| ==> Serves(ranges[n], c)
  {
    n := 0;
    if ranges != [] && !Serves(ranges[0], c) {
      var m := FirstServing(ranges[1..], c);
      n := m + 1;
    }
  }

  /** Leaving earlier never means arriving later. */
  lemma ArrivalMonotone(p: Problem, i: nat, s: int, t: int)
    requires p.Usable(i) && s <= t
    ensures s <= p.Arrival(i, s) <= p.Arrival(i, t)
  {
  }

  /** One more hop. */
  lemma PathExtended(p: Problem, path: seq<nat>, i: nat, longer: seq<nat>)
    requires p.Feasible(path) && p.Ready(i, p.EndNode(path), p.EndTime(path)) && p.Arrival(i, p.EndTime(path)) < MAX_TIME
    requires longer == path + [i]
    ensures p.Reaches(longer, p.contacts[i].toNode) && p.EndTime(longer) == p.Arrival(i, p.EndTime(path))
  {
    assert longer[..|path|] == path && forall j :: j in longer ==> j in path || j == i;
  }

  /** A path that avoids the contacts suppressed in q does not depend on those suppressed in p. */
  lemma {:induction false} OtherSuppressed(p: Problem, q: Problem, path: seq<nat>)
    requires q == p.(suppressed := q.suppressed) && p.Feasible(path) && forall i :: i in path ==> i !in q.suppressed
    ensures q.Feasible(path) && q.EndTime(path) == p.EndTime(path) && q.EndNode(path) == p.EndNode(path)
  {
    if path != [] {
      OtherSuppressed(p, q, path[..|path| - 1]);
    }
  }

  // ---------------------------------------------------------- routes

  const NO_CAPACITY_LIMIT: nat := 0xffff_ffff_ffff_ffff

  /** The least capacity a contact may have to carry a payload class. */
  function MinCapacity(payloadClass: int): nat {
    if payloadClass == 0 then 1024
    else if payloadClass == 1 then 1024 * 1024
    else if payloadClass == 2 then 1024 * 1024 * 1024
    else NO_CAPACITY_LIMIT
  }

  datatype CgrRoute = CgrRoute(
    toNodeNbr: nat, fromTime: int, toTime: int, arrivalTime: int, hops: seq<CXref>, maxCapacity: int, payloadClass: int)

  function Volume(c: CXref): int {
    c.xmitRate * (c.toTime - c.fromTime)
  }

  /** When the first of the hops ends. */
  ghost function EarliestEnd(hops: seq<CXref>): int {
    if hops == [] then MAX_TIME else Min(hops[0].toTime, EarliestEnd(hops[1..]))
  }

  ghost function LeastVolume(hops: seq<CXref>): int {
    if hops == [] then NO_CAPACITY_LIMIT else Min(Volume(hops[0]), LeastVolume(hops[1..]))
  }

  lemma {:induction false} EarliestEndIsLeast(hops: seq<CXref>)
    ensures forall h :: h in hops ==> EarliestEnd(hops) <= h.toTime
    ensures EarliestEnd(hops) == MAX_TIME || exists h :: h in hops && h.toTime == EarliestEnd(hops)
    ensures EarliestEnd(hops) <= MAX_TIME
  {
    if hops != [] {
      EarliestEndIsLeast(hops[1..]);
      assert forall h :: h in hops ==> h == hops[0] || h in hops[1..];
      if EarliestEnd(hops) < hops[0].toTime && EarliestEnd(hops) != MAX_TIME {
        var h :| h in hops[1..] && h.toTime == EarliestEnd(hops[1..]);
        assert h in hops;
      } else {
        assert hops[0] in hops;
      }
    }
  }

  lemma {:induction false} SomeLeastVolume(hops: seq<CXref>) returns (h: CXref)
    requires hops != [] && forall c :: c in hops ==> Volume(c) <= NO_CAPACITY_LIMIT
    ensures h in hops && LeastVolume(hops) == Volume(h)
    ensures forall c :: c in hops ==> Volume(h) <= Volume(c)
  {
    h := hops[0];
    if |hops| > 1 {
      assert forall c :: c in hops <==> c == hops[0] || c in hops[1..];
      var least := SomeLeastVolume(hops[1..]);
      if Volume(least) <= Volume(h) {
        h := least;
      }
    } else {
      assert hops == [hops[0]];
    }
  }

  /** The least volume is that of some hop and above that of none. */
  lemma LeastVolumeIsLeast(hops: seq<CXref>)
    requires hops != [] && forall h :: h in hops ==> h.xmitRate * (h.toTime - h.fromTime) <= 0xffff_ffff_ffff_ffff
    ensures exists h :: h in hops && LeastVolume(hops) == h.xmitRate * (h.toTime - h.fromTime)
    ensures forall h :: h in hops ==> LeastVolume(hops) <= h.xmitRate * (h.toTime - h.fromTime)
  {
    assert forall h :: Volume(h) == h.xmitRate * (h.toTime - h.fromTime);
    var least := SomeLeastVolume(hops);
  }

  /** Every hop has room for so many bytes. */
  ghost predicate AllCarry(hops: seq<CXref>, bytes: nat) {
    forall h :: h in hops ==> h.xmitRate * (h.toTime - h.fromTime) >= bytes
  }

  /** As many bytes as the least volume fit, and no more. */
  lemma {:induction false} PayloadFits(hops: seq<CXref>, payload: nat)
    ensures payload <= LeastVolume(hops) <==> payload <= 0xffff_ffff_ffff_ffff && AllCarry(hops, payload)
  {
    if hops != [] {
      PayloadFits(hops[1..], payload);
      assert forall h :: h in hops <==> h == hops[0] || h in hops[1..];
      assert Volume(hops[0]) == hops[0].xmitRate * (hops[0].toTime - hops[0].fromTime);
    }
  }

  ghost function Along(contacts: seq<CXref>, path: seq<nat>): (hops: seq<CXref>)
    requires forall i :: i in path ==> i < |contacts|
    ensures |hops| == |path|
  {
    seq(|path|, k requires 0 <= k < |path| => assert path[k] in path; contacts[path[k]])
  }

  /** The route describes the path. */
  ghost predicate Describes(p: Problem, route: CgrRoute, path: seq<nat>) {
    && path != [] && p.Feasible(path)
    && route.hops == Along(p.contacts, path)
    && route.toNodeNbr == route.hops[0].toNode && route.fromTime == route.hops[0].fromTime
    && route.arrivalTime == p.EndTime(path)
    && route.toTime == EarliestEnd(route.hops) && route.maxCapacity == LeastVolume(route.hops)
  }

  /** No node is left twice. */
  ghost predicate Simple(hops: seq<CXref>) {
    forall a, b :: 0 <= a < b < |hops| ==> hops[a].fromNode != hops[b].fromNode
  }

  /** The route is a simple one that arrives at the terminus as early as any path does. */
  ghost predicate BestRoute(p: Problem, terminus: nat, route: CgrRoute) {
    && Simple(route.hops)
    && (exists path :: Describes(p, route, path) && p.Reaches(path, terminus))
    && (forall path :: p.Reaches(path, terminus) ==> route.arrivalTime <= p.EndTime(path))
  }

  /** No path to the node that this one leads to arrives there earlier. */
  ghost predicate NoneAhead(p: Problem, path: seq<nat>) {
    p.InGraph(path) && forall other :: p.Reaches(other, p.EndNode(path)) ==> p.EndTime(path) <= p.EndTime(other)
  }

  /** The path gets to every node on its way as early as any path does. */
  ghost predicate Prompt(p: Problem, path: seq<nat>) {
    forall k :: 0 < k <= |path| ==> NoneAhead(p, path[..k])
  }

  /** The route describes such a path: one that is best not only in the end. */
  ghost predicate PromptRoute(p: Problem, terminus: nat, route: CgrRoute) {
    exists path :: Describes(p, route, path) && p.Reaches(path, terminus) && Prompt(p, path)
  }
}
