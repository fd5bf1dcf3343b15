/** When a bundle would arrive if it were sent on a route behind all that is already queued. */
module Eto {
  import opened Keys
  import opened ContactPlan
  import opened ContactGraph
  import opened SearchSteps
  import opened Scalars

  const EPOCH_2000_SEC: int := 946684800

  const ERROR: int := -1

  const NOMINAL_PRIMARY_BLKSIZE: nat := 29

  datatype Bundle = Bundle(
    payloadLength: nat, dictionaryLength: nat, prePayloadLength: nat, postPayloadLength: nat,
    expirationTime: int, cbhe: bool, destination: nat, doesNotFragment: bool)
  {
    function GuessSize(): nat {
      NOMINAL_PRIMARY_BLKSIZE + dictionaryLength + prePayloadLength + payloadLength + postPayloadLength
    }

    function Deadline(): int {
      expirationTime + EPOCH_2000_SEC
    }
  }

  /** The way to a neighbor: its queue's limits, and what is already queued. */
  datatype Outduct = Outduct(blocked: bool, maxPayloadLen: nat, gigs: nat, units: int32) {
    ghost predicate Normal() {
      0 <= units < ONE_GIG
    }

    function Backlog(): int {
      gigs * (ONE_GIG as int) + units as int
    }

    predicate Usable(bundle: Bundle) {
      !blocked && !(bundle.doesNotFragment && maxPayloadLen != 0 && bundle.payloadLength > maxPayloadLen)
    }
  }

  /** Estimated consumption of contact capacity: no frame overhead is counted. */
  function Eccc(bundleSize: nat): nat {
    bundleSize
  }

  // ---------------------------------------------------------- backlog

  /** The bytes that a contact which has not ended can still carry. */
  function Remaining(c: CXref, now: int): (r: int)
    ensures c.toTime >= now && c.toTime >= c.fromTime ==> r >= 0
  {
    (c.toTime - Max(now, c.fromTime)) * c.xmitRate
  }

  function TotalRemaining(cs: seq<CXref>, now: int): int {
    if cs == [] then 0 else TotalRemaining(cs[..|cs| - 1], now) + Remaining(cs[|cs| - 1], now)
  }

  /** What is left of a backlog when the contacts, in turn, have each carried all they can. */
  function Unserved(backlog: int, cs: seq<CXref>, now: int): int {
    if cs == [] then backlog else Max(0, Unserved(backlog, cs[..|cs| - 1], now) - Remaining(cs[|cs| - 1], now))
  }

  ghost predicate Lasting(cs: seq<CXref>, now: int) {
    forall c :: c in cs ==> c.toTime >= now && c.toTime >= c.fromTime
  }

  /** Serving contact by contact leaves what serving with the total capacity does. */
  lemma {:induction false} UnservedIsExcess(backlog: nat, cs: seq<CXref>, now: int)
    requires Lasting(cs, now)
    ensures Unserved(backlog, cs, now) == Max(0, backlog - TotalRemaining(cs, now)) && TotalRemaining(cs, now) >= 0
  {
    if cs != [] {
      assert cs[|cs| - 1] in cs;
      UnservedIsExcess(backlog, cs[..|cs| - 1], now);
    }
  }

  /** What the k'th contact carries of the backlog the contacts before it leave. */
  function Allotment(backlog: int, cs: seq<CXref>, now: int, k: nat): int
    requires k < |cs|
  {
    Min(Remaining(cs[k], now), Unserved(backlog, cs[..k], now))
  }

  function Allotments(backlog: int, cs: seq<CXref>, now: int, n: nat): int
    requires n <= |cs|
  {
    if n == 0 then 0 else Allotments(backlog, cs, now, n - 1) + Allotment(backlog, cs, now, n - 1)
  }

  /** No byte of the backlog is lost or counted twice. */
  lemma {:induction false} BacklogConserved(backlog: nat, cs: seq<CXref>, now: int, n: nat)
    requires n <= |cs| && Lasting(cs, now)
    ensures Allotments(backlog, cs, now, n) + Unserved(backlog, cs[..n], now) == backlog
  {
    if n > 0 {
      BacklogConserved(backlog, cs, now, n - 1);
      assert cs[..n][..n - 1] == cs[..n - 1];
      assert cs[n - 1] in cs;
    } else {
      assert cs[..0] == [];
    }
  }

  /** A larger backlog leaves more. */
  lemma {:induction false} UnservedMonotone(backlog: int, more: int, cs: seq<CXref>, now: int)
    requires backlog <= more
    ensures Unserved(backlog, cs, now) <= Unserved(more, cs, now)
  {
    if cs != [] {
      UnservedMonotone(backlog, more, cs[..|cs| - 1], now);
    }
  }

  // ---------------------------------------------------------- delivery

  /** Seconds it takes to transmit; dividing by zero leaves a scalar as it is. */
  function Radiation(bytes: nat, rate: nat): nat {
    if rate == 0 then bytes else bytes / rate
  }

  lemma {:induction false} Multiplied(x: int, y: int, d: nat)
    requires x < y
    ensures x * d + d <= y * d
    decreases y - x
  {
    assert (y - 1) * d + d == y * d;
    if x < y - 1 {
      Multiplied(x, y - 1, d);
    }
  }

  lemma RadiationMonotone(a: nat, b: nat, rate: nat)
    requires a <= b
    ensures Radiation(a, rate) <= Radiation(b, rate)
  {
    if rate > 0 {
      var x, y := a / rate, b / rate;
      assert a == x * rate + a % rate && b == y * rate + b % rate;
      if y < x {
        Multiplied(y, x, rate);
      }
    }
  }

  /** When transmission of the bundle on a hop is complete. */
  function Completion(ready: int, hop: CXref, eccc: nat): int {
    Max(ready, hop.fromTime) + Radiation(eccc, hop.xmitRate)
  }

  /** When data whose transmission on a hop is complete has arrived, if it can arrive. */
  ghost function Across(ranges: seq<RXref>, hop: CXref, transmitTime: int): Option<int> {
    var owlt := ApplicableRange(ranges, hop);
    if transmitTime >= hop.toTime || owlt == None then None else Some(transmitTime + owlt.value)
  }

  /** When the bundle arrives, if transmission on the first hop is complete at a given time. */
  ghost function Delivery(ranges: seq<RXref>, hops: seq<CXref>, transmitTime: int, eccc: nat): Option<int>
    requires hops != []
  {
    var arrival := Across(ranges, hops[0], transmitTime);
    if arrival == None || |hops| == 1 then arrival
    else Delivery(ranges, hops[1..], Completion(arrival.value, hops[1], eccc), eccc)
  }

  /** A hop of a schedule is complete before its contact ends, and starts when the one before
      has delivered and the contact has begun. */
  ghost predicate OnTime(ranges: seq<RXref>, hops: seq<CXref>, eccc: nat, times: seq<int>, k: nat)
    requires |times| == |hops| && k < |hops|
  {
    && Across(ranges, hops[k], times[k]).Some?
    && (k > 0 ==> Across(ranges, hops[k - 1], times[k - 1]).Some?
                  && times[k] == Completion(Across(ranges, hops[k - 1], times[k - 1]).value, hops[k], eccc))
  }

  /** The times at which transmission is complete, hop by hop. */
  ghost predicate Schedule(ranges: seq<RXref>, hops: seq<CXref>, start: int, eccc: nat, times: seq<int>) {
    && |times| == |hops| != 0 && times[0] == start
    && forall k :: 0 <= k < |hops| ==> OnTime(ranges, hops, eccc, times, k)
  }

  ghost function ArrivalOf(ranges: seq<RXref>, hops: seq<CXref>, times: seq<int>): Option<int>
    requires |times| == |hops| != 0
  {
    Across(ranges, hops[|hops| - 1], times[|times| - 1])
  }

  /** A delivery follows a schedule. */
  lemma {:induction false} DeliveryScheduled(ranges: seq<RXref>, hops: seq<CXref>, start: int, eccc: nat) returns (times: seq<int>)
    requires hops != [] && Delivery(ranges, hops, start, eccc).Some?
    ensures Schedule(ranges, hops, start, eccc, times)
    ensures Delivery(ranges, hops, start, eccc) == ArrivalOf(ranges, hops, times)
  {
    if |hops| == 1 {
      times := [start];
    } else {
      var next := Completion(Across(ranges, hops[0], start).value, hops[1], eccc);
      var rest := DeliveryScheduled(ranges, hops[1..], next, eccc);
      times := [start] + rest;
      forall k | 0 <= k < |hops|
        ensures OnTime(ranges, hops, eccc, times, k)
      {
        if k > 0 {
          assert OnTime(ranges, hops[1..], eccc, rest, k - 1);
        }
      }
    }
  }

  /** A schedule leads to delivery. */
  lemma {:induction false} ScheduleDelivers(ranges: seq<RXref>, hops: seq<CXref>, start: int, eccc: nat, times: seq<int>)
    requires Schedule(ranges, hops, start, eccc, times)
    ensures Delivery(ranges, hops, start, eccc) == ArrivalOf(ranges, hops, times)
  {
    assert OnTime(ranges, hops, eccc, times, 0);
    if |hops| > 1 {
      assert OnTime(ranges, hops, eccc, times, 1);
      forall k | 0 <= k < |hops| - 1
        ensures OnTime(ranges, hops[1..], eccc, times[1..], k)
      {
        assert OnTime(ranges, hops, eccc, times, k + 1);
      }
      ScheduleDelivers(ranges, hops[1..], times[1], eccc, times[1..]);
    }
  }

  /** Starting later, or with a larger bundle, means arriving later or not at all. */
  lemma {:induction false} DeliveryMonotone(ranges: seq<RXref>, hops: seq<CXref>, s: int, t: int, eccc: nat, more: nat)
    requires hops != [] && s <= t && eccc <= more
    ensures var early, late := Delivery(ranges, hops, s, eccc), Delivery(ranges, hops, t, more);
      late == None || (early.Some? && early.value <= late.value)
  {
    var a, b := Across(ranges, hops[0], s), Across(ranges, hops[0], t);
    if |hops| > 1 && b.Some? {
      RadiationMonotone(eccc, more, hops[1].xmitRate);
      DeliveryMonotone(ranges, hops[1..], Completion(a.value, hops[1], eccc), Completion(b.value, hops[1], more), eccc, more);
    }
  }

  /** When a bundle would arrive by a route after the bytes with a prior claim on its first
      contact, or zero: it cannot arrive, or not in time. */
  ghost function Projected(ranges: seq<RXref>, hops: seq<CXref>, fromTime: int, now: int, deadline: int, prior: nat, eccc: nat): int
    requires hops != []
  {
    match Delivery(ranges, hops, Max(now, fromTime) + Radiation(prior + eccc, hops[0].xmitRate), eccc)
    case None => 0
    case Some(arrival) => if arrival > deadline then 0 else arrival
  }

  /** A schedule by which the bundle arrives at a given time, and by the deadline. */
  ghost predicate Delivers(ranges: seq<RXref>, hops: seq<CXref>, start: int, deadline: int, eccc: nat, times: seq<int>, arrival: int) {
    Schedule(ranges, hops, start, eccc, times) && ArrivalOf(ranges, hops, times) == Some(arrival) && arrival <= deadline
  }

  /** A bundle is projected to arrive exactly if there is a schedule that keeps within every
      contact and the deadline; then it arrives as any such schedule says. */
  lemma ProjectedBySchedule(ranges: seq<RXref>, hops: seq<CXref>, fromTime: int, now: int, deadline: int, prior: nat, eccc: nat)
    requires hops != []
    ensures var start := Max(now, fromTime) + Radiation(prior + eccc, hops[0].xmitRate);
      var r := Projected(ranges, hops, fromTime, now, deadline, prior, eccc);
      && (r != 0 <==> exists times, arrival :: Delivers(ranges, hops, start, deadline, eccc, times, arrival) && arrival != 0)
      && forall times, arrival :: Delivers(ranges, hops, start, deadline, eccc, times, arrival) ==> r == arrival
  {
    var start := Max(now, fromTime) + Radiation(prior + eccc, hops[0].xmitRate);
    var r := Projected(ranges, hops, fromTime, now, deadline, prior, eccc);
    if r != 0 {
      var times := DeliveryScheduled(ranges, hops, start, eccc);
      assert Delivers(ranges, hops, start, deadline, eccc, times, r);
    }
    forall times, arrival | Delivers(ranges, hops, start, deadline, eccc, times, arrival)
      ensures r == arrival
    {
      ScheduleDelivers(ranges, hops, start, eccc, times);
    }
  }

  /** A later projection, if it is one at all, is no sooner than an earlier one, which is one as
      well; a projection for time zero itself cannot be told from none. */
  predicate NotSooner(early: int, late: int, start: int) {
    late != 0 ==> early <= late && (start > 0 ==> early > 0)
  }

  /** More backlog or a larger bundle can only delay the arrival, or prevent it. */
  lemma ProjectedMonotone(ranges: seq<RXref>, hops: seq<CXref>, fromTime: int, now: int, deadline: int,
                          prior: nat, more: nat, eccc: nat, larger: nat)
    requires hops != [] && prior <= more && eccc <= larger
    ensures var early, late := Projected(ranges, hops, fromTime, now, deadline, prior, eccc),
                               Projected(ranges, hops, fromTime, now, deadline, more, larger);
      NotSooner(early, late, Max(now, fromTime))
  {
    RadiationMonotone(prior + eccc, more + larger, hops[0].xmitRate);
    var s := Max(now, fromTime) + Radiation(prior + eccc, hops[0].xmitRate);
    DeliveryMonotone(ranges, hops, s, Max(now, fromTime) + Radiation(more + larger, hops[0].xmitRate), eccc, larger);
    DeliveryLater(ranges, hops, s, eccc);
  }

  lemma {:induction false} DeliveryLater(ranges: seq<RXref>, hops: seq<CXref>, start: int, eccc: nat)
    requires hops != []
    ensures var d := Delivery(ranges, hops, start, eccc); d.Some? ==> d.value >= start
  {
    var arrival := Across(ranges, hops[0], start);
    if arrival.Some? && |hops| > 1 {
      DeliveryLater(ranges, hops[1..], Completion(arrival.value, hops[1], eccc), eccc);
    }
  }

  // ---------------------------------------------------------- the contacts ahead of a route

  /** Times and rates fit the machine's signed integers. */
  predicate Fits32(c: CXref) {
    c.toTime <= MAX_TIME && c.xmitRate <= MAX_TIME
  }

  predicate AllFit(cs: seq<CXref>) {
    forall c :: c in cs ==> Fits32(c)
  }

  lemma FitsAt(cs: seq<CXref>, i: nat)
    requires AllFit(cs) && i < |cs|
    ensures Fits32(cs[i])
  {
    assert cs[i] in cs;
  }

  lemma RemainingFits(c: CXref, now: int)
    requires Fits32(c) && 0 <= now <= c.toTime && c.fromTime < c.toTime
    ensures 0 <= c.toTime - Max(now, c.fromTime) <= MAX_TIME && Remaining(c, now) >= 0
    ensures Remaining(c, now) == c.xmitRate * (c.toTime - (if now > c.fromTime then now else c.fromTime))
  {
  }

  /** A contact with the route's neighbor, not over yet, that begins before the route does. */
  predicate Precedes(c: CXref, own: nat, toNode: nat, fromTime: int, now: int) {
    c.fromNode == own && c.toNode == toNode && 0 < c.fromTime < fromTime && c.toTime >= now
  }

  function Earlier(contacts: seq<CXref>, own: nat, toNode: nat, fromTime: int, now: int): (cs: seq<CXref>)
    ensures forall c :: c in cs ==> c in contacts && Precedes(c, own, toNode, fromTime, now)
  {
    if contacts == [] then []
    else
      var last := contacts[|contacts| - 1];
      Earlier(contacts[..|contacts| - 1], own, toNode, fromTime, now)
      + if Precedes(last, own, toNode, fromTime, now) then [last] else []
  }

  /** The route's initial contact, as long as it is not over. */
  predicate Initial(c: CXref, own: nat, toNode: nat, fromTime: int, now: int) {
    c.fromNode == own && c.toNode == toNode && c.fromTime == fromTime > 0 && c.toTime >= now
  }

  /** A contact that a scan meets only when it has passed the route's initial contact. */
  predicate Beyond(c: CXref, own: nat, toNode: nat, fromTime: int) {
    || c.fromNode > own || (c.fromNode == own && c.toNode > toNode)
    || (c.fromNode == own && c.toNode == toNode && c.fromTime > Max(fromTime, 0))
  }

  /** The scan of the contacts with a neighbor gives up on the route if it passes where the
      initial contact should be; at the end of the index there is nothing to pass. */
  ghost predicate Accepted(contacts: seq<CXref>, own: nat, toNode: nat, fromTime: int, now: int) {
    || (exists c :: c in contacts && Initial(c, own, toNode, fromTime, now))
    || (forall c :: c in contacts ==> !Beyond(c, own, toNode, fromTime))
  }

  /** A route whose initial contact has left the index is rejected, except when no contact
      comes after where it was. */
  lemma GoneInitialContact(own: nat, toNode: nat, fromTime: int, now: int)
    ensures Accepted([], own, toNode, fromTime, now)
    ensures forall c: CXref :: Beyond(c, own, toNode, fromTime) && c.fromNode != own ==> !Accepted([c], own, toNode, fromTime, now)
  {
    forall c: CXref | Beyond(c, own, toNode, fromTime) && c.fromNode != own
      ensures !Accepted([c], own, toNode, fromTime, now)
    {
      assert c in [c];
    }
  }

  lemma {:induction false} NoneEarlier(contacts: seq<CXref>, n: nat, own: nat, toNode: nat, fromTime: int, now: int)
    requires n <= |contacts| && forall i :: n <= i < |contacts| ==> !Precedes(contacts[i], own, toNode, fromTime, now)
    ensures Earlier(contacts, own, toNode, fromTime, now) == Earlier(contacts[..n], own, toNode, fromTime, now)
  {
    if n < |contacts| {
      NoneEarlier(contacts[..|contacts| - 1], n, own, toNode, fromTime, now);
      assert contacts[..|contacts| - 1][..n] == contacts[..n];
    } else {
      assert contacts[..n] == contacts;
    }
  }

  /** The scan for a neighbor begins with its first contact after time zero. */
  lemma ScanBegins(contacts: seq<CXref>, own: nat, toNode: nat, fromTime: int, now: int)
    requires ContactsOrdered(contacts)
    ensures var n := ScanStart(ContactKeys(contacts), Key(own, toNode, 0));
      && Earlier(contacts[..n], own, toNode, fromTime, now) == []
      && forall i :: 0 <= i < n ==> !Initial(contacts[i], own, toNode, fromTime, now) && !Beyond(contacts[i], own, toNode, fromTime)
  {
    var ks, k := ContactKeys(contacts), Key(own, toNode, 0);
    var n := ScanStart(ks, k);
    NoZeroKey(contacts, own, toNode);
    forall i | 0 <= i < n
      ensures !Precedes(contacts[i], own, toNode, fromTime, now) && !Initial(contacts[i], own, toNode, fromTime, now)
           && !Beyond(contacts[i], own, toNode, fromTime)
    {
      assert Below(ks[i], k);
    }
    NoneEarlier(contacts[..n], 0, own, toNode, fromTime, now);
  }

  /** What the scan meets before it passes the initial contact. */
  lemma ScanMeets(contacts: seq<CXref>, i: nat, own: nat, toNode: nat)
    requires ContactsOrdered(contacts) && ScanStart(ContactKeys(contacts), Key(own, toNode, 0)) <= i < |contacts|
    requires contacts[i].fromNode <= own && contacts[i].toNode <= toNode
    ensures contacts[i].fromNode == own && contacts[i].toNode == toNode && contacts[i].fromTime > 0
    ensures contacts[i].fromTime < contacts[i].toTime
  {
    AfterPosition(ContactKeys(contacts), Key(own, toNode, 0));
    assert Compare(ContactKeys(contacts)[i], Key(own, toNode, 0)) >= 0;
    assert contacts[i] in contacts;
  }

  /** How the scan stands before the i'th contact. */
  ghost predicate Scanning(contacts: seq<CXref>, i: int, own: nat, toNode: nat, fromTime: int, now: int, backlog: int, prior: int) {
    && 0 <= i <= |contacts| && ScanStart(ContactKeys(contacts), Key(own, toNode, 0)) <= i
    && prior == Unserved(backlog, Earlier(contacts[..i], own, toNode, fromTime, now), now) >= 0
    && forall j :: 0 <= j < i ==> !Initial(contacts[j], own, toNode, fromTime, now) && !Beyond(contacts[j], own, toNode, fromTime)
  }

  lemma ScanReady(contacts: seq<CXref>, own: nat, toNode: nat, fromTime: int, now: int, backlog: nat)
    requires ContactsOrdered(contacts)
    ensures Scanning(contacts, ScanStart(ContactKeys(contacts), Key(own, toNode, 0)), own, toNode, fromTime, now, backlog, backlog)
  {
    ScanBegins(contacts, own, toNode, fromTime, now);
  }

  lemma EarlierStep(contacts: seq<CXref>, i: nat, own: nat, toNode: nat, fromTime: int, now: int)
    requires i < |contacts|
    ensures var cs := Earlier(contacts[..i], own, toNode, fromTime, now);
      Earlier(contacts[..i + 1], own, toNode, fromTime, now)
      == if Precedes(contacts[i], own, toNode, fromTime, now) then cs + [contacts[i]] else cs
  {
    var cs := contacts[..i + 1];
    assert cs[..|cs| - 1] == contacts[..i] && cs[|cs| - 1] == contacts[i];
  }

  lemma UnservedStep(backlog: int, cs: seq<CXref>, c: CXref, now: int)
    ensures Unserved(backlog, cs + [c], now) == Max(0, Unserved(backlog, cs, now) - Remaining(c, now))
  {
    assert (cs + [c])[..|cs + [c]| - 1] == cs;
  }

  lemma ScanSkips(contacts: seq<CXref>, i: nat, own: nat, toNode: nat, fromTime: int, now: int, backlog: int, prior: int)
    requires Scanning(contacts, i, own, toNode, fromTime, now, backlog, prior) && i < |contacts|
    requires contacts[i].fromNode == own && contacts[i].toNode == toNode && contacts[i].fromTime <= fromTime && contacts[i].toTime < now
    requires contacts[i].fromTime > 0
    ensures Scanning(contacts, i + 1, own, toNode, fromTime, now, backlog, prior)
  {
    EarlierStep(contacts, i, own, toNode, fromTime, now);
  }

  lemma ScanServes(contacts: seq<CXref>, i: nat, own: nat, toNode: nat, fromTime: int, now: int, backlog: int, prior: int)
    requires Scanning(contacts, i, own, toNode, fromTime, now, backlog, prior) && i < |contacts|
    requires Precedes(contacts[i], own, toNode, fromTime, now)
    ensures Scanning(contacts, i + 1, own, toNode, fromTime, now, backlog, Max(0, prior - Remaining(contacts[i], now)))
  {
    EarlierStep(contacts, i, own, toNode, fromTime, now);
    UnservedStep(backlog, Earlier(contacts[..i], own, toNode, fromTime, now), contacts[i], now);
  }

  /** What the scan has found out when it ends. */
  ghost predicate Allotted(contacts: seq<CXref>, own: nat, toNode: nat, fromTime: int, now: int, backlog: int,
                           prior: int, capacity: int, allotment: int, left: int) {
    && prior == Unserved(backlog, Earlier(contacts, own, toNode, fromTime, now), now)
    && (forall c :: c in contacts && Initial(c, own, toNode, fromTime, now) ==>
          capacity == Remaining(c, now) && allotment == Min(capacity, prior) && left == Max(0, prior - capacity))
    && ((forall c :: c in contacts ==> !Initial(c, own, toNode, fromTime, now)) ==> left == prior)
  }

  lemma ScanStops(contacts: seq<CXref>, i: nat, own: nat, toNode: nat, fromTime: int, now: int, backlog: int,
                  prior: int, capacity: int, allotment: int, left: int)
    requires ContactsOrdered(contacts) && Scanning(contacts, i, own, toNode, fromTime, now, backlog, prior) && i < |contacts|
    requires Initial(contacts[i], own, toNode, fromTime, now)
    requires capacity == Remaining(contacts[i], now) && allotment == Min(capacity, prior) && left == Max(0, prior - capacity)
    ensures Accepted(contacts, own, toNode, fromTime, now)
    ensures Allotted(contacts, own, toNode, fromTime, now, backlog, prior, capacity, allotment, left)
  {
    ScanPasses(contacts, i, own, toNode, fromTime, now);
    assert contacts[i] in contacts;
    forall c | c in contacts && Initial(c, own, toNode, fromTime, now)
      ensures c == contacts[i]
    {
      var j :| 0 <= j < |contacts| && contacts[j] == c;
      assert i < j ==> Below(ContactKeys(contacts)[i], ContactKeys(contacts)[j]);
    }
  }

  datatype Verdict = Going | Found | Passed

  /** How the scan stands after the i'th contact. */
  ghost predicate Scanned(contacts: seq<CXref>, i: int, own: nat, toNode: nat, fromTime: int, now: int, backlog: int,
                          verdict: Verdict, prior: int, capacity: int, allotment: int, left: int) {
    match verdict
    case Going => Scanning(contacts, i + 1, own, toNode, fromTime, now, backlog, prior) && prior == left
    case Found =>
      && Accepted(contacts, own, toNode, fromTime, now)
      && Allotted(contacts, own, toNode, fromTime, now, backlog, prior, capacity, allotment, left)
    case Passed => !Accepted(contacts, own, toNode, fromTime, now)
  }

  /** The outcome of the scan. */
  ghost predicate Claimed(contacts: seq<CXref>, own: nat, toNode: nat, fromTime: int, now: int, backlog: int,
                          accepted: bool, prior: int, capacity: int, allotment: int, left: int) {
    && accepted == Accepted(contacts, own, toNode, fromTime, now)
    && (accepted ==> Allotted(contacts, own, toNode, fromTime, now, backlog, prior, capacity, allotment, left))
  }

  lemma ScanRejects(contacts: seq<CXref>, i: nat, own: nat, toNode: nat, fromTime: int, now: int, backlog: int, prior: int)
    requires ContactsOrdered(contacts) && Scanning(contacts, i, own, toNode, fromTime, now, backlog, prior) && i < |contacts|
    requires contacts[i].fromNode > own || contacts[i].toNode > toNode || contacts[i].fromTime > fromTime
    ensures !Accepted(contacts, own, toNode, fromTime, now)
  {
    ScanPasses(contacts, i, own, toNode, fromTime, now);
    assert contacts[i] in contacts;
  }

  lemma ScanRunsOut(contacts: seq<CXref>, own: nat, toNode: nat, fromTime: int, now: int, backlog: int,
                    prior: int, capacity: int, allotment: int)
    requires Scanning(contacts, |contacts|, own, toNode, fromTime, now, backlog, prior)
    ensures Accepted(contacts, own, toNode, fromTime, now)
    ensures Allotted(contacts, own, toNode, fromTime, now, backlog, prior, capacity, allotment, prior)
  {
    assert contacts[..|contacts|] == contacts;
  }

  /** From the initial contact, or a contact beyond it, on, none precedes it. */
  lemma ScanPasses(contacts: seq<CXref>, i: nat, own: nat, toNode: nat, fromTime: int, now: int)
    requires ContactsOrdered(contacts) && ScanStart(ContactKeys(contacts), Key(own, toNode, 0)) <= i < |contacts|
    requires contacts[i].fromNode > own || contacts[i].toNode > toNode || contacts[i].fromTime >= fromTime
    ensures Earlier(contacts, own, toNode, fromTime, now) == Earlier(contacts[..i], own, toNode, fromTime, now)
    ensures contacts[i].fromNode > own || contacts[i].toNode > toNode || contacts[i].fromTime > fromTime ==>
      Beyond(contacts[i], own, toNode, fromTime)
      && forall j :: i <= j < |contacts| ==> !Initial(contacts[j], own, toNode, fromTime, now)
  {
    AfterPosition(ContactKeys(contacts), Key(own, toNode, 0));
    assert Compare(ContactKeys(contacts)[i], Key(own, toNode, 0)) >= 0 && contacts[i] in contacts;
    forall j | i <= j < |contacts|
      ensures !Precedes(contacts[j], own, toNode, fromTime, now)
    {
      assert i < j ==> Below(ContactKeys(contacts)[i], ContactKeys(contacts)[j]);
    }
    NoneEarlier(contacts, i, own, toNode, fromTime, now);
    if contacts[i].fromNode > own || contacts[i].toNode > toNode || contacts[i].fromTime > fromTime {
      forall j | i <= j < |contacts|
        ensures !Initial(contacts[j], own, toNode, fromTime, now)
      {
        assert i < j ==> Below(ContactKeys(contacts)[i], ContactKeys(contacts)[j]);
      }
    }
  }

  lemma InitialShare(contacts: seq<CXref>, own: nat, toNode: nat, fromTime: int, now: int, backlog: int,
                     prior: int, capacity: int, allotment: int, left: int, c: CXref)
    requires Allotted(contacts, own, toNode, fromTime, now, backlog, prior, capacity, allotment, left)
    requires c in contacts && Initial(c, own, toNode, fromTime, now)
    ensures prior == Unserved(backlog, Earlier(contacts, own, toNode, fromTime, now), now) && allotment + left == prior
  {
  }

  lemma EarlierLasting(contacts: seq<CXref>, own: nat, toNode: nat, fromTime: int, now: int)
    requires ContactsOrdered(contacts)
    ensures Lasting(Earlier(contacts, own, toNode, fromTime, now), now)
  {
  }

  lemma ServedAndLeft(backlog: nat, cs: seq<CXref>, now: int)
    requires Lasting(cs, now)
    ensures Unserved(backlog, cs, now) == Max(0, backlog - TotalRemaining(cs, now))
    ensures Allotments(backlog, cs, now, |cs|) + Unserved(backlog, cs, now) == backlog
  {
    UnservedIsExcess(backlog, cs, now);
    BacklogConserved(backlog, cs, now, |cs|);
    assert cs[..|cs|] == cs;
  }

  /** The allotments to all the contacts scanned, and what is left, make up the backlog. */
  lemma AllotmentsCoverBacklog(contacts: seq<CXref>, own: nat, toNode: nat, fromTime: int, now: int, backlog: nat,
                               prior: int, capacity: int, allotment: int, left: int, c: CXref)
    requires Allotted(contacts, own, toNode, fromTime, now, backlog, prior, capacity, allotment, left)
    requires ContactsOrdered(contacts) && c in contacts && Initial(c, own, toNode, fromTime, now)
    ensures var cs := Earlier(contacts, own, toNode, fromTime, now);
      && prior == Max(0, backlog - TotalRemaining(cs, now)) && allotment + left == prior
      && Allotments(backlog, cs, now, |cs|) + allotment + left == backlog
  {
    InitialShare(contacts, own, toNode, fromTime, now, backlog, prior, capacity, allotment, left, c);
    EarlierLasting(contacts, own, toNode, fromTime, now);
    ServedAndLeft(backlog, Earlier(contacts, own, toNode, fromTime, now), now);
  }

  /** The bytes to be sent before a bundle on the initial contact of a route. */
  function PriorClaims(contacts: seq<CXref>, own: nat, route: CgrRoute, now: int, backlog: int): int {
    Unserved(backlog, Earlier(contacts, own, route.toNodeNbr, route.fromTime, now), now)
  }

  lemma ClaimsPositive(contacts: seq<CXref>, own: nat, route: CgrRoute, now: int, backlog: nat)
    ensures PriorClaims(contacts, own, route, now, backlog) >= 0
  {
  }

  /** The earliest transmission opportunity: when the bundle is off the local node. */
  function Opportunity(contacts: seq<CXref>, own: nat, route: CgrRoute, bundle: Bundle, now: int, backlog: int): int
    requires route.hops != []
  {
    Max(now, route.fromTime)
    + Radiation(Max(0, PriorClaims(contacts, own, route, now, backlog)) + Eccc(bundle.GuessSize()), route.hops[0].xmitRate)
  }

  ghost function ProjectedFor(contacts: seq<CXref>, ranges: seq<RXref>, own: nat, route: CgrRoute, bundle: Bundle, now: int,
                              backlog: int): int
    requires route.hops != []
  {
    Projected(ranges, route.hops, route.fromTime, now, bundle.Deadline(),
              Max(0, PriorClaims(contacts, own, route, now, backlog)), Eccc(bundle.GuessSize()))
  }

  /** Of the backlog and the bundle, what exceeds the initial contact, and what is left for later ones. */
  ghost predicate Booked(c: CXref, now: int, prior: int, eccc: nat, overbooked: int, protected: int) {
    var capacity := Remaining(c, now);
    overbooked == Max(0, Min(capacity, prior) + eccc - capacity) && protected == Max(0, prior - capacity)
  }

  /** What a route's estimate says: whether and when a bundle would arrive, and how the backlog
      and the bundle share the initial contact. */
  ghost predicate Estimated(contacts: seq<CXref>, ranges: seq<RXref>, own: nat, route: CgrRoute, bundle: Bundle, now: int,
                            backlog: int, arrivalTime: int, eto: int, overbooked: int, protected: int)
    requires route.hops != []
  {
    && (Accepted(contacts, own, route.toNodeNbr, route.fromTime, now) ==>
          eto == Opportunity(contacts, own, route, bundle, now, backlog))
    && arrivalTime == (if Accepted(contacts, own, route.toNodeNbr, route.fromTime, now)
                       then ProjectedFor(contacts, ranges, own, route, bundle, now, backlog) else 0)
    && forall c :: c in contacts && Initial(c, own, route.toNodeNbr, route.fromTime, now) ==>
         Booked(c, now, PriorClaims(contacts, own, route, now, backlog), Eccc(bundle.GuessSize()), overbooked, protected)
  }

  /** What comes of asking for an estimate: none can be made if the initial contact has rate zero. */
  ghost predicate EstimateTried(contacts: seq<CXref>, ranges: seq<RXref>, own: nat, route: CgrRoute, bundle: Bundle, now: int,
                                backlog: int, arrivalTime: int, eto: int, overbooked: int, protected: int)
    requires route.hops != []
  {
    if route.hops[0].xmitRate == 0 && Accepted(contacts, own, route.toNodeNbr, route.fromTime, now) then arrivalTime == ERROR
    else Estimated(contacts, ranges, own, route, bundle, now, backlog, arrivalTime, eto, overbooked, protected)
  }

  lemma EstimateMade(contacts: seq<CXref>, ranges: seq<RXref>, own: nat, route: CgrRoute, bundle: Bundle, now: int,
                     backlog: int, prior: nat, capacity: int, allotment: int, overbooked: int, protected: int, arrivalTime: int,
                     eto: int)
    requires route.hops != []
    requires eto == Max(now, route.fromTime) + Radiation(prior + Eccc(bundle.GuessSize()), route.hops[0].xmitRate)
    requires Claimed(contacts, own, route.toNodeNbr, route.fromTime, now, backlog, true, prior, capacity, allotment, protected)
    requires overbooked == Max(0, allotment + Eccc(bundle.GuessSize()) - capacity)
    requires arrivalTime == Projected(ranges, route.hops, route.fromTime, now, bundle.Deadline(), prior, Eccc(bundle.GuessSize()))
    ensures Estimated(contacts, ranges, own, route, bundle, now, backlog, arrivalTime, eto, overbooked, protected)
  {
  }

  lemma EstimateRefused(contacts: seq<CXref>, ranges: seq<RXref>, own: nat, route: CgrRoute, bundle: Bundle, now: int,
                        backlog: int, prior: int, capacity: int, allotment: int, overbooked: int, protected: int, left: int)
    requires route.hops != []
    requires Claimed(contacts, own, route.toNodeNbr, route.fromTime, now, backlog, false, prior, capacity, allotment, left)
    ensures Estimated(contacts, ranges, own, route, bundle, now, backlog, 0, 0, overbooked, protected)
  {
  }

  // ---------------------------------------------------------- the search's arrival time as a bound

  /** The allowances for movement made on the first n hops when the route was computed. */
  ghost function Margins(ranges: seq<RXref>, hops: seq<CXref>, n: nat): (m: int)
    requires n <= |hops|
    ensures m >= 0
  {
    if n == 0 then 0
    else
      var owlt := ApplicableRange(ranges, hops[n - 1]);
      Margins(ranges, hops, n - 1) + if owlt == None then 0 else Margin(owlt.value)
  }

  lemma PrefixInGraph(p: Problem, path: seq<nat>, n: nat)
    requires p.InGraph(path) && n <= |path|
    ensures p.InGraph(path[..n])
  {
  }

  lemma {:induction false} HopNotBefore(p: Problem, path: seq<nat>, hops: seq<CXref>, start: int, eccc: nat, times: seq<int>, k: nat)
    requires p.InGraph(path) && hops == Along(p.contacts, path) && k < |hops|
    requires Schedule(p.ranges, hops, start, eccc, times) && start >= Max(p.now, hops[0].fromTime)
    ensures p.InGraph(path[..k + 1])
    ensures var arrival := Across(p.ranges, hops[k], times[k]);
      arrival.Some? && arrival.value >= p.EndTime(path[..k + 1]) - Margins(p.ranges, hops, k + 1)
  {
    PrefixInGraph(p, path, k + 1);
    PrefixInGraph(p, path, k);
    assert path[..k + 1][..k] == path[..k] && p.Usable(path[k]);
    assert OnTime(p.ranges, hops, eccc, times, k);
    if k > 0 {
      HopNotBefore(p, path, hops, start, eccc, times, k - 1);
      assert p.EndTime(path[..k + 1]) == p.Arrival(path[k], p.EndTime(path[..k]));
    } else {
      assert path[..0] == [];
    }
  }

  /** A bundle never arrives before its route does, but for the allowances: those are made
      when routes are searched for, and not when transmission opportunities are computed. */
  lemma NeverBeforeRoute(p: Problem, path: seq<nat>, route: CgrRoute, now: int, deadline: int, prior: nat, eccc: nat)
    requires Describes(p, route, path) && p.now <= now
    ensures var r := Projected(p.ranges, route.hops, route.fromTime, now, deadline, prior, eccc);
      r != 0 ==> r >= route.arrivalTime - Margins(p.ranges, route.hops, |route.hops|)
  {
    var start := Max(now, route.fromTime) + Radiation(prior + eccc, route.hops[0].xmitRate);
    if Projected(p.ranges, route.hops, route.fromTime, now, deadline, prior, eccc) != 0 {
      var times := DeliveryScheduled(p.ranges, route.hops, start, eccc);
      HopNotBefore(p, path, route.hops, start, eccc, times, |path| - 1);
      assert path[..|path|] == path;
    }
  }
}
