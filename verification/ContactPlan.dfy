/** The contact plan: contacts in an index that rejects overlaps, and the timeline of the
    events they give rise to. */
module ContactPlan {
  import opened Keys
  import opened Index
  import opened RbTree

  const STOP_XMIT := 2
  const STOP_FIRE := 3
  const START_XMIT := 18
  const START_FIRE := 19
  const PURGE_CONTACT := 21

  const CONTACT_EVENT_TYPES: set<int> := {STOP_XMIT, STOP_FIRE, START_XMIT, START_FIRE, PURGE_CONTACT}

  datatype CXref = CXref(
    fromNode: nat, toNode: nat, fromTime: int, toTime: int, xmitRate: nat,
    startXmit: int, stopXmit: int, startFire: int, stopFire: int, purgeTime: int,
    serial: nat)  // tells the record from all others, while addresses are used again
  {
    predicate SamePair(other: CXref) {
      fromNode == other.fromNode && toNode == other.toNode
    }

    predicate Overlaps(other: CXref) {
      SamePair(other) && fromTime < other.toTime && other.fromTime < toTime
    }

    predicate WellFormed() {
      fromNode != 0 && toNode != 0 && fromTime != 0 && fromTime < toTime
    }

    /** The contact's times, as computed when it is inserted. */
    function WithEventTimes(ownNode: nat, maxClockError: int): CXref {
      var start, stop := fromTime + maxClockError, toTime - maxClockError;
      CXref(fromNode, toNode, fromTime, toTime, xmitRate,
            if fromNode == ownNode then start else startXmit, if fromNode == ownNode then stop else stopXmit,
            if toNode == ownNode then start else startFire, if toNode == ownNode then stop else stopFire,
            if toNode == ownNode then purgeTime else toTime, serial)
    }

    /** The time of the contact's event of a kind, or zero if it has none. */
    function TimeOf(kind: int): int {
      if kind == START_XMIT then startXmit
      else if kind == STOP_XMIT then stopXmit
      else if kind == START_FIRE then startFire
      else if kind == STOP_FIRE then stopFire
      else if kind == PURGE_CONTACT then purgeTime
      else 0
    }

    /** The timeline events of the contact stored at an address: one per nonzero time. */
    ghost function Events(ref: Addr): set<IonEvent> {
      set kind | kind in CONTACT_EVENT_TYPES && TimeOf(kind) != 0 :: IonEvent(TimeOf(kind), kind, ref)
    }

    ghost function Event(kind: int, ref: Addr): set<IonEvent> {
      Timed(IonEvent(TimeOf(kind), kind, ref))
    }

    /** The same events, one kind after the other. */
    ghost function EachEvent(ref: Addr): set<IonEvent> {
      StartsAndStops(ref) + Event(PURGE_CONTACT, ref)
    }

    ghost function StartsAndStops(ref: Addr): set<IonEvent> {
      (Event(START_XMIT, ref) + Event(STOP_XMIT, ref)) + (Event(START_FIRE, ref) + Event(STOP_FIRE, ref))
    }

    lemma EventsAre(ref: Addr)
      ensures Events(ref) == EachEvent(ref)
    {
      forall kind | kind in CONTACT_EVENT_TYPES
        ensures IonEvent(TimeOf(kind), kind, ref) in Events(ref) <==> TimeOf(kind) != 0
      {
      }
    }
  }

  datatype IonEvent = IonEvent(time: int, kind: int, ref: Addr)

  /** An event is on the timeline only if its time is not zero. */
  ghost function Timed(e: IonEvent): set<IonEvent> {
    if e.time != 0 then {e} else {}
  }

  function ContactKey(c: CXref): Key {
    Key(c.fromNode, c.toNode, c.fromTime)
  }

  function EventKey(e: IonEvent): Key {
    Key(e.time, e.kind, e.ref)
  }

  type Contacts = seq<Row<CXref>>
  type Timeline = seq<Row<IonEvent>>

  /** Contacts of one ordered node pair are disjoint in time, in the order they stand in. */
  ghost predicate Disjoint(rows: Contacts) {
    forall i, j :: 0 <= i < j < |rows| && rows[i].rec.SamePair(rows[j].rec) ==>
      rows[i].rec.toTime <= rows[j].rec.fromTime
  }

  ghost predicate AllWellFormed(rows: Contacts) {
    forall r :: r in rows ==> r.rec.WellFormed()
  }

  ghost predicate OverlapsSome(rows: Contacts, arg: CXref) {
    exists r :: r in rows && r.rec.Overlaps(arg)
  }

  lemma SameExtent(rows: Contacts, arg: CXref, x: CXref)
    requires x.fromNode == arg.fromNode && x.toNode == arg.toNode
    requires x.fromTime == arg.fromTime && x.toTime == arg.toTime
    ensures OverlapsSome(rows, x) <==> OverlapsSome(rows, arg)
  {
    assert forall r :: r in rows ==> (r.rec.Overlaps(x) <==> r.rec.Overlaps(arg));
  }

  /** What the code tests: the successor and the predecessor in key order, and no others. */
  predicate NeighborsOverlap(rows: Contacts, n: nat, arg: CXref)
    requires n <= |rows|
  {
    || (n < |rows| && arg.SamePair(rows[n].rec) && arg.toTime > rows[n].rec.fromTime)
    || (n > 0 && arg.SamePair(rows[n - 1].rec) && arg.fromTime < rows[n - 1].rec.toTime)
  }

  ghost predicate Keyed(rows: Contacts) {
    Sorted(KeysOf(rows, ContactKey)) && Disjoint(rows) && AllWellFormed(rows)
  }

  /** A contact is fit for the plan exactly if it has two nodes, a start and a later end, and every
      contact of the same pair is over when it starts, or starts when it is over. */
  lemma FitMeans(rows: Contacts, arg: CXref)
    requires Keyed(rows)
    ensures arg.WellFormed() && ContactKey(arg) !in KeysOf(rows, ContactKey) && !OverlapsSome(rows, arg)
       <==> && arg.fromNode != 0 && arg.toNode != 0 && arg.fromTime != 0 && arg.toTime > arg.fromTime
            && forall r :: r in rows && r.rec.fromNode == arg.fromNode && r.rec.toNode == arg.toNode ==>
                 r.rec.toTime <= arg.fromTime || arg.toTime <= r.rec.fromTime
  {
    if ContactKey(arg) in KeysOf(rows, ContactKey) {
      var i :| 0 <= i < |rows| && KeysOf(rows, ContactKey)[i] == ContactKey(arg);
      assert rows[i] in rows && rows[i].rec.WellFormed();
    }
    forall r | r in rows
      ensures r.rec.fromTime < r.rec.toTime
    {
      assert r.rec.WellFormed();
    }
    forall r | r in rows && arg.fromTime < arg.toTime
      ensures r.rec.Overlaps(arg)
         <==> && r.rec.fromNode == arg.fromNode && r.rec.toNode == arg.toNode
              && !(r.rec.toTime <= arg.fromTime || arg.toTime <= r.rec.fromTime)
    {
    }
  }

  /** By the clock error, the sending node starts to transmit late and stops early, and the receiving
      node does so with its timers; any other than the receiving node purges the contact at its end. */
  lemma PostedEvents(arg: CXref, ownNode: nat, maxClockError: int, ref: Addr, e: IonEvent)
    requires arg.startXmit == arg.stopXmit == arg.startFire == arg.stopFire == arg.purgeTime == 0
    ensures e in arg.WithEventTimes(ownNode, maxClockError).Events(ref)
       <==> && e.ref == ref && e.time != 0
            && match e.kind
               case 18 => arg.fromNode == ownNode && e.time == arg.fromTime + maxClockError
               case 2 => arg.fromNode == ownNode && e.time == arg.toTime - maxClockError
               case 19 => arg.toNode == ownNode && e.time == arg.fromTime + maxClockError
               case 3 => arg.toNode == ownNode && e.time == arg.toTime - maxClockError
               case 21 => arg.toNode != ownNode && e.time == arg.toTime
               case _ => false
  {
    var x := arg.WithEventTimes(ownNode, maxClockError);
    assert e in x.Events(ref) <==> e.kind in CONTACT_EVENT_TYPES && x.TimeOf(e.kind) == e.time != 0 && e.ref == ref;
  }

  lemma Ordered(rows: Contacts, i: nat, j: nat)
    requires Keyed(rows) && i < j < |rows|
    ensures Below(ContactKey(rows[i].rec), ContactKey(rows[j].rec))
    ensures rows[i] in rows && rows[j] in rows
  {
    assert Below(KeysOf(rows, ContactKey)[i], KeysOf(rows, ContactKey)[j]);
  }

  lemma AroundPosition(rows: Contacts, arg: CXref, n: nat)
    requires Keyed(rows) && ContactKey(arg) !in KeysOf(rows, ContactKey)
    requires n == Position(KeysOf(rows, ContactKey), ContactKey(arg))
    ensures forall i :: 0 <= i < n ==> Below(ContactKey(rows[i].rec), ContactKey(arg))
    ensures forall i :: n <= i < |rows| ==> Below(ContactKey(arg), ContactKey(rows[i].rec))
  {
    var ks := KeysOf(rows, ContactKey);
    AfterPosition(ks, ContactKey(arg));
    forall i | 0 <= i < |rows|
      ensures if i < n then Below(ContactKey(rows[i].rec), ContactKey(arg))
              else Below(ContactKey(arg), ContactKey(rows[i].rec))
    {
      assert ks[i] == ContactKey(rows[i].rec) && ks[i] in ks;
      CompareIsTotalOrder(ks[i], ContactKey(arg), ContactKey(arg));
    }
  }

  lemma OverlapReachesNeighbor(rows: Contacts, arg: CXref, n: nat, i: nat)
    requires Keyed(rows) && arg.WellFormed() && ContactKey(arg) !in KeysOf(rows, ContactKey)
    requires n == Position(KeysOf(rows, ContactKey), ContactKey(arg))
    requires i < |rows| && rows[i].rec.Overlaps(arg)
    ensures NeighborsOverlap(rows, n, arg)
  {
    AroundPosition(rows, arg, n);
    if i > n {
      Ordered(rows, n, i);
    } else if i < n - 1 {
      Ordered(rows, i, n - 1);
    }
    assert n > 0 ==> rows[n - 1] in rows;
  }

  /** Checking two neighbors is checking every contact in the plan. */
  lemma NeighborsSuffice(rows: Contacts, arg: CXref, n: nat)
    requires Keyed(rows) && arg.WellFormed() && ContactKey(arg) !in KeysOf(rows, ContactKey)
    requires n == Position(KeysOf(rows, ContactKey), ContactKey(arg))
    ensures NeighborsOverlap(rows, n, arg) <==> OverlapsSome(rows, arg)
  {
    AroundPosition(rows, arg, n);
    assert n > 0 ==> rows[n - 1] in rows;
    assert n < |rows| ==> rows[n] in rows;
    if OverlapsSome(rows, arg) {
      var r :| r in rows && r.rec.Overlaps(arg);
      var i :| 0 <= i < |rows| && rows[i] == r;
      OverlapReachesNeighbor(rows, arg, n, i);
    }
  }

  lemma Separated(rows: Contacts, arg: CXref, n: nat, i: nat)
    requires Keyed(rows) && arg.WellFormed() && ContactKey(arg) !in KeysOf(rows, ContactKey)
    requires n == Position(KeysOf(rows, ContactKey), ContactKey(arg))
    requires !OverlapsSome(rows, arg) && i < |rows| && arg.SamePair(rows[i].rec)
    ensures if i < n then rows[i].rec.toTime <= arg.fromTime else arg.toTime <= rows[i].rec.fromTime
  {
    AroundPosition(rows, arg, n);
    assert rows[i] in rows && !rows[i].rec.Overlaps(arg);
  }

  lemma SpliceDisjoint(rows: Contacts, row: Row<CXref>, n: nat)
    requires n <= |rows| && Disjoint(rows)
    requires forall i :: 0 <= i < n && rows[i].rec.SamePair(row.rec) ==> rows[i].rec.toTime <= row.rec.fromTime
    requires forall i :: n <= i < |rows| && rows[i].rec.SamePair(row.rec) ==> row.rec.toTime <= rows[i].rec.fromTime
    ensures Disjoint(rows[..n] + [row] + rows[n..])
  {
    var rows' := rows[..n] + [row] + rows[n..];
    forall i, j | 0 <= i < j < |rows'| && rows'[i].rec.SamePair(rows'[j].rec)
      ensures rows'[i].rec.toTime <= rows'[j].rec.fromTime
    {
      assert i != n ==> rows'[i] == rows[if i < n then i else i - 1];
      assert j != n ==> rows'[j] == rows[if j < n then j else j - 1];
    }
  }

  lemma SpliceWellFormed(rows: Contacts, row: Row<CXref>, n: nat)
    requires n <= |rows| && AllWellFormed(rows) && row.rec.WellFormed()
    ensures AllWellFormed(rows[..n] + [row] + rows[n..])
  {
  }

  /** A contact that overlaps none joins the plan without disturbing it. */
  lemma InsertDisjoint(rows: Contacts, row: Row<CXref>, n: nat)
    requires Keyed(rows) && row.rec.WellFormed() && ContactKey(row.rec) !in KeysOf(rows, ContactKey)
    requires n == Position(KeysOf(rows, ContactKey), ContactKey(row.rec))
    requires !OverlapsSome(rows, row.rec)
    ensures Disjoint(rows[..n] + [row] + rows[n..]) && AllWellFormed(rows[..n] + [row] + rows[n..])
  {
    forall i | 0 <= i < |rows| && rows[i].rec.SamePair(row.rec)
      ensures if i < n then rows[i].rec.toTime <= row.rec.fromTime else row.rec.toTime <= rows[i].rec.fromTime
    {
      Separated(rows, row.rec, n, i);
    }
    SpliceDisjoint(rows, row, n);
    SpliceWellFormed(rows, row, n);
  }

  lemma RemoveDisjoint(rows: Contacts, n: nat)
    requires Disjoint(rows) && AllWellFormed(rows) && n < |rows|
    ensures Disjoint(rows[..n] + rows[n + 1..]) && AllWellFormed(rows[..n] + rows[n + 1..])
  {
  }

  // ---------------------------------------------------------- the timeline

  ghost function Derived(contacts: Contacts): set<IonEvent> {
    set c, e | c in contacts && e in c.rec.Events(c.addr) :: e
  }

  ghost function ContactEvents(timeline: Timeline): set<IonEvent> {
    set r | r in timeline && r.rec.kind in CONTACT_EVENT_TYPES :: r.rec
  }

  /** The timeline's rows whose events are none of es. */
  ghost function Others(rows: set<Row<IonEvent>>, es: set<IonEvent>): set<Row<IonEvent>> {
    set r | r in rows && r.rec !in es
  }

  ghost function Recs(rows: set<Row<IonEvent>>): set<IonEvent> {
    set r | r in rows :: r.rec
  }

  /** An event's key is the event. */
  lemma EventPosition(rows: Timeline, event: IonEvent)
    requires Sorted(KeysOf(rows, EventKey))
    ensures var ks := KeysOf(rows, EventKey); var n := Position(ks, EventKey(event));
      if EventKey(event) in ks
      then n < |rows| && rows[n] in RowSet(rows) && rows[n].rec == event && Others(RowSet(rows), {event}) == RowSet(rows) - {rows[n]}
      else Others(RowSet(rows), {event}) == RowSet(rows)
  {
    var ks := KeysOf(rows, EventKey);
    var n := Position(ks, EventKey(event));
    AfterPosition(ks, EventKey(event));
    forall i | 0 <= i < |rows|
      ensures rows[i].rec == event <==> EventKey(event) in ks && i == n
    {
      assert ks[i] == EventKey(rows[i].rec);
      if rows[i].rec == event {
        assert ks[i] in ks;
        CompareIsTotalOrder(ks[i], ks[n], ks[i]);
      }
    }
  }

  /** rows' is rows0 and one row for each event of es, none of which rows0 had. */
  ghost predicate Posted(rows0: set<Row<IonEvent>>, rows': set<Row<IonEvent>>, es: set<IonEvent>) {
    Recs(rows0) !! es && Others(rows', es) == rows0 && Recs(rows') == Recs(rows0) + es
  }

  lemma PurgeIsLast(x: CXref, ref: Addr, rows0: set<Row<IonEvent>>)
    requires forall e :: e in Recs(rows0) && e.kind in CONTACT_EVENT_TYPES ==> e.ref != ref
    ensures IonEvent(x.purgeTime, PURGE_CONTACT, ref) !in Recs(rows0) + x.StartsAndStops(ref)
    ensures x.StartsAndStops(ref) + Timed(IonEvent(x.purgeTime, PURGE_CONTACT, ref)) == x.EachEvent(ref)
  {
  }

  lemma PostedMore(rows0: set<Row<IonEvent>>, rows: set<Row<IonEvent>>, es: set<IonEvent>, e: IonEvent)
    requires Posted(rows0, rows, es) && e !in Recs(rows0) + es
    ensures forall a :: Posted(rows0, rows + {Row(a, e)}, es + {e})
    ensures forall r :: r in rows ==> r.rec != e
  {
    forall r | r in rows
      ensures r.rec in Recs(rows) && r.rec != e
    {
    }
    forall a
      ensures Posted(rows0, rows + {Row(a, e)}, es + {e})
    {
      var rows' := rows + {Row(a, e)};
      assert Recs(rows') == Recs(rows) + {e};
      assert Others(rows', es + {e}) == Others(rows, es);
    }
  }

  lemma OthersTwice(rows: set<Row<IonEvent>>, es: set<IonEvent>, fs: set<IonEvent>)
    ensures Others(Others(rows, es), fs) == Others(rows, es + fs)
  {
  }

  lemma CanceledBoth(rows: set<Row<IonEvent>>, mid: set<Row<IonEvent>>, rows': set<Row<IonEvent>>, es: set<IonEvent>, fs: set<IonEvent>)
    requires mid == Others(rows, es) && rows' == Others(mid, fs)
    ensures rows' == Others(rows, es + fs)
  {
    OthersTwice(rows, es, fs);
  }

  lemma DerivedInsert(contacts: Contacts, n: nat, row: Row<CXref>)
    requires n <= |contacts|
    ensures Derived(contacts[..n] + [row] + contacts[n..]) == Derived(contacts) + row.rec.Events(row.addr)
  {
    var contacts' := contacts[..n] + [row] + contacts[n..];
    assert contacts'[n] == row;
    assert forall c :: c in contacts' <==> c in contacts[..n] || c == row || c in contacts[n..];
    assert forall c :: c in contacts <==> c in contacts[..n] || c in contacts[n..];
  }

  lemma RestRows(contacts: Contacts, n: nat, c: Row<CXref>)
    requires n < |contacts|
    requires DistinctAddrs(contacts)
    ensures c in contacts[..n] + contacts[n + 1..] <==> c in contacts && c.addr != contacts[n].addr
  {
    var rest := contacts[..n] + contacts[n + 1..];
    if c in rest {
      var i :| 0 <= i < |rest| && rest[i] == c;
      assert c == contacts[if i < n then i else i + 1];
    }
    if c in contacts && c.addr != contacts[n].addr {
      var i :| 0 <= i < |contacts| && contacts[i] == c;
      assert rest[if i < n then i else i - 1] == c;
    }
  }

  lemma DerivedRemove(contacts: Contacts, n: nat)
    requires n < |contacts|
    requires DistinctAddrs(contacts)
    ensures Derived(contacts[..n] + contacts[n + 1..]) == Derived(contacts) - contacts[n].rec.Events(contacts[n].addr)
  {
    forall c: Row<CXref>
      ensures c in contacts[..n] + contacts[n + 1..] <==> c in contacts && c.addr != contacts[n].addr
    {
      RestRows(contacts, n, c);
    }
    forall i | 0 <= i < |contacts| && contacts[i].addr == contacts[n].addr
      ensures i == n
    {
    }
    DerivedWithout(contacts, contacts[..n] + contacts[n + 1..], contacts[n]);
  }

  lemma DerivedWithout(contacts: Contacts, rest: Contacts, row: Row<CXref>)
    requires forall c :: c in rest <==> c in contacts && c.addr != row.addr
    requires forall c :: c in contacts && c.addr == row.addr ==> c == row
    ensures Derived(rest) == Derived(contacts) - row.rec.Events(row.addr)
  {
    forall e
      ensures e in Derived(rest) <==> e in Derived(contacts) && e !in row.rec.Events(row.addr)
    {
      if e in Derived(contacts) && e !in row.rec.Events(row.addr) {
        var c :| c in contacts && e in c.rec.Events(c.addr);
        assert c != row && c in rest;
      }
      if e in Derived(rest) {
        var c :| c in rest && e in c.rec.Events(c.addr);
        assert c in contacts && e.ref == c.addr;
      }
    }
  }

  lemma KeyPosition(contacts: Contacts, n: nat)
    requires Sorted(KeysOf(contacts, ContactKey)) && n < |contacts|
    ensures var ks := KeysOf(contacts, ContactKey);
      ContactKey(contacts[n].rec) in ks && Position(ks, ContactKey(contacts[n].rec)) == n
  {
    var ks := KeysOf(contacts, ContactKey);
    assert ks[n] == ContactKey(contacts[n].rec);
    AfterPosition(ks, ks[n]);
    CompareIsTotalOrder(ks[n], ks[Position(ks, ks[n])], ks[n]);
  }

  /** The contact index after a contact joined at its key's position. */
  ghost predicate Added(rows: Contacts, rows': Contacts, row: Row<CXref>) {
    var n := Position(KeysOf(rows, ContactKey), ContactKey(row.rec));
    rows' == rows[..n] + [row] + rows[n..]
  }

  lemma FreshRef(contacts: Contacts, rows: Timeline, ref: Addr)
    requires ContactEvents(rows) == Derived(contacts)
    requires forall c :: c in contacts ==> c.addr != ref
    ensures forall e :: e in Recs(RowSet(rows)) && e.kind in CONTACT_EVENT_TYPES ==> e.ref != ref
  {
    forall e | e in Recs(RowSet(rows)) && e.kind in CONTACT_EVENT_TYPES
      ensures e.ref != ref
    {
      assert e in ContactEvents(rows);
    }
  }

  lemma PostedMatches(contacts: Contacts, rows0: Timeline, rows: Timeline, x: CXref, ref: Addr)
    requires ContactEvents(rows0) == Derived(contacts)
    requires Posted(RowSet(rows0), RowSet(rows), x.Events(ref))
    ensures ContactEvents(rows) == Derived(contacts) + x.Events(ref)
  {
    forall e
      ensures e in ContactEvents(rows) <==> e in ContactEvents(rows0) || e in x.Events(ref)
    {
      assert e in ContactEvents(rows) <==> e in Recs(RowSet(rows)) && e.kind in CONTACT_EVENT_TYPES;
      assert e in ContactEvents(rows0) <==> e in Recs(RowSet(rows0)) && e.kind in CONTACT_EVENT_TYPES;
    }
  }

  /** One contact more, and its events, keep index and timeline in step. */
  lemma AddCoherent(contacts: Contacts, rows0: Timeline, contacts': Contacts, rows: Timeline, row: Row<CXref>)
    requires Keyed(contacts) && ContactEvents(rows0) == Derived(contacts)
    requires row.rec.WellFormed() && ContactKey(row.rec) !in KeysOf(contacts, ContactKey)
    requires !OverlapsSome(contacts, row.rec) && Added(contacts, contacts', row)
    requires Posted(RowSet(rows0), RowSet(rows), row.rec.Events(row.addr))
    ensures Disjoint(contacts') && AllWellFormed(contacts') && ContactEvents(rows) == Derived(contacts')
  {
    var n := Position(KeysOf(contacts, ContactKey), ContactKey(row.rec));
    InsertDisjoint(contacts, row, n);
    DerivedInsert(contacts, n, row);
    PostedMatches(contacts, rows0, rows, row.rec, row.addr);
  }

  lemma CancelledMatches(contacts: Contacts, rows0: Timeline, rows: Timeline, n: nat)
    requires n < |contacts| && ContactEvents(rows0) == Derived(contacts)
    requires RowSet(rows) == Others(RowSet(rows0), contacts[n].rec.Events(contacts[n].addr))
    ensures ContactEvents(rows) == Derived(contacts) - contacts[n].rec.Events(contacts[n].addr)
  {
    var es := contacts[n].rec.Events(contacts[n].addr);
    forall r
      ensures r in rows <==> r in rows0 && r.rec !in es
    {
      assert r in RowSet(rows) <==> r in Others(RowSet(rows0), es);
    }
  }

  lemma RemoveCoherent(contacts: Contacts, rows0: Timeline, contacts': Contacts, rows: Timeline, n: nat)
    requires Keyed(contacts) && ContactEvents(rows0) == Derived(contacts) && n < |contacts|
    requires DistinctAddrs(contacts)
    requires contacts' == contacts[..n] + contacts[n + 1..]
    requires RowSet(rows) == Others(RowSet(rows0), contacts[n].rec.Events(contacts[n].addr))
    ensures Disjoint(contacts') && AllWellFormed(contacts') && ContactEvents(rows) == Derived(contacts')
  {
    RemoveDisjoint(contacts, n);
    DerivedRemove(contacts, n);
    CancelledMatches(contacts, rows0, rows, n);
  }

  /** What a removal request covers; a start of zero stands for all starts after it. */
  predicate Removable(x: CXref, fromTime: int, fromNode: nat, toNode: nat) {
    x.fromNode == fromNode && x.toNode == toNode && if fromTime != 0 then x.fromTime == fromTime else x.fromTime > 0
  }

  ghost function Covered(rows: Contacts, fromTime: int, fromNode: nat, toNode: nat): set<Row<CXref>> {
    set r | r in rows && Removable(r.rec, fromTime, fromNode, toNode)
  }

  ghost function EventsOf(gone: set<Row<CXref>>): set<IonEvent> {
    set r, e | r in gone && e in r.rec.Events(r.addr) :: e
  }

  /** The plan after some rows, and their events, are gone from it. */
  ghost predicate Removal(rows: Contacts, timeline: Timeline, edit: int, rows': Contacts, timeline': Timeline, edit': int,
                          gone: set<Row<CXref>>, now: int) {
    && gone <= RowSet(rows) && RowSet(rows') == RowSet(rows) - gone
    && RowSet(timeline') == Others(RowSet(timeline), EventsOf(gone))
    && edit' == if exists r :: r in gone && r.rec.toTime > now then now else edit
  }

  /** What is left: every row of the other pairs, and of the pair itself those that start at
      another time than the one given, or, if that is zero, not after it. */
  lemma RemovalMeans(rows: Contacts, timeline: Timeline, edit: int, rows': Contacts, timeline': Timeline, edit': int,
                     fromTime: int, fromNode: nat, toNode: nat, now: int)
    requires Removal(rows, timeline, edit, rows', timeline', edit', Covered(rows, fromTime, fromNode, toNode), now)
    ensures forall r :: r in rows' <==>
      && r in rows
      && !(r.rec.fromNode == fromNode && r.rec.toNode == toNode
           && if fromTime == 0 then r.rec.fromTime > 0 else r.rec.fromTime == fromTime)
  {
    assert forall r :: r in rows' <==> r in RowSet(rows');
    assert forall r :: r in rows <==> r in RowSet(rows);
  }

  lemma RemovalNone(rows: Contacts, timeline: Timeline, edit: int, now: int)
    ensures Removal(rows, timeline, edit, rows, timeline, edit, {}, now)
  {
    assert EventsOf({}) == {};
  }

  lemma EventsOfMore(gone: set<Row<CXref>>, r: Row<CXref>)
    ensures EventsOf(gone + {r}) == EventsOf(gone) + r.rec.Events(r.addr)
  {
  }

  lemma RestSet(rows: Contacts, n: nat)
    requires n < |rows| && DistinctAddrs(rows)
    ensures RowSet(rows[..n] + rows[n + 1..]) == RowSet(rows) - {rows[n]}
  {
    forall r: Row<CXref>
      ensures r in rows[..n] + rows[n + 1..] <==> r in rows && r != rows[n]
    {
      RestRows(rows, n, r);
    }
  }

  /** One more deletion. */
  lemma RemovalMore(rows0: Contacts, timeline0: Timeline, edit0: int, rows: Contacts, timeline: Timeline, edit: int,
                    gone: set<Row<CXref>>, now: int, n: nat, timeline': Timeline)
    requires n < |rows| && DistinctAddrs(rows) && Removal(rows0, timeline0, edit0, rows, timeline, edit, gone, now)
    requires RowSet(timeline') == Others(RowSet(timeline), rows[n].rec.Events(rows[n].addr))
    ensures Removal(rows0, timeline0, edit0, rows[..n] + rows[n + 1..], timeline',
                    if rows[n].rec.toTime > now then now else edit, gone + {rows[n]}, now)
  {
    RestSet(rows, n);
    EventsOfMore(gone, rows[n]);
    OthersTwice(RowSet(timeline0), EventsOf(gone), rows[n].rec.Events(rows[n].addr));
    assert rows[n] in RowSet(rows);
  }

  ghost predicate NoneRemovable(rows: Contacts, fromNode: nat, toNode: nat) {
    forall r :: r in rows ==> !Removable(r.rec, 0, fromNode, toNode)
  }

  lemma AllCovered(rows0: Contacts, rows: Contacts, fromNode: nat, toNode: nat, gone: set<Row<CXref>>)
    requires gone <= Covered(rows0, 0, fromNode, toNode) && RowSet(rows) == RowSet(rows0) - gone
    requires NoneRemovable(rows, fromNode, toNode)
    ensures gone == Covered(rows0, 0, fromNode, toNode)
  {
    forall r | r in Covered(rows0, 0, fromNode, toNode)
      ensures r in gone
    {
      assert r in RowSet(rows) || r in gone;
    }
  }

  lemma CoveredOne(rows: Contacts, fromTime: int, fromNode: nat, toNode: nat)
    requires Sorted(KeysOf(rows, ContactKey)) && fromTime != 0
    ensures var k := Key(fromNode, toNode, fromTime); var n := Position(KeysOf(rows, ContactKey), k);
      && (k in KeysOf(rows, ContactKey) ==> n < |rows| && Covered(rows, fromTime, fromNode, toNode) == {} + {rows[n]})
      && (k !in KeysOf(rows, ContactKey) ==> Covered(rows, fromTime, fromNode, toNode) == {})
  {
    var ks, k := KeysOf(rows, ContactKey), Key(fromNode, toNode, fromTime);
    var n := Position(ks, k);
    AfterPosition(ks, k);
    forall i | 0 <= i < |rows|
      ensures Removable(rows[i].rec, fromTime, fromNode, toNode) <==> k in ks && i == n
    {
      assert ks[i] == ContactKey(rows[i].rec);
      if ks[i] == k {
        assert ks[i] in ks;
        CompareIsTotalOrder(ks[i], ks[n], k);
      }
    }
  }

  /** Where the wild-card loop looks, and what it means for the loop to stop there. */
  lemma FirstOfPair(rows: Contacts, fromNode: nat, toNode: nat, n: nat)
    requires Keyed(rows) && n == Position(KeysOf(rows, ContactKey), Key(fromNode, toNode, 0))
    ensures Key(fromNode, toNode, 0) !in KeysOf(rows, ContactKey)
    ensures n < |rows| && !(rows[n].rec.fromNode > fromNode || rows[n].rec.toNode > toNode)
      ==> Removable(rows[n].rec, 0, fromNode, toNode)
    ensures n == |rows| || rows[n].rec.fromNode > fromNode || rows[n].rec.toNode > toNode
      ==> forall r :: r in rows ==> !Removable(r.rec, 0, fromNode, toNode)
  {
    var ks, k := KeysOf(rows, ContactKey), Key(fromNode, toNode, 0);
    AfterPosition(ks, k);
    forall i | 0 <= i < |rows|
      ensures ks[i] == ContactKey(rows[i].rec) != k
      ensures i < n ==> Compare(ks[i], k) < 0
      ensures i > n ==> Below(ks[n], ks[i])
    {
      assert rows[i] in rows && rows[i].rec.WellFormed();
    }
  }

  /** A wild-card removal takes every contact of the pair, just when none starts before time zero. */
  lemma WildCardCoversPair(rows: Contacts, fromNode: nat, toNode: nat)
    requires AllWellFormed(rows)
    ensures (forall r :: r in rows && r.rec.fromNode == fromNode && r.rec.toNode == toNode
                         ==> r in Covered(rows, 0, fromNode, toNode))
       <==> (forall r :: r in rows && r.rec.fromNode == fromNode && r.rec.toNode == toNode ==> r.rec.fromTime >= 0)
  {
    forall r | r in rows && r.rec.fromNode == fromNode && r.rec.toNode == toNode
      ensures r in Covered(rows, 0, fromNode, toNode) <==> r.rec.fromTime >= 0
    {
      assert r.rec.WellFormed();
    }
  }

  /** A plan may hold a contact that starts before time zero; wild-card removal leaves it there. */
  lemma NegativeStartStays()
    ensures var row := Row(1, CXref(1, 2, -10, 20, 1000, 0, 0, 0, 0, 20, 0));
      Keyed([row]) && Covered([row], 0, 1, 2) == {}
  {
    var row := Row(1, CXref(1, 2, -10, 20, 1000, 0, 0, 0, 0, 20, 0));
    assert forall r :: r in [row] ==> r == row;
  }

  /** Inserting a contact and then removing it restores both the index and the timeline. */
  lemma InsertRemoveRestores(rows0: Contacts, timeline0: Timeline, rows1: Contacts, timeline1: Timeline, edit1: int,
                             rows2: Contacts, timeline2: Timeline, edit2: int, row: Row<CXref>, now: int)
    requires Sorted(KeysOf(rows0, ContactKey)) && Sorted(KeysOf(rows1, ContactKey)) && Sorted(KeysOf(rows2, ContactKey))
    requires Sorted(KeysOf(timeline0, EventKey)) && Sorted(KeysOf(timeline2, EventKey))
    requires row.rec.WellFormed() && ContactKey(row.rec) !in KeysOf(rows0, ContactKey)
    requires Added(rows0, rows1, row)
    requires Posted(RowSet(timeline0), RowSet(timeline1), row.rec.Events(row.addr))
    requires Removal(rows1, timeline1, edit1, rows2, timeline2, edit2,
                     Covered(rows1, row.rec.fromTime, row.rec.fromNode, row.rec.toNode), now)
    ensures rows2 == rows0 && timeline2 == timeline0
  {
    var n := Position(KeysOf(rows0, ContactKey), ContactKey(row.rec));
    SplicedSet(rows0, n, row);
    assert rows1[n] == row && KeysOf(rows1, ContactKey)[n] == ContactKey(row.rec);
    KeyPosition(rows1, n);
    CoveredOne(rows1, row.rec.fromTime, row.rec.fromNode, row.rec.toNode);
    forall i | 0 <= i < |rows0|
      ensures rows0[i] != row
    {
      assert KeysOf(rows0, ContactKey)[i] == ContactKey(rows0[i].rec);
    }
    RowsUnique(rows2, rows0, ContactKey);
    EventsOfMore({}, row);
    assert EventsOf({}) == {};
    assert {} + row.rec.Events(row.addr) == row.rec.Events(row.addr);
    RowsUnique(timeline2, timeline0, EventKey);
  }

  class Plan {
    const contactIndex: Table<CXref>
    const timeline: Table<IonEvent>
    const ownNode: nat
    var maxClockError: int
    var lastEditTime: int
    var nextSerial: nat

    ghost predicate Separate() {
      && contactIndex.rbt != timeline.rbt
      && contactIndex as object != timeline as object
      && contactIndex as object != this && timeline as object != this
    }

    ghost predicate Valid()
      reads this, contactIndex, contactIndex.rbt, timeline, timeline.rbt
    {
      && Separate()
      && contactIndex.Valid() && contactIndex.keyOf == ContactKey && Keyed(contactIndex.rows)
      && timeline.Valid() && timeline.keyOf == EventKey
      && ContactEvents(timeline.rows) == Derived(contactIndex.rows)
    }

    /** Contacts are indexed by their nodes and then by their start, events by time, kind and contact. */
    lemma InKeyOrder(i: nat, j: nat)
      requires Valid() && i < j
      ensures j < |contactIndex.rows| ==>
        var a, b := contactIndex.rows[i].rec, contactIndex.rows[j].rec;
        || a.fromNode < b.fromNode || (a.fromNode == b.fromNode && a.toNode < b.toNode)
        || (a.fromNode == b.fromNode && a.toNode == b.toNode && a.fromTime < b.fromTime)
      ensures j < |timeline.rows| ==>
        var a, b := timeline.rows[i].rec, timeline.rows[j].rec;
        || a.time < b.time || (a.time == b.time && a.kind < b.kind)
        || (a.time == b.time && a.kind == b.kind && a.ref < b.ref)
    {
      assert j < |contactIndex.rows| ==> Below(contactIndex.Keys()[i], contactIndex.Keys()[j]);
      assert j < |timeline.rows| ==> Below(timeline.Keys()[i], timeline.Keys()[j]);
    }

    constructor (ownNode: nat, maxClockError: int)
      ensures Valid() && contactIndex.rows == [] && timeline.rows == [] && lastEditTime == 0 && this.ownNode == ownNode
      ensures nextSerial == 0
      ensures fresh(contactIndex) && fresh(contactIndex.rbt) && fresh(timeline) && fresh(timeline.rbt)
    {
      this.ownNode, this.maxClockError, lastEditTime, nextSerial := ownNode, maxClockError, 0, 0;
      contactIndex := new Table(ContactKey);
      timeline := new Table(EventKey);
    }

    /** Post a timeline event, unless its time is zero. */
    method PostEvent(event: IonEvent, ghost rows0: set<Row<IonEvent>>, ghost es: set<IonEvent>)
      requires timeline.Valid() && timeline.keyOf == EventKey
      requires Posted(rows0, RowSet(timeline.rows), es) && event !in Recs(rows0) + es
      modifies timeline, timeline.rbt
      ensures timeline.Valid() && Posted(rows0, RowSet(timeline.rows), es + Timed(event))
    {
      if event.time != 0 {
        EventPosition(timeline.rows, event);
        PostedMore(rows0, RowSet(timeline.rows), es, event);
        var addr := timeline.Insert(event);
      }
    }

    /** Delete a timeline event, unless its time is zero. */
    method CancelEvent(event: IonEvent)
      requires timeline.Valid() && timeline.keyOf == EventKey
      modifies timeline, timeline.rbt
      ensures timeline.Valid() && RowSet(timeline.rows) == Others(RowSet(old(timeline.rows)), Timed(event))
    {
      if event.time != 0 {
        EventPosition(timeline.rows, event);
        var found := timeline.Delete(EventKey(event));
      }
    }

    method PostPair(x: CXref, ref: Addr, k: int, l: int, ghost rows0: set<Row<IonEvent>>, ghost es: set<IonEvent>)
      requires timeline.Valid() && timeline.keyOf == EventKey && Posted(rows0, RowSet(timeline.rows), es)
      requires k != l && forall e :: e in Recs(rows0) + es && e.ref == ref ==> e.kind != k && e.kind != l
      modifies timeline, timeline.rbt
      ensures timeline.Valid() && Posted(rows0, RowSet(timeline.rows), es + (x.Event(k, ref) + x.Event(l, ref)))
    {
      PostEvent(IonEvent(x.TimeOf(k), k, ref), rows0, es);
      PostEvent(IonEvent(x.TimeOf(l), l, ref), rows0, es + x.Event(k, ref));
      assert es + x.Event(k, ref) + x.Event(l, ref) == es + (x.Event(k, ref) + x.Event(l, ref));
    }

    method PostStartsAndStops(x: CXref, ref: Addr, ghost rows0: set<Row<IonEvent>>)
      requires timeline.Valid() && timeline.keyOf == EventKey && Posted(rows0, RowSet(timeline.rows), {})
      requires forall e :: e in Recs(rows0) && e.kind in CONTACT_EVENT_TYPES ==> e.ref != ref
      modifies timeline, timeline.rbt
      ensures timeline.Valid() && Posted(rows0, RowSet(timeline.rows), x.StartsAndStops(ref))
    {
      ghost var xmit := x.Event(START_XMIT, ref) + x.Event(STOP_XMIT, ref);
      assert {} + xmit == xmit;
      PostPair(x, ref, START_XMIT, STOP_XMIT, rows0, {});
      PostPair(x, ref, START_FIRE, STOP_FIRE, rows0, xmit);
    }

    method PostEvents(x: CXref, ref: Addr)
      requires timeline.Valid() && timeline.keyOf == EventKey
      requires forall e :: e in Recs(RowSet(timeline.rows)) && e.kind in CONTACT_EVENT_TYPES ==> e.ref != ref
      modifies timeline, timeline.rbt
      ensures timeline.Valid() && Posted(RowSet(old(timeline.rows)), RowSet(timeline.rows), x.EachEvent(ref))
    {
      ghost var rows0 := RowSet(timeline.rows);
      assert Posted(rows0, rows0, {});
      PostStartsAndStops(x, ref, rows0);
      PurgeIsLast(x, ref, rows0);
      PostEvent(IonEvent(x.purgeTime, PURGE_CONTACT, ref), rows0, x.StartsAndStops(ref));
    }

    method CancelPair(x: CXref, ref: Addr, k: int, l: int)
      requires timeline.Valid() && timeline.keyOf == EventKey
      modifies timeline, timeline.rbt
      ensures timeline.Valid()
      ensures RowSet(timeline.rows) == Others(RowSet(old(timeline.rows)), x.Event(k, ref) + x.Event(l, ref))
    {
      CancelEvent(IonEvent(x.TimeOf(k), k, ref));
      CancelEvent(IonEvent(x.TimeOf(l), l, ref));
    }

    method CancelStartsAndStops(x: CXref, ref: Addr)
      requires timeline.Valid() && timeline.keyOf == EventKey
      modifies timeline, timeline.rbt
      ensures timeline.Valid() && RowSet(timeline.rows) == Others(RowSet(old(timeline.rows)), x.StartsAndStops(ref))
    {
      ghost var rows0 := RowSet(timeline.rows);
      CancelPair(x, ref, START_XMIT, STOP_XMIT);
      ghost var rows1 := RowSet(timeline.rows);
      CancelPair(x, ref, START_FIRE, STOP_FIRE);
      CanceledBoth(rows0, rows1, RowSet(timeline.rows), x.Event(START_XMIT, ref) + x.Event(STOP_XMIT, ref),
                   x.Event(START_FIRE, ref) + x.Event(STOP_FIRE, ref));
    }

    method CancelEvents(x: CXref, ref: Addr)
      requires timeline.Valid() && timeline.keyOf == EventKey
      modifies timeline, timeline.rbt
      ensures timeline.Valid() && RowSet(timeline.rows) == Others(RowSet(old(timeline.rows)), x.EachEvent(ref))
    {
      ghost var rows0 := RowSet(timeline.rows);
      CancelStartsAndStops(x, ref);
      ghost var rows1 := RowSet(timeline.rows);
      CancelEvent(IonEvent(x.purgeTime, PURGE_CONTACT, ref));
      CanceledBoth(rows0, rows1, RowSet(timeline.rows), x.StartsAndStops(ref), x.Event(PURGE_CONTACT, ref));
    }

    /** Add a contact that is known to fit: index entry, events, edit time. */
    method InsertCXref(arg: CXref, now: int) returns (cxaddr: Addr)
      requires Valid() && arg.WellFormed() && ContactKey(arg) !in contactIndex.Keys()
      requires !OverlapsSome(contactIndex.rows, arg)
      modifies this`lastEditTime, contactIndex, contactIndex.rbt, timeline, timeline.rbt
      ensures Valid() && cxaddr > 0
      ensures Added(old(contactIndex.rows), contactIndex.rows, Row(cxaddr, arg.WithEventTimes(ownNode, maxClockError)))
      ensures Posted(RowSet(old(timeline.rows)), RowSet(timeline.rows),
                     arg.WithEventTimes(ownNode, maxClockError).Events(cxaddr))
      ensures lastEditTime == if arg.toTime > now then now else old(lastEditTime)
    {
      ghost var contacts, rows0 := contactIndex.rows, timeline.rows;
      var cxref := arg.WithEventTimes(ownNode, maxClockError);
      SameExtent(contacts, arg, cxref);
      cxaddr := contactIndex.Insert(cxref);
      ghost var contacts' := contactIndex.rows;
      FreshRef(contacts, rows0, cxaddr);
      PostEvents(cxref, cxaddr);
      cxref.EventsAre(cxaddr);
      assert contactIndex.Valid() && contactIndex.rows == contacts';
      AddCoherent(contacts, rows0, contacts', timeline.rows, Row(cxaddr, cxref));
      NoteEdit(cxref.toTime, now);
    }

    /** Whether the successor or predecessor of the position a search ended at overlaps. */
    method NeighborOverlaps(arg: CXref, nextElt: Addr, ghost n: nat) returns (overlap: bool)
      requires contactIndex.Valid() && n <= |contactIndex.rows| && nextElt == contactIndex.Elt(n)
      ensures overlap == NeighborsOverlap(contactIndex.rows, n, arg)
    {
      contactIndex.EltInside(n);
      contactIndex.EltInside(n - 1);
      var prevElt;
      if nextElt != 0 {
        prevElt := contactIndex.Prev(nextElt, n);
        var next := contactIndex.Get(nextElt, n);
        if arg.SamePair(next.rec) && arg.toTime > next.rec.fromTime {
          return true;
        }
      } else {
        prevElt := contactIndex.Last();
      }
      if prevElt != 0 {
        var prev := contactIndex.Get(prevElt, n - 1);
        if arg.SamePair(prev.rec) && arg.fromTime < prev.rec.toTime {
          return true;
        }
      }
      overlap := false;
    }

    /** Insert a contact, unless it is malformed, already there, or overlaps another. */
    method InsertContact(fromTime: int, toTime: int, fromNode: nat, toNode: nat, xmitRate: nat, prob: real, now: int)
      returns (cxaddr: Addr)
      requires Valid()
      modifies this`lastEditTime, this`nextSerial, contactIndex, contactIndex.rbt, timeline, timeline.rbt
      ensures Valid()
      ensures var arg := CXref(fromNode, toNode, fromTime, toTime, xmitRate, 0, 0, 0, 0, 0, old(nextSerial));
        var x := arg.WithEventTimes(ownNode, maxClockError);
        var rows := old(contactIndex.rows);
        if arg.WellFormed() && 0.0 < prob <= 1.0 && ContactKey(arg) !in old(contactIndex.Keys()) && !OverlapsSome(rows, arg)
        then && cxaddr > 0 && Added(rows, contactIndex.rows, Row(cxaddr, x))
             && Posted(RowSet(old(timeline.rows)), RowSet(timeline.rows), x.Events(cxaddr))
             && lastEditTime == (if toTime > now then now else old(lastEditTime)) && nextSerial == old(nextSerial) + 1
        else && contactIndex.rows == rows && timeline.rows == old(timeline.rows) && lastEditTime == old(lastEditTime)
             && nextSerial == old(nextSerial)
             && (cxaddr != 0 ==> exists r :: r in rows && r.addr == cxaddr && ContactKey(r.rec) == ContactKey(arg)
                                             && r.rec.xmitRate == xmitRate)
    {
      if !(fromTime != 0 && toTime > fromTime && fromNode != 0 && toNode != 0 && 0.0 < prob <= 1.0) {
        return 0;
      }
      var arg := CXref(fromNode, toNode, fromTime, toTime, xmitRate, 0, 0, 0, 0, 0, nextSerial);
      ghost var rows, n := contactIndex.rows, Position(contactIndex.Keys(), ContactKey(arg));
      AfterPosition(contactIndex.Keys(), ContactKey(arg));
      var cxelt, nextElt := contactIndex.Search(ContactKey(arg));
      if cxelt != 0 {
        var row := contactIndex.Get(cxelt, n);
        assert rows[n] in rows && contactIndex.Keys()[n] == ContactKey(rows[n].rec);
        contactIndex.EltInside(n);
        contactIndex.AddrsDistinct();
        return if row.rec.xmitRate == xmitRate then row.addr else 0;
      }
      NeighborsSuffice(rows, arg, n);
      var overlap := NeighborOverlaps(arg, nextElt, n);
      if overlap {
        return 0;
      }
      CountRecord();
      cxaddr := InsertCXref(arg, now);
    }

    method DeleteEntry(cxref: CXref, ghost n: nat)
      requires Separate() && contactIndex.Valid() && contactIndex.keyOf == ContactKey && timeline.Valid()
      requires n < |contactIndex.rows| && contactIndex.rows[n].rec == cxref
      modifies contactIndex, contactIndex.rbt
      ensures contactIndex.Valid() && timeline.Valid() && timeline.rows == old(timeline.rows)
      ensures contactIndex.rows == old(contactIndex.rows)[..n] + old(contactIndex.rows)[n + 1..]
    {
      KeyPosition(contactIndex.rows, n);
      var found := contactIndex.Delete(ContactKey(cxref));
    }

    method CountRecord()
      requires Valid()
      modifies this`nextSerial
      ensures Valid() && nextSerial == old(nextSerial) + 1
    {
      nextSerial := nextSerial + 1;
    }

    /** Delete the contact stored at an address: its events, then its index entry. */
    method DeleteContact(cxaddr: Addr, now: int, ghost n: nat)
      requires Valid() && n < |contactIndex.rows| && contactIndex.rows[n].addr == cxaddr
      modifies this`lastEditTime, contactIndex, contactIndex.rbt, timeline, timeline.rbt
      ensures Valid()
      ensures contactIndex.rows == old(contactIndex.rows)[..n] + old(contactIndex.rows)[n + 1..]
      ensures RowSet(timeline.rows)
           == Others(RowSet(old(timeline.rows)), old(contactIndex.rows[n].rec.Events(cxaddr)))
      ensures lastEditTime == if old(contactIndex.rows[n].rec.toTime) > now then now else old(lastEditTime)
    {
      ghost var contacts, rows0 := contactIndex.rows, timeline.rows;
      contactIndex.AddrsDistinct();
      var cxref := contactIndex.Load(cxaddr, n);
      CancelEvents(cxref, cxaddr);
      cxref.EventsAre(cxaddr);
      DeleteEntry(cxref, n);
      RemoveCoherent(contacts, rows0, contactIndex.rows, timeline.rows, n);
      NoteEdit(cxref.toTime, now);
    }

    /** The plan has changed, unless it was by a contact that is over. */
    method NoteEdit(toTime: int, now: int)
      requires Valid()
      modifies this`lastEditTime
      ensures Valid() && lastEditTime == if toTime > now then now else old(lastEditTime)
    {
      if toTime > now {
        lastEditTime := now;
      }
    }

    // ---------------------------------------------------------- removal

    /** Remove the contact with the given start, or, for a start of zero, one contact of the
        pair after another, from the first one after time zero on. */
    method RemoveContact(fromTime: int, fromNode: nat, toNode: nat, now: int)
      requires Valid()
      modifies this`lastEditTime, contactIndex, contactIndex.rbt, timeline, timeline.rbt
      ensures Valid()
      ensures Removal(old(contactIndex.rows), old(timeline.rows), old(lastEditTime),
                      contactIndex.rows, timeline.rows, lastEditTime,
                      Covered(old(contactIndex.rows), fromTime, fromNode, toNode), now)
      ensures forall r :: r in contactIndex.rows <==>
        && r in old(contactIndex.rows)
        && !(r.rec.fromNode == fromNode && r.rec.toNode == toNode
             && if fromTime == 0 then r.rec.fromTime > 0 else r.rec.fromTime == fromTime)
    {
      ghost var rows, events, edit := contactIndex.rows, timeline.rows, lastEditTime;
      if fromTime != 0 {
        RemoveOne(fromTime, fromNode, toNode, now);
      } else {
        RemoveAll(fromNode, toNode, now);
      }
      RemovalMeans(rows, events, edit, contactIndex.rows, timeline.rows, lastEditTime, fromTime, fromNode, toNode, now);
    }

    method RemoveOne(fromTime: int, fromNode: nat, toNode: nat, now: int)
      requires Valid() && fromTime != 0
      modifies this`lastEditTime, contactIndex, contactIndex.rbt, timeline, timeline.rbt
      ensures Valid()
      ensures Removal(old(contactIndex.rows), old(timeline.rows), old(lastEditTime),
                      contactIndex.rows, timeline.rows, lastEditTime,
                      Covered(old(contactIndex.rows), fromTime, fromNode, toNode), now)
    {
      ghost var rows := contactIndex.rows;
      var k := Key(fromNode, toNode, fromTime);
      ghost var n := Position(contactIndex.Keys(), k);
      CoveredOne(rows, fromTime, fromNode, toNode);
      RemovalNone(rows, timeline.rows, lastEditTime, now);
      contactIndex.AddrsDistinct();
      ghost var timeline0, edit0 := timeline.rows, lastEditTime;
      var cxelt, _ := contactIndex.Search(k);
      contactIndex.EltInside(n);
      if cxelt != 0 {
        var row := contactIndex.Get(cxelt, n);
        DeleteContact(row.addr, now, n);
        RemovalMore(rows, timeline0, edit0, rows, timeline0, edit0, {}, now, n, timeline.rows);
      }
    }

    method RemoveAll(fromNode: nat, toNode: nat, now: int)
      requires Valid()
      modifies this`lastEditTime, contactIndex, contactIndex.rbt, timeline, timeline.rbt
      ensures Valid()
      ensures Removal(old(contactIndex.rows), old(timeline.rows), old(lastEditTime),
                      contactIndex.rows, timeline.rows, lastEditTime,
                      Covered(old(contactIndex.rows), 0, fromNode, toNode), now)
    {
      ghost var rows0, timeline0, edit0 := contactIndex.rows, timeline.rows, lastEditTime;
      ghost var gone: set<Row<CXref>> := {};
      RemovalNone(rows0, timeline0, edit0, now);
      var deleted := true;
      while deleted
        invariant Valid() && gone <= Covered(rows0, 0, fromNode, toNode)
        invariant Removal(rows0, timeline0, edit0, contactIndex.rows, timeline.rows, lastEditTime, gone, now)
        invariant !deleted ==> NoneRemovable(contactIndex.rows, fromNode, toNode)
        decreases |contactIndex.rows|, deleted
      {
        deleted, gone := DeleteFirst(fromNode, toNode, now, rows0, timeline0, edit0, gone);
      }
      AllCovered(rows0, contactIndex.rows, fromNode, toNode, gone);
    }

    /** Delete the pair's first contact after time zero, if there is one. */
    method DeleteFirst(fromNode: nat, toNode: nat, now: int, ghost rows0: Contacts, ghost timeline0: Timeline, ghost edit0: int,
                       ghost gone: set<Row<CXref>>)
      returns (deleted: bool, ghost gone': set<Row<CXref>>)
      requires Valid() && gone <= Covered(rows0, 0, fromNode, toNode)
      requires Removal(rows0, timeline0, edit0, contactIndex.rows, timeline.rows, lastEditTime, gone, now)
      modifies this`lastEditTime, contactIndex, contactIndex.rbt, timeline, timeline.rbt
      ensures Valid() && gone' <= Covered(rows0, 0, fromNode, toNode)
      ensures Removal(rows0, timeline0, edit0, contactIndex.rows, timeline.rows, lastEditTime, gone', now)
      ensures if deleted then |contactIndex.rows| < |old(contactIndex.rows)|
              else NoneRemovable(contactIndex.rows, fromNode, toNode) && |contactIndex.rows| == |old(contactIndex.rows)|
    {
      ghost var n := Position(contactIndex.Keys(), Key(fromNode, toNode, 0));
      FirstOfPair(contactIndex.rows, fromNode, toNode, n);
      deleted, gone' := false, gone;
      var _, cxelt := contactIndex.Search(Key(fromNode, toNode, 0));
      contactIndex.EltInside(n);
      if cxelt == 0 {
        return;
      }
      var row := contactIndex.Get(cxelt, n);
      if row.rec.fromNode > fromNode || row.rec.toNode > toNode {
        return;
      }
      contactIndex.AddrsDistinct();
      ghost var rows1, timeline1, edit1 := contactIndex.rows, timeline.rows, lastEditTime;
      DeleteContact(row.addr, now, n);
      RemovalMore(rows0, timeline0, edit0, rows1, timeline1, edit1, gone, now, n, timeline.rows);
      deleted, gone' := true, gone + {row};
    }
  }
}
