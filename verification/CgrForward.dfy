/** Forwarding with cached routes, while the contact plan is edited and time passes. */
module CgrForward {
  import RbTree
  import opened Keys
  import opened Index
  import opened ContactPlan
  import opened ContactGraph
  import opened SearchSteps
  import opened AnchoredSearch
  import opened Eto
  import opened Selection
  import opened Forwarding
  import opened Walk
  import opened Libcgr

  ghost function ContactsOf(rows: Contacts): (cs: seq<CXref>)
    ensures |cs| == |rows|
  {
    seq(|rows|, i requires 0 <= i < |rows| => rows[i].rec)
  }

  lemma ContactsOfOrdered(rows: Contacts)
    requires Keyed(rows)
    ensures ContactsOrdered(ContactsOf(rows))
  {
    assert ContactKeys(ContactsOf(rows)) == KeysOf(rows, ContactKey);
    forall c | c in ContactsOf(rows)
      ensures c.WellFormed()
    {
      var i :| 0 <= i < |rows| && ContactsOf(rows)[i] == c;
      assert rows[i] in rows;
    }
  }

  lemma ContactsOfRow(rows: Contacts, c: CXref)
    ensures c in ContactsOf(rows) <==> exists r :: r in RowSet(rows) && r.rec == c
  {
    if c in ContactsOf(rows) {
      var i :| 0 <= i < |rows| && ContactsOf(rows)[i] == c;
      assert rows[i] in RowSet(rows);
    }
    if r :| r in RowSet(rows) && r.rec == c {
      var i :| 0 <= i < |rows| && rows[i] == r;
      assert ContactsOf(rows)[i] == c;
    }
  }

  ghost function ContactSet(contacts: seq<CXref>): set<CXref> {
    set c | c in contacts
  }

  /** A route is in force until it shuts down. */
  ghost predicate InForce(now: int, routeLists: map<nat, seq<CgrRoute>>, route: CgrRoute) {
    route.toTime > now && exists t :: t in routeLists && route in routeLists[t]
  }

  /** The hops of routes in force are among the contacts given. */
  ghost predicate CacheWithin(known: set<CXref>, now: int, routeLists: map<nat, seq<CgrRoute>>) {
    forall r, h :: InForce(now, routeLists, r) && h in r.hops ==> h in known
  }

  /** Every cached route in force lists only contacts of the index. */
  ghost predicate CacheCoherent(contacts: seq<CXref>, now: int, routeLists: map<nat, seq<CgrRoute>>) {
    CacheWithin(ContactSet(contacts), now, routeLists)
  }

  /** Some cached route in force lists one of the contacts. */
  ghost predicate InUse(gone: set<CXref>, now: int, routeLists: map<nat, seq<CgrRoute>>) {
    exists r, h :: InForce(now, routeLists, r) && h in r.hops && h in gone
  }

  /** The cache is coherent exactly if no route in force lists one of the contacts gone. */
  ghost predicate CoherentBut(gone: set<CXref>, contacts: seq<CXref>, now: int, routeLists: map<nat, seq<CgrRoute>>) {
    CacheCoherent(contacts, now, routeLists) <==> !InUse(gone, now, routeLists)
  }

  /** If routes can list, besides indexed contacts, only some that are not, then it is those
      alone that coherence depends on. */
  lemma CoherentUnlessInUse(contacts: seq<CXref>, gone: set<CXref>, now: int, routeLists: map<nat, seq<CgrRoute>>)
    requires CacheWithin(ContactSet(contacts) + gone, now, routeLists) && gone !! ContactSet(contacts)
    ensures CoherentBut(gone, contacts, now, routeLists)
  {
  }

  ghost predicate CacheSound(routeLists: map<nat, seq<CgrRoute>>) {
    forall t :: t in routeLists ==> ListSound(routeLists[t])
  }

  /** Time may pass, and contacts that are over may go: no route in force lists those. */
  lemma StillWithin(known: set<CXref>, known': set<CXref>, now: int, later: int, routeLists: map<nat, seq<CgrRoute>>)
    requires CacheSound(routeLists) && CacheWithin(known, now, routeLists) && now <= later
    requires forall c :: c in known && c.toTime > now ==> c in known'
    ensures CacheWithin(known', later, routeLists)
  {
    forall r, h | InForce(later, routeLists, r) && h in r.hops
      ensures h in known'
    {
      assert InForce(now, routeLists, r) && RouteSound(r);
      EarliestEndIsLeast(r.hops);
    }
  }

  lemma AddedKeeps(rows: Contacts, rows': Contacts, row: Row<CXref>, c: CXref)
    requires Added(rows, rows', row) && c in ContactsOf(rows')
    ensures c in ContactsOf(rows) || c == row.rec
  {
    var n := Position(KeysOf(rows, ContactKey), ContactKey(row.rec));
    SplicedSet(rows, n, row);
    ContactsOfRow(rows, c);
    ContactsOfRow(rows', c);
  }

  lemma AddedContains(rows: Contacts, rows': Contacts, row: Row<CXref>, c: CXref)
    requires Added(rows, rows', row) && c in ContactsOf(rows)
    ensures c in ContactsOf(rows')
  {
    var n := Position(KeysOf(rows, ContactKey), ContactKey(row.rec));
    SplicedSet(rows, n, row);
    ContactsOfRow(rows, c);
    ContactsOfRow(rows', c);
  }

  /** Of the contacts removed, those that are not over yet. */
  ghost function Alive(gone: set<Row<CXref>>, now: int): set<CXref> {
    set r | r in gone && r.rec.toTime > now :: r.rec
  }

  /** The plan notes an edit when one of the contacts it removes is not over. */
  lemma AliveEdited(gone: set<Row<CXref>>, now: int)
    ensures Alive(gone, now) != {} <==> exists r :: r in gone && r.rec.toTime > now
  {
    if r :| r in gone && r.rec.toTime > now {
      assert r.rec in Alive(gone, now);
    }
  }

  lemma InsertionFits(rows: Contacts, rows': Contacts, row: Row<CXref>)
    requires AllFit(ContactsOf(rows)) && (rows' == rows || (Added(rows, rows', row) && Fits32(row.rec)))
    ensures AllFit(ContactsOf(rows')) && ContactSet(ContactsOf(rows)) <= ContactSet(ContactsOf(rows'))
  {
    if rows' != rows {
      forall c | c in ContactsOf(rows')
        ensures Fits32(c)
      {
        AddedKeeps(rows, rows', row, c);
      }
      forall c | c in ContactsOf(rows)
        ensures c in ContactsOf(rows')
      {
        AddedContains(rows, rows', row, c);
      }
    }
  }

  lemma SameContactSameRow(rows: Contacts, r: Row<CXref>, q: Row<CXref>)
    requires Keyed(rows) && r in RowSet(rows) && q in RowSet(rows) && r.rec == q.rec
    ensures r == q
  {
    var i :| 0 <= i < |rows| && rows[i] == r;
    var j :| 0 <= j < |rows| && rows[j] == q;
    assert KeysOf(rows, ContactKey)[i] == KeysOf(rows, ContactKey)[j];
  }

  /** The contacts left are those not removed: none of them equals one of those that are. */
  lemma RemovalLeaves(rows: Contacts, rows': Contacts, gone: set<Row<CXref>>, c: CXref, now: int)
    requires Keyed(rows) && gone <= RowSet(rows) && RowSet(rows') == RowSet(rows) - gone
    ensures c in ContactsOf(rows') ==> c in ContactsOf(rows) && c !in Alive(gone, now)
    ensures c in ContactsOf(rows) && c.toTime > now ==> c in ContactsOf(rows') || c in Alive(gone, now)
    ensures c in Alive(gone, now) ==> c in ContactsOf(rows)
  {
    ContactsOfRow(rows, c);
    ContactsOfRow(rows', c);
    forall r, q | r in RowSet(rows') && q in gone && r.rec == q.rec
      ensures r == q
    {
      SameContactSameRow(rows, r, q);
    }
  }

  lemma RemovalFits(rows: Contacts, rows': Contacts, gone: set<Row<CXref>>, now: int)
    requires Keyed(rows) && AllFit(ContactsOf(rows)) && gone <= RowSet(rows) && RowSet(rows') == RowSet(rows) - gone
    ensures var cs, cs' := ContactSet(ContactsOf(rows)), ContactSet(ContactsOf(rows'));
      && AllFit(ContactsOf(rows')) && cs' <= cs && Alive(gone, now) <= cs && Alive(gone, now) !! cs'
      && forall c :: c in cs && c.toTime > now ==> c in cs' + Alive(gone, now)
  {
    forall c: CXref
      ensures c in ContactsOf(rows') ==> c in ContactsOf(rows) && c !in Alive(gone, now)
      ensures c in ContactsOf(rows) && c.toTime > now ==> c in ContactsOf(rows') || c in Alive(gone, now)
      ensures c in Alive(gone, now) ==> c in ContactsOf(rows)
    {
      RemovalLeaves(rows, rows', gone, c, now);
    }
  }

  /** What a cache may list, and what of that is not in the index: a discard still to come will
      forget all of it. */
  ghost predicate Tracked(contacts: seq<CXref>, dangling: set<CXref>, pending: bool, now: int, lists: map<nat, seq<CgrRoute>>) {
    && dangling !! ContactSet(contacts)
    && (pending || CacheWithin(ContactSet(contacts) + dangling, now, lists))
  }

  /** The records were made before the one with the serial number given. */
  ghost predicate Numbered(known: set<CXref>, serial: nat) {
    forall c :: c in known ==> c.serial < serial
  }

  /** What holds of the cache, whatever happens to the node. */
  ghost predicate Caching(contacts: seq<CXref>, dangling: set<CXref>, serial: nat, edit: int, load: int, now: int,
                          lists: map<nat, seq<CgrRoute>>) {
    && AllFit(contacts) && edit <= now <= MAX_TIME && load <= now && CacheSound(lists)
    && Numbered(ContactSet(contacts) + dangling, serial)
    && Tracked(contacts, dangling, edit > load, now, lists)
  }

  /** What comes of a request to insert a contact. */
  ghost predicate Insertion(rows: Contacts, edit: int, rows': Contacts, edit': int, serial': nat, arg: CXref, row: Row<CXref>,
                            prob: real, now: int) {
    if arg.WellFormed() && 0.0 < prob <= 1.0 && ContactKey(arg) !in KeysOf(rows, ContactKey) && !OverlapsSome(rows, arg)
    then Added(rows, rows', row) && edit' == (if arg.toTime > now then now else edit) && serial' == arg.serial + 1
    else rows' == rows && edit' == edit && serial' == arg.serial
  }

  /** A record just made is none of those that dangle. */
  lemma InsertionNumbered(rows: Contacts, edit: int, rows': Contacts, edit': int, serial': nat, arg: CXref, row: Row<CXref>,
                          prob: real, dangling: set<CXref>, now: int)
    requires Numbered(ContactSet(ContactsOf(rows)) + dangling, arg.serial) && dangling !! ContactSet(ContactsOf(rows))
    requires row.rec.serial == arg.serial && Insertion(rows, edit, rows', edit', serial', arg, row, prob, now)
    ensures Numbered(ContactSet(ContactsOf(rows')) + dangling, serial') && dangling !! ContactSet(ContactsOf(rows'))
  {
    forall c | c in ContactSet(ContactsOf(rows'))
      ensures c.serial < serial' && c !in dangling
    {
      if rows' != rows {
        AddedKeeps(rows, rows', row, c);
      }
    }
  }

  lemma InsertionTracked(rows: Contacts, edit: int, rows': Contacts, edit': int, serial': nat, arg: CXref, row: Row<CXref>,
                         prob: real, dangling: set<CXref>, now: int, load: int, lists: map<nat, seq<CgrRoute>>)
    requires Caching(ContactsOf(rows), dangling, arg.serial, edit, load, now, lists)
    requires Fits32(row.rec) && row.rec.serial == arg.serial
    requires Insertion(rows, edit, rows', edit', serial', arg, row, prob, now)
    ensures Caching(ContactsOf(rows'), dangling, serial', edit', load, now, lists)
  {
    InsertionFits(rows, rows', row);
    InsertionNumbered(rows, edit, rows', edit', serial', arg, row, prob, dangling, now);
    var cs, cs' := ContactSet(ContactsOf(rows)), ContactSet(ContactsOf(rows'));
    if edit' <= load {
      StillWithin(cs + dangling, cs' + dangling, now, now, lists);
    }
  }

  /** The contacts whose removal now does not lead to a discard. */
  ghost function Unnoticed(gone: set<Row<CXref>>, now: int, lastLoadTime: int): set<CXref> {
    if lastLoadTime == now then Alive(gone, now) else {}
  }

  lemma RemovalTracked(rows: Contacts, timeline: Timeline, edit: int, rows': Contacts, timeline': Timeline, edit': int,
                       gone: set<Row<CXref>>, dangling: set<CXref>, serial: nat, now: int, load: int,
                       lists: map<nat, seq<CgrRoute>>)
    requires Caching(ContactsOf(rows), dangling, serial, edit, load, now, lists)
    requires Keyed(rows) && Removal(rows, timeline, edit, rows', timeline', edit', gone, now)
    ensures Caching(ContactsOf(rows'), dangling + Unnoticed(gone, now, load), serial, edit', load, now, lists)
  {
    RemovalFits(rows, rows', gone, now);
    AliveEdited(gone, now);
    var cs, cs' := ContactSet(ContactsOf(rows)), ContactSet(ContactsOf(rows'));
    if edit' <= load {
      StillWithin(cs + dangling, cs' + (dangling + Unnoticed(gone, now, load)), now, now, lists);
    }
  }

  /** The walk of one list leaves the cache listing what it did, and indexed contacts. */
  lemma WalkTracked(contacts: seq<CXref>, ranges: seq<RXref>, own: nat, serial: nat, edit: int, load: int, now: int, at: int,
                    terminus: nat, dangling: set<CXref>, lists: map<nat, seq<CgrRoute>>, lists': map<nat, seq<CgrRoute>>, was: seq<CgrRoute>)
    requires Caching(contacts, dangling, serial, edit, load, now, lists) && edit <= load
    requires OnlyListOf(terminus, lists, lists') && ListSound(lists'[terminus]) && at >= 0
    requires StartsFrom(contacts, ranges, own, at, terminus, lists, was)
    requires Updated(contacts, ranges, own, at, terminus, was, lists'[terminus])
    ensures Caching(contacts, dangling, serial, edit, load, now, lists') && CoherentBut(dangling, contacts, now, lists')
  {
    var known := ContactSet(contacts) + dangling;
    if terminus !in lists {
      ListStartsSound(contacts, ranges, own, at, terminus, was);
    }
    forall r, h | InForce(now, lists', r) && h in r.hops
      ensures h in known
    {
      if !InForce(now, lists, r) {
        assert r in lists'[terminus] && (terminus in lists ==> r !in was);
        if r !in was {
          ReplacementUsesOnly(contacts, ranges, own, at, terminus, was, lists'[terminus], r);
        }
      }
    }
    CoherentUnlessInUse(contacts, dangling, now, lists');
  }

  class Forwarder {
    const plan: Plan
    const cgr: Cgr
    var clock: nat
    var lastLoadTime: int
    ghost var dangling: set<CXref>  // records removed before they were over, in the second of the last discard

    ghost predicate Valid()
      reads this, plan, plan.contactIndex, plan.contactIndex.rbt, plan.timeline, plan.timeline.rbt, cgr
    {
      && plan.Valid() && cgr.Valid() && plan.ownNode == cgr.localNode
      && cgr.contacts == ContactsOf(plan.contactIndex.rows)
      && Caching(cgr.contacts, dangling, plan.nextSerial, plan.lastEditTime, lastLoadTime, clock, cgr.routeLists)
    }

    constructor (ownNode: nat, maxClockError: int)
      ensures Valid() && clock == 0 && lastLoadTime == 0 && dangling == {}
      ensures cgr.localNode == ownNode && cgr.contacts == [] && cgr.routeLists == map[] && plan.contactIndex.rows == []
      ensures fresh(plan) && fresh(plan.contactIndex) && fresh(plan.contactIndex.rbt)
      ensures fresh(plan.timeline) && fresh(plan.timeline.rbt) && fresh(cgr)
    {
      plan := new Plan(ownNode, maxClockError);
      cgr := new Cgr(ownNode);
      clock, lastLoadTime, dangling := 0, 0, {};
    }

    method Tick(seconds: nat)
      requires Valid() && clock + seconds <= MAX_TIME
      modifies this`clock
      ensures Valid() && clock == old(clock) + seconds
    {
      ghost var known := ContactSet(cgr.contacts) + dangling;
      if CacheWithin(known, clock, cgr.routeLists) {
        StillWithin(known, known, clock, clock + seconds, cgr.routeLists);
      }
      clock := clock + seconds;
    }

    /** Route computations see the contacts as they now are in the index. */
    method Reload()
      requires plan.Valid() && RangesOrdered(cgr.ranges)
      modifies cgr`contacts, cgr`work
      ensures cgr.Valid() && cgr.contacts == ContactsOf(plan.contactIndex.rows)
    {
      var rows := plan.contactIndex.ScanAll();
      ContactsOfOrdered(rows);
      var contacts := seq(|rows|, i requires 0 <= i < |rows| => rows[i].rec);
      cgr.TakeContacts(contacts);
    }

    method InsertContact(fromTime: int, toTime: int, fromNode: nat, toNode: nat, xmitRate: nat, prob: real)
      returns (ghost cxaddr: RbTree.Addr)
      requires Valid() && toTime <= MAX_TIME && xmitRate <= MAX_TIME
      modifies plan`lastEditTime, plan`nextSerial, plan.contactIndex, plan.contactIndex.rbt, plan.timeline, plan.timeline.rbt
      modifies cgr`contacts, cgr`work
      ensures Valid()
      ensures var arg := CXref(fromNode, toNode, fromTime, toTime, xmitRate, 0, 0, 0, 0, 0, old(plan.nextSerial));
        Insertion(old(plan.contactIndex.rows), old(plan.lastEditTime), plan.contactIndex.rows, plan.lastEditTime,
                  plan.nextSerial, arg, Row(cxaddr, arg.WithEventTimes(plan.ownNode, plan.maxClockError)), prob, clock)
    {
      ghost var rows, edit := plan.contactIndex.rows, plan.lastEditTime;
      ghost var arg := CXref(fromNode, toNode, fromTime, toTime, xmitRate, 0, 0, 0, 0, 0, plan.nextSerial);
      var added := plan.InsertContact(fromTime, toTime, fromNode, toNode, xmitRate, prob, clock);
      cxaddr := added;
      Reload();
      InsertionTracked(rows, edit, plan.contactIndex.rows, plan.lastEditTime, plan.nextSerial, arg,
                       Row(cxaddr, arg.WithEventTimes(plan.ownNode, plan.maxClockError)), prob,
                       dangling, clock, lastLoadTime, cgr.routeLists);
    }

    method RemoveContact(fromTime: int, fromNode: nat, toNode: nat)
      requires Valid()
      modifies this`dangling, plan`lastEditTime, plan.contactIndex, plan.contactIndex.rbt, plan.timeline, plan.timeline.rbt
      modifies cgr`contacts, cgr`work
      ensures Valid()
      ensures Removal(old(plan.contactIndex.rows), old(plan.timeline.rows), old(plan.lastEditTime),
                      plan.contactIndex.rows, plan.timeline.rows, plan.lastEditTime,
                      Covered(old(plan.contactIndex.rows), fromTime, fromNode, toNode), clock)
      ensures dangling == old(dangling) + Unnoticed(Covered(old(plan.contactIndex.rows), fromTime, fromNode, toNode), clock, lastLoadTime)
    {
      ghost var rows, timeline, edit := plan.contactIndex.rows, plan.timeline.rows, plan.lastEditTime;
      ghost var gone := Covered(rows, fromTime, fromNode, toNode);
      plan.RemoveContact(fromTime, fromNode, toNode, clock);
      Reload();
      RemovalTracked(rows, timeline, edit, plan.contactIndex.rows, plan.timeline.rows, plan.lastEditTime,
                     gone, dangling, plan.nextSerial, clock, lastLoadTime, cgr.routeLists);
      dangling := dangling + Unnoticed(gone, clock, lastLoadTime);
    }

    /** Ranges are edited in some way; that may or may not be noted as an edit. */
    method EditRanges(ranges: seq<RXref>, noted: bool)
      requires Valid() && RangesOrdered(ranges)
      modifies cgr`ranges, plan`lastEditTime
      ensures Valid() && cgr.ranges == ranges && plan.lastEditTime == if noted then clock else old(plan.lastEditTime)
    {
      cgr.ranges := ranges;
      if noted {
        plan.lastEditTime := clock;
      }
    }

    /** Discard all cached routes if the plan was edited in a later second than that of the last discard. */
    method CheckCache()
      requires Valid()
      modifies this`lastLoadTime, this`dangling, cgr`routeLists
      ensures Valid() && plan.lastEditTime <= lastLoadTime
      ensures CoherentBut(dangling, cgr.contacts, clock, cgr.routeLists)
      ensures if plan.lastEditTime > old(lastLoadTime)
              then cgr.routeLists == map[] && lastLoadTime == clock && dangling == {}
              else cgr.routeLists == old(cgr.routeLists) && lastLoadTime == old(lastLoadTime) && dangling == old(dangling)
    {
      if plan.lastEditTime > lastLoadTime {
        cgr.DiscardRouteLists();
        lastLoadTime := clock;
        dangling := {};
      }
      CoherentUnlessInUse(cgr.contacts, dangling, clock, cgr.routeLists);
    }

    /** Choose the neighbor to forward a bundle to; the time may be another one in a preview. */
    method Forward(terminus: nat, rq: Request)
      returns (selected: Option<ProximateNode>, ghost tried: seq<CgrRoute>, ghost stop: int, ghost was: seq<CgrRoute>,
               ghost run: seq<seq<CgrRoute>>)
      requires Valid() && rq.Valid()
      modifies this`lastLoadTime, this`dangling, cgr`work, cgr`routeLists, cgr`proximateNodes
      ensures Valid() && CoherentBut(dangling, cgr.contacts, clock, cgr.routeLists)
      ensures if plan.lastEditTime > old(lastLoadTime) then lastLoadTime == clock && dangling == {}
              else lastLoadTime == old(lastLoadTime) && dangling == old(dangling)
      ensures terminus in cgr.routeLists && WalkOver(cgr.localNode, rq, cgr.routeLists[terminus], tried, stop)
      ensures StartsFrom(cgr.contacts, cgr.ranges, cgr.localNode, rq.now, terminus,
                         if plan.lastEditTime > old(lastLoadTime) then map[] else old(cgr.routeLists), was)
      ensures Evolved(cgr.contacts, cgr.ranges, cgr.localNode, rq, terminus, was, cgr.routeLists[terminus])
      ensures Run(cgr.contacts, cgr.ranges, cgr.localNode, rq, terminus, was, cgr.routeLists[terminus], run)
      ensures Chosen(cgr.contacts, cgr.ranges, cgr.localNode, rq, tried, selected)
      ensures Provided(rq, tried, selected)
    {
      CheckCache();
      selected, tried, stop, was, run := Choose(terminus, rq);
    }

    method Choose(terminus: nat, rq: Request)
      returns (selected: Option<ProximateNode>, ghost tried: seq<CgrRoute>, ghost stop: int, ghost was: seq<CgrRoute>,
               ghost run: seq<seq<CgrRoute>>)
      requires Valid() && rq.Valid() && plan.lastEditTime <= lastLoadTime
      modifies cgr`work, cgr`routeLists, cgr`proximateNodes
      ensures Valid() && CoherentBut(dangling, cgr.contacts, clock, cgr.routeLists)
      ensures terminus in cgr.routeLists && WalkOver(cgr.localNode, rq, cgr.routeLists[terminus], tried, stop)
      ensures StartsFrom(cgr.contacts, cgr.ranges, cgr.localNode, rq.now, terminus, old(cgr.routeLists), was)
      ensures Evolved(cgr.contacts, cgr.ranges, cgr.localNode, rq, terminus, was, cgr.routeLists[terminus])
      ensures Run(cgr.contacts, cgr.ranges, cgr.localNode, rq, terminus, was, cgr.routeLists[terminus], run)
      ensures Chosen(cgr.contacts, cgr.ranges, cgr.localNode, rq, tried, selected)
      ensures Provided(rq, tried, selected)
    {
      ghost var lists := cgr.routeLists;
      selected, tried, stop, was, run := cgr.ChooseNeighbor(terminus, rq);
      WalkTracked(cgr.contacts, cgr.ranges, cgr.localNode, plan.nextSerial, plan.lastEditTime, lastLoadTime, clock, rq.now, terminus,
                  dangling, lists, cgr.routeLists, was);
    }
  }

  // ---------------------------------------------------------- an edit that goes unnoticed

  lemma ContactCovered(rows: Contacts, x: CXref, now: int)
    requires x in ContactsOf(rows) && x.WellFormed() && x.toTime > now
    ensures x in Alive(Covered(rows, x.fromTime, x.fromNode, x.toNode), now)
  {
    ContactsOfRow(rows, x);
    var r :| r in RowSet(rows) && r.rec == x;
    assert Removable(r.rec, x.fromTime, x.fromNode, x.toNode);
  }

  lemma InUseNotOver(x: CXref, now: int, lists: map<nat, seq<CgrRoute>>)
    requires CacheSound(lists) && InUse({x}, now, lists)
    ensures x.toTime > now && forall gone :: x in gone ==> InUse(gone, now, lists)
  {
    var r, h :| InForce(now, lists, r) && h in r.hops && h in {x};
    assert RouteSound(r);
    EarliestEndIsLeast(r.hops);
  }

  /** In the second of a discard, removing a contact that a route in force lists goes unnoticed. */
  method RemoveInUse(f: Forwarder, x: CXref)
    requires f.Valid() && f.lastLoadTime == f.clock && x in f.cgr.contacts && InUse({x}, f.clock, f.cgr.routeLists)
    modifies f`lastLoadTime, f`dangling, f.cgr`contacts, f.cgr`work, f.cgr`routeLists
    modifies f.plan`lastEditTime, f.plan.contactIndex, f.plan.contactIndex.rbt, f.plan.timeline, f.plan.timeline.rbt
    ensures f.Valid() && f.lastLoadTime == f.clock && InUse(f.dangling, f.clock, f.cgr.routeLists)
    ensures !CacheCoherent(f.cgr.contacts, f.clock, f.cgr.routeLists)
    ensures RowSet(f.plan.contactIndex.rows)
         == RowSet(old(f.plan.contactIndex.rows)) - Covered(old(f.plan.contactIndex.rows), x.fromTime, x.fromNode, x.toNode)
  {
    InUseNotOver(x, f.clock, f.cgr.routeLists);
    ContactCovered(f.plan.contactIndex.rows, x, f.clock);
    f.RemoveContact(x.fromTime, x.fromNode, x.toNode);
    f.CheckCache();
  }

  /** Inserting the same contact again does not help: it is another record. */
  method ReinsertInUse(f: Forwarder, fromTime: int, toTime: int, fromNode: nat, toNode: nat, xmitRate: nat)
    requires f.Valid() && f.lastLoadTime == f.clock && InUse(f.dangling, f.clock, f.cgr.routeLists)
    requires toTime <= MAX_TIME && xmitRate <= MAX_TIME
    requires f.plan.contactIndex.rows == [] && 0 != fromTime < toTime && fromNode != 0 && toNode != 0
    modifies f`lastLoadTime, f`dangling, f.cgr`contacts, f.cgr`work, f.cgr`routeLists, f.plan`lastEditTime, f.plan`nextSerial
    modifies f.plan.contactIndex, f.plan.contactIndex.rbt, f.plan.timeline, f.plan.timeline.rbt
    ensures f.Valid() && !CacheCoherent(f.cgr.contacts, f.clock, f.cgr.routeLists)
    ensures Key(fromNode, toNode, fromTime) in ContactKeys(f.cgr.contacts)
  {
    ghost var arg := CXref(fromNode, toNode, fromTime, toTime, xmitRate, 0, 0, 0, 0, 0, f.plan.nextSerial);
    ghost var edit := f.plan.lastEditTime;
    ghost var cxaddr := f.InsertContact(fromTime, toTime, fromNode, toNode, xmitRate, 1.0);
    ghost var row := Row(cxaddr, arg.WithEventTimes(f.plan.ownNode, f.plan.maxClockError));
    FirstInserted(f.plan.contactIndex.rows, edit, f.plan.lastEditTime, f.plan.nextSerial, arg, row, f.clock);
    f.CheckCache();
  }

  lemma FirstInserted(rows: Contacts, was: int, edit: int, serial: nat, arg: CXref, row: Row<CXref>, now: int)
    requires arg.WellFormed() && Insertion([], was, rows, edit, serial, arg, row, 1.0, now)
    ensures ContactsOf(rows) == [row.rec] && edit == if arg.toTime > now then now else was
    ensures ContactKey(row.rec) == ContactKey(arg) ==> ContactKey(arg) in ContactKeys(ContactsOf(rows))
  {
    assert KeysOf<CXref>([], ContactKey) == [] && rows == [row];
    assert ContactKeys(ContactsOf(rows))[0] == ContactKey(row.rec);
  }

  const BUNDLE := Bundle(100, 0, 0, 0, 1000, true, 2, false)

  const LINK := RXref(1, 2, 60, 500, 1)

  lemma OneHopArrives(p: Problem, i: nat, terminus: nat, owlt: nat)
    requires i < |p.contacts| && i !in p.suppressed && p.Capacity(i) >= p.floor && p.contacts[i].fromNode == p.source
    requires p.contacts[i].toNode == terminus && p.contacts[i].toTime > p.now && p.Owlt(i) == Some(owlt)
    requires Max(p.contacts[i].fromTime, p.now) + owlt + Margin(owlt) < MAX_TIME
    ensures p.Reaches([i], terminus)
  {
    assert [i][..0] == [] && p.Feasible([]) && p.EndNode([]) == p.source && p.EndTime([]) == p.now;
    assert p.InGraph([i]);
  }

  /** A contact of node 1 with node 2 in times to come. */
  predicate Coming(x: CXref) {
    x.fromNode == 1 && x.toNode == 2 && x.fromTime == 100 && x.toTime == 200 && x.xmitRate == 1000
  }

  lemma OnlyContactReaches(x: CXref, p: Problem)
    requires Coming(x) && p == Unrestricted([x], [LINK], 1, 50, 0)
    ensures exists path :: p.Reaches(path, 2)
  {
    ApplicableRangeFound([LINK], x, 0);
    OneHopArrives(p, 0, 2, 1);
  }

  /** One contact with the terminus, in range: a route by it alone is listed, and in force. */
  lemma OnlyContactListed(x: CXref, lists: map<nat, seq<CgrRoute>>, was: seq<CgrRoute>)
    requires Coming(x) && 2 in lists && RouteList([x], [LINK], 1, 50, 2, was, PAYLOAD_CLASSES - 1)
    requires Updated([x], [LINK], 1, 50, 2, was, lists[2])
    ensures InUse({x}, 50, lists)
  {
    var p := Unrestricted([x], [LINK], 1, 50, 0);
    OnlyContactReaches(x, p);
    assert FirstIsBest(p, 2, was, 0);
    var i: nat :| FirstOf(was, 0, i) && BestRoute(p, 2, was[i]);
    FreshRoute(p, 2, was[i]);
    BestRouteUsesOnly(p, 2, was[i]);
    assert was[i] in lists[2] && InForce(50, lists, was[i]);
    assert was[i].hops[0] in was[i].hops && was[i].hops[0] in [x];
  }

  method InsertComing(f: Forwarder) returns (ghost x: CXref)
    requires f.Valid() && f.plan.contactIndex.rows == [] && f.clock == 50
    modifies f.cgr`contacts, f.cgr`work, f.plan`lastEditTime, f.plan`nextSerial
    modifies f.plan.contactIndex, f.plan.contactIndex.rbt, f.plan.timeline, f.plan.timeline.rbt
    ensures f.Valid() && Coming(x) && f.cgr.contacts == [x] && f.plan.lastEditTime == 50
  {
    ghost var arg := CXref(1, 2, 100, 200, 1000, 0, 0, 0, 0, 0, f.plan.nextSerial);
    x := arg.WithEventTimes(f.plan.ownNode, f.plan.maxClockError);
    assert Coming(arg);
    ghost var edit := f.plan.lastEditTime;
    ghost var cxaddr := f.InsertContact(100, 200, 1, 2, 1000, 1.0);
    FirstInserted(f.plan.contactIndex.rows, edit, f.plan.lastEditTime, f.plan.nextSerial, arg, Row(cxaddr, x), 50);
  }

  /** A node that knows of one contact. */
  method NodeWithContact() returns (f: Forwarder, ghost x: CXref)
    ensures fresh(f) && fresh(f.plan) && fresh(f.cgr) && fresh(f.plan.contactIndex) && fresh(f.plan.contactIndex.rbt)
    ensures fresh(f.plan.timeline) && fresh(f.plan.timeline.rbt)
    ensures f.Valid() && f.clock == 50 && f.lastLoadTime == 0 && f.plan.lastEditTime == 50
    ensures Coming(x) && f.cgr.contacts == [x] && f.cgr.ranges == [LINK] && f.cgr.localNode == 1
  {
    f := new Forwarder(1, 0);
    f.Tick(50);
    x := InsertComing(f);
    f.EditRanges([LINK], false);
  }

  lemma SomeRow(rows: Contacts)
    ensures rows != [] ==> RowSet(rows) != {}
  {
    if rows != [] {
      assert rows[0] in RowSet(rows);
    }
  }

  lemma OnlyOneRemoved(rows: Contacts, x: CXref, rows': Contacts)
    requires ContactsOf(rows) == [x] && x.WellFormed()
    requires RowSet(rows') == RowSet(rows) - Covered(rows, x.fromTime, x.fromNode, x.toNode)
    ensures rows' == []
  {
    assert |rows| == 1 && rows[0].rec == ContactsOf(rows)[0] == x;
    assert Removable(rows[0].rec, x.fromTime, x.fromNode, x.toNode);
    assert rows[0] in rows && rows[0] in Covered(rows, x.fromTime, x.fromNode, x.toNode);
    assert forall r :: r in rows ==> r == rows[0];
    assert RowSet(rows') == {};
    SomeRow(rows');
  }

  /** A contact is inserted, used for forwarding, removed and inserted again in one second; then
      a route in force still lists the record removed. */
  method SameSecondRun() returns (f: Forwarder)
    ensures f.Valid() && !CacheCoherent(f.cgr.contacts, f.clock, f.cgr.routeLists)
    ensures Key(1, 2, 100) in ContactKeys(f.cgr.contacts)
  {
    ghost var x;
    f, x := NodeWithContact();
    ghost var tried, stop, was, run;
    var selected;
    selected, tried, stop, was, run := f.Forward(2, Request(BUNDLE, 50, map[], {}));
    OnlyContactListed(x, f.cgr.routeLists, was);
    ghost var rows := f.plan.contactIndex.rows;
    RemoveInUse(f, f.cgr.contacts[0]);
    OnlyOneRemoved(rows, x, f.plan.contactIndex.rows);
    ReinsertInUse(f, 100, 200, 1, 2, 1000);
  }
}
