/** Which queue holds each message of a router: one of its outducts, or limbo. */
module Custody {
  import opened Sequences

  const LIMBO_ID: int := -1
  const NONE_ID: int := -2

  class Message {
    const id: int
    const size: nat
    const to: nat
    var outductRef: int       // the outduct-reference property
    var forwardTimelimit: int // when the route chosen for it shuts down; 0 if none has been

    constructor (id: int, size: nat, to: nat)
      ensures this.id == id && this.size == size && this.to == to && outductRef == NONE_ID && forwardTimelimit == 0
    {
      this.id, this.size, this.to := id, size, to;
      outductRef, forwardTimelimit := NONE_ID, 0;
    }
  }

  // ---------------------------------------------------------- queues

  function Bytes(queue: seq<Message>): nat {
    if queue == [] then 0 else Bytes(queue[..|queue| - 1]) + queue[|queue| - 1].size
  }

  lemma {:induction false} BytesSum(a: seq<Message>, b: seq<Message>)
    ensures Bytes(a + b) == Bytes(a) + Bytes(b)
  {
    if b == [] {
      assert a + b == a;
    } else {
      assert (a + b)[..|a + b| - 1] == a + b[..|b| - 1];
      BytesSum(a, b[..|b| - 1]);
    }
  }

  /** The queue without its first occurrence of a message. */
  function Without(queue: seq<Message>, m: Message): seq<Message> {
    if queue == [] then []
    else if queue[0] == m then queue[1..]
    else [queue[0]] + Without(queue[1..], m)
  }

  lemma {:induction false} WithoutAt(queue: seq<Message>, i: nat)
    requires i < |queue| && forall j :: 0 <= j < i ==> queue[j] != queue[i]
    ensures Without(queue, queue[i]) == queue[..i] + queue[i + 1..]
  {
    if i > 0 {
      var rest := queue[1..];
      WithoutAt(rest, i - 1);
      assert queue[..i] == [queue[0]] + rest[..i - 1] && queue[i + 1..] == rest[i..];
    }
  }

  lemma BytesMiddle(a: seq<Message>, m: Message, b: seq<Message>)
    ensures Bytes((a + [m]) + b) == Bytes(a + b) + m.size
  {
    BytesSum(a + [m], b);
    BytesAppend(a, m);
    BytesSum(a, b);
  }

  lemma SplitAt(queue: seq<Message>, i: nat)
    requires i < |queue|
    ensures queue == (queue[..i] + [queue[i]]) + queue[i + 1..]
  {
  }

  lemma SplicedBytes(queue: seq<Message>, i: nat)
    requires i < |queue|
    ensures Bytes(queue[..i] + queue[i + 1..]) == Bytes(queue) - queue[i].size
  {
    var a, m, b := queue[..i], queue[i], queue[i + 1..];
    SplitAt(queue, i);
    BytesMiddle(a, m, b);
  }

  lemma BytesAppend(queue: seq<Message>, m: Message)
    ensures Bytes(queue + [m]) == Bytes(queue) + m.size
  {
    assert (queue + [m])[..|queue|] == queue;
  }

  lemma {:induction false} WithoutNone(queue: seq<Message>, m: Message)
    requires m !in queue
    ensures Without(queue, m) == queue
  {
    if queue != [] {
      WithoutNone(queue[1..], m);
    }
  }

  lemma WithoutMembers(queue: seq<Message>, m: Message)
    requires NoRepeats(queue)
    ensures NoRepeats(Without(queue, m))
    ensures forall x :: x in Without(queue, m) <==> x in queue && x != m
  {
    if m in queue {
      var i :| 0 <= i < |queue| && queue[i] == m;
      WithoutAt(queue, i);
      SplicedMembers(queue, i);
    } else {
      WithoutNone(queue, m);
    }
  }

  lemma WithoutMember(queue: seq<Message>, m: Message, x: Message)
    requires NoRepeats(queue)
    ensures x in Without(queue, m) <==> x in queue && x != m
  {
    WithoutMembers(queue, m);
  }

  lemma SplicedMembers(queue: seq<Message>, i: nat)
    requires NoRepeats(queue) && i < |queue|
    ensures NoRepeats(queue[..i] + queue[i + 1..])
    ensures forall x :: x in queue[..i] + queue[i + 1..] <==> x in queue && x != queue[i]
  {
    var rest := queue[..i] + queue[i + 1..];
    forall x | x in queue && x != queue[i]
      ensures x in rest
    {
      var j :| 0 <= j < |queue| && queue[j] == x;
      assert rest[if j < i then j else j - 1] == x;
    }
  }

  class Outduct {
    const host: int  // the neighbor, or LIMBO_ID
    var queue: seq<Message>
    var totalEnqueuedBytes: int

    constructor (host: int)
      ensures this.host == host && queue == [] && totalEnqueuedBytes == 0
    {
      this.host, queue, totalEnqueuedBytes := host, [], 0;
    }

    method ContainsMessage(m: Message) returns (found: bool)
      ensures found <==> exists x :: x in queue && x.id == m.id
    {
      var i := 0;
      while i < |queue|
        invariant 0 <= i <= |queue| && forall j :: 0 <= j < i ==> queue[j].id != m.id
      {
        if queue[i].id == m.id {
          assert queue[i] in queue;
          return true;
        }
        i := i + 1;
      }
      found := false;
    }

    method RemoveMessage(m: Message)
      modifies this`queue, this`totalEnqueuedBytes, m`outductRef
      ensures queue == Without(old(queue), m)
      ensures m in old(queue) ==> m.outductRef == NONE_ID && totalEnqueuedBytes == old(totalEnqueuedBytes) - m.size
      ensures m in old(queue) ==> Bytes(queue) == Bytes(old(queue)) - m.size
      ensures m !in old(queue) ==> m.outductRef == old(m.outductRef) && totalEnqueuedBytes == old(totalEnqueuedBytes)
    {
      var i := 0;
      while i < |queue|
        invariant 0 <= i <= |queue| && queue == old(queue) && forall j :: 0 <= j < i ==> queue[j] != m
        invariant m.outductRef == old(m.outductRef) && totalEnqueuedBytes == old(totalEnqueuedBytes)
      {
        if queue[i] == m {
          WithoutAt(queue, i);
          SplicedBytes(queue, i);
          queue := queue[..i] + queue[i + 1..];
          m.outductRef := NONE_ID;
          totalEnqueuedBytes := totalEnqueuedBytes - m.size;
          return;
        }
        i := i + 1;
      }
      WithoutNone(queue, m);
    }
  }

  // ---------------------------------------------------------- custody

  /** The queues by their numbers, limbo among them; the outduct reference of each buffered
      message, and when its route shuts down, by message id; and the outducts' byte counters. */
  datatype State = State(queues: map<int, seq<Message>>, refs: map<int, int>, limits: map<int, int>, counts: map<int, int>)

  /** A queue's messages are buffered ones that refer to it, each once. */
  ghost predicate Holds(s: State, ms: map<int, Message>, q: int)
    requires q in s.queues
  {
    && NoRepeats(s.queues[q])
    && forall m :: m in s.queues[q] ==> m.id in ms && ms[m.id] == m && m.id in s.refs && s.refs[m.id] == q
  }

  /** A buffered message that refers to a queue is in it. */
  ghost predicate Refers(s: State, m: Message) {
    && m.id in s.refs && m.id in s.limits
    && (s.refs[m.id] == NONE_ID || (s.refs[m.id] in s.queues && m in s.queues[s.refs[m.id]]))
  }

  ghost predicate Counted(s: State, h: int) {
    h in s.queues && h in s.counts && s.counts[h] == Bytes(s.queues[h])
  }

  /** Every message of an outduct has been routed, until some time. */
  ghost predicate AllRouted(s: State, q: int) {
    q in s.queues && forall m :: m in s.queues[q] ==> m.id in s.limits && s.limits[m.id] > 0
  }

  /** Custody is in order, if ms are the buffered messages; limbo's counter is not kept. */
  ghost predicate InOrder(s: State, ms: map<int, Message>) {
    && LIMBO_ID in s.queues && NONE_ID !in s.queues
    && (forall q :: q in s.queues ==> Holds(s, ms, q))
    && (forall q :: q in s.queues && q != LIMBO_ID ==> Counted(s, q) && AllRouted(s, q))
    && (forall id :: id in ms ==> ms[id].id == id && Refers(s, ms[id]))
  }

  ghost function Queued(s: State): set<Message> {
    set q, m | q in s.queues && m in s.queues[q] :: m
  }

  /** A buffered message is in the queue its property names, and in no other. */
  lemma OneQueue(s: State, ms: map<int, Message>, id: int)
    requires InOrder(s, ms) && id in ms
    ensures forall q :: q in s.queues ==> (s.refs[id] == q <==> ms[id] in s.queues[q])
    ensures s.refs[id] == NONE_ID <==> ms[id] !in Queued(s)
  {
    assert Refers(s, ms[id]);
    forall q | q in s.queues && ms[id] in s.queues[q]
      ensures s.refs[id] == q
    {
      assert Holds(s, ms, q);
    }
  }

  lemma QueuedBuffered(s: State, ms: map<int, Message>, m: Message)
    requires InOrder(s, ms) && m in Queued(s)
    ensures m.id in ms && ms[m.id] == m
  {
    var q :| q in s.queues && m in s.queues[q];
    assert Holds(s, ms, q);
  }

  /** The message leaves a queue. */
  function Taken(s: State, q: int, m: Message): State
    requires q in s.queues
  {
    State(s.queues[q := Without(s.queues[q], m)], s.refs[m.id := NONE_ID], s.limits,
          if q in s.counts then s.counts[q := s.counts[q] - m.size] else s.counts)
  }

  /** The message, with a route that shuts down at some time, joins a queue that counts its
      bytes, or limbo, which does not. */
  function Put(s: State, q: int, m: Message, limit: int): State
    requires q in s.queues
  {
    State(s.queues[q := s.queues[q] + [m]], s.refs[m.id := q], s.limits[m.id := limit],
          if q in s.counts && q != LIMBO_ID then s.counts[q := s.counts[q] + m.size] else s.counts)
  }

  /** The message goes to limbo, from a queue if it is there. */
  function Returned(s: State, q: int, m: Message, limit: int): State
    requires LIMBO_ID in s.queues
  {
    Put(if q in s.queues && m in s.queues[q] then Taken(s, q, m) else s, LIMBO_ID, m, limit)
  }

  lemma TakenHolds(s: State, ms: map<int, Message>, q: int, m: Message, p: int)
    requires InOrder(s, ms) && q in s.queues && m in s.queues[q] && p in s.queues
    ensures Holds(Taken(s, q, m), ms, p)
  {
    var s' := Taken(s, q, m);
    assert Holds(s, ms, q) && Holds(s, ms, p);
    WithoutMembers(s.queues[q], m);
    forall x | x in s'.queues[p]
      ensures x.id in ms && ms[x.id] == x && x.id in s'.refs && s'.refs[x.id] == p
    {
      WithoutMember(s.queues[q], m, x);
    }
  }

  lemma TakenRefers(s: State, ms: map<int, Message>, q: int, m: Message, id: int)
    requires InOrder(s, ms) && q in s.queues && m in s.queues[q] && id in ms
    ensures Refers(Taken(s, q, m), ms[id])
  {
    assert Holds(s, ms, q) && Refers(s, ms[id]);
    WithoutMembers(s.queues[q], m);
  }

  lemma TakenQueued(s: State, ms: map<int, Message>, q: int, m: Message, x: Message)
    requires InOrder(s, ms) && q in s.queues && m in s.queues[q]
    ensures x in Queued(Taken(s, q, m)) <==> x in Queued(s) && x != m
  {
    var s' := Taken(s, q, m);
    assert Holds(s, ms, q);
    WithoutMembers(s.queues[q], m);
    if x in Queued(s) && x != m {
      var p :| p in s.queues && x in s.queues[p];
      assert x in s'.queues[p];
    }
    if x in Queued(s') {
      var p :| p in s'.queues && x in s'.queues[p];
      assert x in s.queues[p] && Holds(s, ms, p);
    }
  }

  lemma TakenRouted(s: State, ms: map<int, Message>, q: int, m: Message, p: int)
    requires InOrder(s, ms) && q in s.queues && m in s.queues[q] && p in s.queues && p != LIMBO_ID
    ensures AllRouted(Taken(s, q, m), p)
  {
    var s' := Taken(s, q, m);
    assert AllRouted(s, p) && Holds(s, ms, q);
    forall x | x in s'.queues[p]
      ensures x in s.queues[p]
    {
      WithoutMember(s.queues[q], m, x);
    }
  }

  lemma TakenInOrder(s: State, ms: map<int, Message>, q: int, m: Message)
    requires InOrder(s, ms) && q in s.queues && m in s.queues[q]
    ensures InOrder(Taken(s, q, m), ms) && Queued(Taken(s, q, m)) == Queued(s) - {m}
  {
    assert Holds(s, ms, q);
    WithoutBytes(s.queues[q], m);
    forall p | p in s.queues
      ensures Holds(Taken(s, q, m), ms, p) && (p != LIMBO_ID ==> Counted(Taken(s, q, m), p))
    {
      TakenHolds(s, ms, q, m, p);
      assert p != LIMBO_ID ==> Counted(s, p);
    }
    forall p | p in s.queues && p != LIMBO_ID
      ensures AllRouted(Taken(s, q, m), p)
    {
      TakenRouted(s, ms, q, m, p);
    }
    forall id | id in ms
      ensures Refers(Taken(s, q, m), ms[id])
    {
      TakenRefers(s, ms, q, m, id);
    }
    forall x
      ensures x in Queued(Taken(s, q, m)) <==> x in Queued(s) && x != m
    {
      TakenQueued(s, ms, q, m, x);
    }
  }

  lemma PutHolds(s: State, ms: map<int, Message>, q: int, m: Message, limit: int, p: int)
    requires InOrder(s, ms) && q in s.queues && m !in Queued(s) && (m.id in ms ==> ms[m.id] == m) && p in s.queues
    ensures Holds(Put(s, q, m, limit), ms[m.id := m], p)
  {
    var s' := Put(s, q, m, limit);
    assert Holds(s, ms, p) && m !in s.queues[p];
    AppendNoRepeats(s.queues[p], m);
    forall x | x in s'.queues[p]
      ensures var ms' := ms[m.id := m]; x.id in ms' && ms'[x.id] == x && x.id in s'.refs && s'.refs[x.id] == p
    {
      assert x in s.queues[p] || (x == m && p == q);
    }
  }

  lemma PutRefers(s: State, ms: map<int, Message>, q: int, m: Message, limit: int, id: int)
    requires InOrder(s, ms) && q in s.queues && (m.id in ms ==> ms[m.id] == m) && id in ms[m.id := m]
    ensures ms[m.id := m][id].id == id && Refers(Put(s, q, m, limit), ms[m.id := m][id])
  {
    if id == m.id {
      assert m in Put(s, q, m, limit).queues[q];
    } else {
      assert Refers(s, ms[id]);
    }
  }

  lemma PutQueued(s: State, q: int, m: Message, limit: int, x: Message)
    requires q in s.queues
    ensures x in Queued(Put(s, q, m, limit)) <==> x in Queued(s) || x == m
  {
    var s' := Put(s, q, m, limit);
    assert m in s'.queues[q];
    if x in Queued(s) {
      var p :| p in s.queues && x in s.queues[p];
      assert x in s'.queues[p];
    }
    if x in Queued(s') && x != m {
      var p :| p in s'.queues && x in s'.queues[p];
      assert x in s.queues[p];
    }
  }

  lemma PutCounted(s: State, q: int, m: Message, limit: int, p: int)
    requires q in s.queues && p != LIMBO_ID && Counted(s, p)
    ensures Counted(Put(s, q, m, limit), p)
  {
    var queues, counts := Put(s, q, m, limit).queues, Put(s, q, m, limit).counts;
    if p == q {
      BytesAppend(s.queues[q], m);
      assert queues[p] == s.queues[p] + [m] && counts[p] == s.counts[p] + m.size;
    } else {
      assert queues[p] == s.queues[p] && counts[p] == s.counts[p];
    }
  }

  lemma PutRouted(s: State, ms: map<int, Message>, q: int, m: Message, limit: int, p: int)
    requires InOrder(s, ms) && q in s.queues && m !in Queued(s) && (m.id in ms ==> ms[m.id] == m)
    requires q != LIMBO_ID ==> limit > 0
    requires p in s.queues && p != LIMBO_ID
    ensures AllRouted(Put(s, q, m, limit), p)
  {
    var s' := Put(s, q, m, limit);
    assert AllRouted(s, p) && Holds(s, ms, p);
    forall x | x in s'.queues[p]
      ensures x.id in s'.limits && s'.limits[x.id] > 0
    {
      if x in s.queues[p] {
        assert x != m && x.id != m.id;
      } else {
        assert x == m && p == q;
      }
    }
  }

  lemma AllQueued(s: State, q: int, m: Message, limit: int)
    requires q in s.queues
    ensures Queued(Put(s, q, m, limit)) == Queued(s) + {m}
  {
    forall x
      ensures x in Queued(Put(s, q, m, limit)) <==> x in Queued(s) || x == m
    {
      PutQueued(s, q, m, limit, x);
    }
  }

  lemma PutInOrder(s: State, ms: map<int, Message>, q: int, m: Message, limit: int)
    requires InOrder(s, ms) && q in s.queues && m !in Queued(s) && (m.id in ms ==> ms[m.id] == m)
    requires q != LIMBO_ID ==> limit > 0
    ensures InOrder(Put(s, q, m, limit), ms[m.id := m]) && Queued(Put(s, q, m, limit)) == Queued(s) + {m}
  {
    var s', ms' := Put(s, q, m, limit), ms[m.id := m];
    forall p | p in s.queues
      ensures Holds(s', ms', p)
    {
      PutHolds(s, ms, q, m, limit, p);
    }
    forall p | p in s.queues && p != LIMBO_ID
      ensures Counted(s', p) && AllRouted(s', p)
    {
      assert Counted(s, p);
      PutCounted(s, q, m, limit, p);
      PutRouted(s, ms, q, m, limit, p);
    }
    forall id | id in ms'
      ensures ms'[id].id == id && Refers(s', ms'[id])
    {
      PutRefers(s, ms, q, m, limit, id);
    }
    AllQueued(s, q, m, limit);
  }

  lemma WithoutBytes(queue: seq<Message>, m: Message)
    requires NoRepeats(queue) && m in queue
    ensures Bytes(Without(queue, m)) == Bytes(queue) - m.size
  {
    var i :| 0 <= i < |queue| && queue[i] == m;
    WithoutAt(queue, i);
    SplicedBytes(queue, i);
  }

  /** Only a buffered message is queued, and only where it refers to. */
  lemma ReferredOnly(s: State, ms: map<int, Message>, m: Message)
    requires InOrder(s, ms)
    ensures forall q :: q in s.queues && m in s.queues[q] ==> m.id in ms && ms[m.id] == m && s.refs[m.id] == q
  {
    forall q | q in s.queues && m in s.queues[q]
      ensures m.id in ms && ms[m.id] == m && s.refs[m.id] == q
    {
      assert Holds(s, ms, q);
    }
  }

  /** Messages other than m are where they were. */
  ghost predicate SameElsewhere(s: State, s': State, m: Message) {
    && s'.queues.Keys == s.queues.Keys && (forall q :: q in s.queues ==> SameBut(s.queues[q], s'.queues[q], m))
    && SameProperties(s, s', m)
  }

  ghost predicate SameProperties(s: State, s': State, m: Message) {
    && (forall id :: id in s.refs && id != m.id ==> id in s'.refs && s'.refs[id] == s.refs[id])
    && (forall id :: id in s.limits && id != m.id ==> id in s'.limits && s'.limits[id] == s.limits[id])
  }

  ghost predicate SameBut(queue: seq<Message>, queue': seq<Message>, m: Message) {
    (forall x :: x in queue && x != m ==> x in queue') && (forall x :: x in queue' && x != m ==> x in queue)
  }

  lemma TakenElsewhere(s: State, q: int, m: Message)
    requires q in s.queues && NoRepeats(s.queues[q])
    ensures SameElsewhere(s, Taken(s, q, m), m)
  {
    var queue, queue' := s.queues[q], Without(s.queues[q], m);
    forall x | x in queue && x != m
      ensures x in queue'
    {
      WithoutMember(queue, m, x);
    }
    forall x | x in queue' && x != m
      ensures x in queue
    {
      WithoutMember(queue, m, x);
    }
    assert SameBut(queue, queue', m);
  }

  lemma SameTransitive(s: State, s': State, s'': State, m: Message)
    requires SameElsewhere(s, s', m) && SameElsewhere(s', s'', m)
    ensures SameElsewhere(s, s'', m)
  {
    forall q | q in s.queues
      ensures SameBut(s.queues[q], s''.queues[q], m)
    {
      assert SameBut(s.queues[q], s'.queues[q], m) && SameBut(s'.queues[q], s''.queues[q], m);
    }
  }

  /** A message is in no queue if it is not in the one it refers to. */
  lemma NotQueued(s: State, ms: map<int, Message>, m: Message, ref: int)
    requires InOrder(s, ms) && (m.id in ms && m.id in s.refs ==> s.refs[m.id] == ref) && (ref in s.queues ==> m !in s.queues[ref])
    ensures m !in Queued(s)
  {
    ReferredOnly(s, ms, m);
  }

  /** The message has been routed, until a time. */
  function Routed(s: State, m: Message, limit: int): State {
    State(s.queues, s.refs, s.limits[m.id := limit], s.counts)
  }

  lemma RoutedInOrder(s: State, ms: map<int, Message>, m: Message, limit: int)
    requires InOrder(s, ms) && limit > 0
    ensures InOrder(Routed(s, m, limit), ms) && Queued(Routed(s, m, limit)) == Queued(s)
  {
    var s' := Routed(s, m, limit);
    forall q | q in s'.queues
      ensures Holds(s', ms, q) && (q != LIMBO_ID ==> Counted(s', q) && AllRouted(s', q))
    {
      assert Holds(s, ms, q) && (q != LIMBO_ID ==> Counted(s, q) && AllRouted(s, q));
    }
    forall id | id in ms
      ensures Refers(s', ms[id])
    {
      assert Refers(s, ms[id]);
    }
  }

  lemma ReroutedTwice(s: State, s': State, s'': State, gone: seq<Message>, more: seq<Message>)
    requires Rerouted(s, s', gone) && Rerouted(s', s'', more)
    ensures Rerouted(s, s'', gone + more)
  {
    assert forall x :: x in gone || x in more <==> x in gone + more;
    forall q | q in s.queues
      ensures SameApart(s.queues[q], s''.queues[q], gone + more)
    {
      assert SameApart(s.queues[q], s'.queues[q], gone) && SameApart(s'.queues[q], s''.queues[q], more);
    }
    forall id | id in s.limits && NoneWith(id, gone + more)
      ensures id in s''.limits && s''.limits[id] == s.limits[id] && s''.refs[id] == s.refs[id]
    {
      assert NoneWith(id, gone) && NoneWith(id, more);
    }
  }

  /** A message that was not routed again is where it was, with the route it had. */
  lemma StillWaiting(s: State, s': State, ms: map<int, Message>, gone: seq<Message>, q: int, x: Message)
    requires InOrder(s, ms) && InOrder(s', ms) && Rerouted(s, s', gone) && (forall m :: m in gone ==> m in Queued(s))
    requires q in s.queues && x !in gone
    ensures x in s.queues[q] <==> x in s'.queues[q]
    ensures x in s.queues[q] ==> x.id in s.limits && x.id in s'.limits && s'.limits[x.id] == s.limits[x.id]
  {
    assert SameApart(s.queues[q], s'.queues[q], gone) && Holds(s, ms, q);
    if x in s.queues[q] {
      assert Refers(s, ms[x.id]);
      forall m | m in gone
        ensures m.id != x.id
      {
        QueuedBuffered(s, ms, m);
      }
      assert NoneWith(x.id, gone);
    }
  }

  /** A message of an outduct whose route shuts down before a time. */
  ghost predicate Late(s: State, h: int, now: int, x: Message) {
    h in s.queues && x in s.queues[h] && x.id in s.limits && now > s.limits[x.id]
  }

  ghost predicate AllIn(ms: seq<Message>, queue: seq<Message>) {
    forall m :: m in ms ==> m in queue
  }

  ghost predicate LateAre(s: State, h: int, now: int, expired: seq<Message>) {
    && h in s.queues && AllIn(expired, s.queues[h]) && (forall x :: x in expired ==> Late(s, h, now, x))
    && forall x :: x in s.queues[h] && Late(s, h, now, x) ==> x in expired
  }

  /** The message is late in one of the first n outducts. */
  ghost predicate LateAmong(s: State, hosts: seq<int>, n: int, now: int, x: Message) {
    exists k :: 0 <= k < n && k < |hosts| && Late(s, hosts[k], now, x)
  }

  ghost predicate LateAreServed(s: State, h: int, now: int, gone: seq<Message>) {
    h in s.queues ==> forall x :: x in s.queues[h] && Late(s, h, now, x) ==> x in gone
  }

  /** All that were late in the first n outducts were routed again. */
  ghost predicate LateServed(s: State, hosts: seq<int>, n: int, now: int, gone: seq<Message>) {
    forall k :: 0 <= k < n && k < |hosts| ==> LateAreServed(s, hosts[k], now, gone)
  }

  /** Exactly the messages that were late in the first n outducts have been routed again. */
  ghost predicate Checked(s: State, s': State, hosts: seq<int>, n: int, now: int, gone: seq<Message>) {
    && 0 <= n <= |hosts| && Rerouted(s, s', gone)
    && (forall m :: m in gone ==> LateAmong(s, hosts, n, now, m)) && LateServed(s, hosts, n, now, gone)
  }

  lemma CheckStarts(s: State, hosts: seq<int>, now: int) returns (gone: seq<Message>)
    requires s.limits.Keys == s.refs.Keys
    ensures gone == [] && Checked(s, s, hosts, 0, now, gone)
  {
    gone := [];
    ReroutedNone(s);
  }

  /** Exactly those that were late in some outduct. */
  ghost predicate ExactlyLate(s: State, ducts: set<int>, now: int, gone: seq<Message>) {
    && (forall h :: h in ducts ==> LateAreServed(s, h, now, gone))
    && (forall m :: m in gone ==> exists h :: h in ducts && Late(s, h, now, m))
  }

  ghost predicate RoutedAgain(s: State, s': State, ducts: set<int>, now: int, gone: seq<Message>) {
    Rerouted(s, s', gone) && ExactlyLate(s, ducts, now, gone)
  }

  /** Once all outducts are checked, exactly those that were late have been routed again. */
  lemma CheckEnds(s: State, s': State, hosts: seq<int>, ducts: set<int>, now: int, gone: seq<Message>)
    requires Checked(s, s', hosts, |hosts|, now, gone) && forall h :: h in ducts <==> h in hosts
    ensures RoutedAgain(s, s', ducts, now, gone)
  {
    forall h | h in ducts
      ensures LateAreServed(s, h, now, gone)
    {
      var k :| 0 <= k < |hosts| && hosts[k] == h;
    }
    forall m | m in gone
      ensures exists h :: h in ducts && Late(s, h, now, m)
    {
      var k :| 0 <= k < |hosts| && Late(s, hosts[k], now, m);
      assert hosts[k] in ducts;
    }
  }

  lemma LateQueued(s: State, hosts: seq<int>, n: int, now: int, gone: seq<Message>)
    requires forall m :: m in gone ==> LateAmong(s, hosts, n, now, m)
    ensures forall m :: m in gone ==> m in Queued(s)
  {
    forall m | m in gone
      ensures m in Queued(s)
    {
      var k :| 0 <= k < n && k < |hosts| && Late(s, hosts[k], now, m);
      QueuedHere(s, hosts[k], m);
    }
  }

  /** A message not routed again so far is late now if it was at the start. */
  lemma SameStanding(s: State, s': State, ms: map<int, Message>, hosts: seq<int>, n: nat, now: int, gone: seq<Message>, h: int, x: Message)
    requires InOrder(s, ms) && InOrder(s', ms) && Checked(s, s', hosts, n, now, gone) && x !in gone
    ensures Late(s, h, now, x) <==> Late(s', h, now, x)
  {
    LateQueued(s, hosts, n, now, gone);
    if h in s.queues {
      StillWaiting(s, s', ms, gone, h, x);
    }
  }

  lemma LateOneMore(s: State, hosts: seq<int>, n: nat, now: int, x: Message)
    requires n < |hosts|
    ensures LateAmong(s, hosts, n + 1, now, x) <==> LateAmong(s, hosts, n, now, x) || Late(s, hosts[n], now, x)
  {
    if k :| 0 <= k < n + 1 && Late(s, hosts[k], now, x) {
      assert k < n ==> LateAmong(s, hosts, n, now, x);
    }
  }

  lemma ServedIfLate(s: State, hosts: seq<int>, n: nat, now: int, gone: seq<Message>, x: Message)
    requires n <= |hosts| && LateServed(s, hosts, n, now, gone) && LateAmong(s, hosts, n, now, x)
    ensures x in gone
  {
    var k :| 0 <= k < n && k < |hosts| && Late(s, hosts[k], now, x);
  }

  lemma CheckedLate(s: State, s': State, ms: map<int, Message>, hosts: seq<int>, n: nat, now: int,
                    gone: seq<Message>, expired: seq<Message>, x: Message)
    requires InOrder(s, ms) && InOrder(s', ms) && n < |hosts| && Checked(s, s', hosts, n, now, gone)
    requires LateAre(s', hosts[n], now, expired)
    ensures x in gone + expired <==> LateAmong(s, hosts, n + 1, now, x)
  {
    LateOneMore(s, hosts, n, now, x);
    if LateAmong(s, hosts, n, now, x) {
      ServedIfLate(s, hosts, n, now, gone, x);
    }
    if x !in gone {
      SameStanding(s, s', ms, hosts, n, now, gone, hosts[n], x);
    }
  }

  lemma CheckedStep(s: State, s': State, s'': State, ms: map<int, Message>, hosts: seq<int>, n: nat, now: int,
                    gone: seq<Message>, expired: seq<Message>)
    requires InOrder(s, ms) && InOrder(s', ms) && n < |hosts| && Checked(s, s', hosts, n, now, gone)
    requires LateAre(s', hosts[n], now, expired) && Rerouted(s', s'', expired)
    ensures Checked(s, s'', hosts, n + 1, now, gone + expired)
  {
    ReroutedTwice(s, s', s'', gone, expired);
    forall x
      ensures x in gone + expired <==> LateAmong(s, hosts, n + 1, now, x)
    {
      CheckedLate(s, s', ms, hosts, n, now, gone, expired, x);
    }
    forall k, x | 0 <= k < n + 1 && hosts[k] in s.queues && x in s.queues[hosts[k]] && Late(s, hosts[k], now, x)
      ensures x in gone + expired
    {
      assert LateAmong(s, hosts, n + 1, now, x);
    }
  }

  lemma Associative(a: seq<Message>, b: seq<Message>, c: seq<Message>)
    ensures (a + b) + c == a + (b + c)
  {
  }

  lemma NotingElsewhere(s: State, m: Message, limit: int)
    ensures SameElsewhere(s, Routed(s, m, limit), m)
  {
  }

  lemma TakeStep(base: seq<Message>, queue: seq<Message>, i: nat)
    requires i < |queue|
    ensures base + queue[..i + 1] == (base + queue[..i]) + [queue[i]]
  {
    assert queue[..i + 1] == queue[..i] + [queue[i]];
  }

  lemma QueuedHere(s: State, q: int, m: Message)
    requires q in s.queues && m in s.queues[q]
    ensures m in Queued(s)
  {
  }

  /** Some messages were routed again; the others are where they were. */
  ghost predicate Rerouted(s: State, s': State, gone: seq<Message>) {
    && Queued(s') == Queued(s) && s'.queues.Keys == s.queues.Keys && s.limits.Keys == s.refs.Keys && s'.limits.Keys == s'.refs.Keys
    && (forall q :: q in s.queues ==> SameApart(s.queues[q], s'.queues[q], gone))
    && (forall id :: id in s.limits && NoneWith(id, gone) ==>
          id in s'.limits && s'.limits[id] == s.limits[id] && s'.refs[id] == s.refs[id])
  }

  ghost predicate NoneWith(id: int, gone: seq<Message>) {
    forall m :: m in gone ==> m.id != id
  }

  ghost predicate SameApart(queue: seq<Message>, queue': seq<Message>, gone: seq<Message>) {
    (forall x :: x in queue && x !in gone ==> x in queue') && (forall x :: x in queue' && x !in gone ==> x in queue)
  }

  lemma StillThere(s: State, s': State, h: int, gone: seq<Message>, j: nat)
    requires j < |gone| && Rerouted(s, s', gone[..j]) && NoRepeats(gone) && h in s.queues && gone[j] in s.queues[h]
    ensures h in s'.queues && gone[j] in s'.queues[h]
  {
    assert SameApart(s.queues[h], s'.queues[h], gone[..j]) && gone[j] !in gone[..j];
  }

  lemma ReroutedNone(s: State)
    requires s.limits.Keys == s.refs.Keys
    ensures Rerouted(s, s, [])
  {
  }

  lemma ReroutedStep(s: State, s': State, s'': State, gone: seq<Message>, j: nat)
    requires j < |gone| && Rerouted(s, s', gone[..j]) && SameElsewhere(s', s'', gone[j]) && s''.limits.Keys == s''.refs.Keys
    requires Queued(s'') == Queued(s')
    ensures Rerouted(s, s'', gone[..j + 1])
  {
    var m, before, after := gone[j], gone[..j], gone[..j + 1];
    assert after == before + [m];
    assert forall x :: x in after <==> x in before || x == m;
    forall q | q in s.queues
      ensures SameApart(s.queues[q], s''.queues[q], after)
    {
      assert SameApart(s.queues[q], s'.queues[q], before) && SameBut(s'.queues[q], s''.queues[q], m);
    }
    forall id | id in s.limits && NoneWith(id, after)
      ensures id in s''.limits && s''.limits[id] == s.limits[id] && s''.refs[id] == s.refs[id]
    {
      assert NoneWith(id, before) && m.id != id;
    }
  }

  /** A message in no queue can leave the buffer. */
  lemma DroppedInOrder(s: State, ms: map<int, Message>, id: int)
    requires InOrder(s, ms) && id in ms && ms[id] !in Queued(s)
    ensures InOrder(State(s.queues, s.refs - {id}, s.limits - {id}, s.counts), ms - {id})
  {
    var s', ms' := State(s.queues, s.refs - {id}, s.limits - {id}, s.counts), ms - {id};
    forall q | q in s'.queues
      ensures Holds(s', ms', q) && (q != LIMBO_ID ==> Counted(s', q) && AllRouted(s', q))
    {
      assert Holds(s, ms, q) && (q != LIMBO_ID ==> Counted(s, q) && AllRouted(s, q));
    }
    forall i | i in ms'
      ensures ms'[i].id == i && Refers(s', ms'[i])
    {
      assert Refers(s, ms[i]);
    }
  }

  lemma Requeued(s: State, s': State, s'': State, m: Message)
    requires Queued(s') == Queued(s) - {m} || s' == s
    requires Queued(s'') == Queued(s') + {m}
    ensures Queued(s'') == Queued(s) + {m}
  {
  }

  lemma ReturnedQueued(s: State, s': State, s'': State, q: int, m: Message)
    requires q in s.queues && m in s.queues[q] && SameElsewhere(s, s', m) && SameElsewhere(s', s'', m)
    requires (Queued(s') == Queued(s) - {m} || s' == s) && Queued(s'') == Queued(s') + {m}
    ensures Queued(s'') == Queued(s) && SameElsewhere(s, s'', m)
  {
    SameTransitive(s, s', s'', m);
    Requeued(s, s', s'', m);
    QueuedHere(s, q, m);
  }

  lemma PutElsewhere(s: State, q: int, m: Message, limit: int)
    requires q in s.queues
    ensures SameElsewhere(s, Put(s, q, m, limit), m)
  {
  }

  lemma ValuesUpdated<V>(m: map<int, V>, k: int, v: V)
    ensures m[k := v].Values <= m.Values + {v}
  {
  }

  /** From limbo, the message went to the end of an outduct's queue; the rest is as it was. */
  ghost predicate Moved(s: State, s': State, h: int, m: Message) {
    && s'.queues.Keys == s.queues.Keys && s'.counts.Keys == s.counts.Keys && s'.refs.Keys == s.refs.Keys && s'.limits == s.limits
    && LIMBO_ID in s.queues && h in s.queues && h in s.counts && h != LIMBO_ID && m.id in s.refs
    && s'.queues[LIMBO_ID] == Without(s.queues[LIMBO_ID], m) && s'.queues[h] == s.queues[h] + [m]
    && s'.counts[h] == s.counts[h] + m.size && s'.refs[m.id] == h
    && (forall q :: q in s.queues && q != LIMBO_ID && q != h ==> s'.queues[q] == s.queues[q])
    && (forall q :: q in s.counts && q != h ==> s'.counts[q] == s.counts[q])
    && (forall id :: id in s.refs && id != m.id ==> s'.refs[id] == s.refs[id])
  }

  ghost predicate MovedIf(moved: bool, s: State, s': State, h: int, m: Message) {
    if moved then Moved(s, s', h, m) else s' == s
  }

  /** Moving a message that is in limbo to another queue. */
  lemma MoveInOrder(s: State, ms: map<int, Message>, h: int, m: Message) returns (s': State)
    requires InOrder(s, ms) && h in s.queues && h != LIMBO_ID && m in s.queues[LIMBO_ID] && LIMBO_ID !in s.counts
    requires m.id in s.limits && s.limits[m.id] > 0
    ensures Moved(s, s', h, m) && InOrder(s', ms) && Queued(s') == Queued(s) && SameElsewhere(s, s', m)
    ensures m.id in ms && ms[m.id] == m
  {
    QueuedBuffered(s, ms, m);
    TakenInOrder(s, ms, LIMBO_ID, m);
    assert Refers(s, ms[m.id]) && ms[m.id := m] == ms && Holds(s, ms, LIMBO_ID) && Counted(s, h);
    var limit, mid := s.limits[m.id], Taken(s, LIMBO_ID, m);
    PutInOrder(mid, ms, h, m, limit);
    TakenElsewhere(s, LIMBO_ID, m);
    s' := TakenAndPut(s, h, m);
  }

  lemma TakenAndPut(s: State, h: int, m: Message) returns (s': State)
    requires LIMBO_ID in s.queues && LIMBO_ID !in s.counts && h in s.queues && h in s.counts && h != LIMBO_ID
    requires m.id in s.refs && m.id in s.limits && SameElsewhere(s, Taken(s, LIMBO_ID, m), m)
    ensures s' == Put(Taken(s, LIMBO_ID, m), h, m, s.limits[m.id]) && Moved(s, s', h, m) && SameElsewhere(s, s', m)
  {
    s' := Put(Taken(s, LIMBO_ID, m), h, m, s.limits[m.id]);
    PutElsewhere(Taken(s, LIMBO_ID, m), h, m, s.limits[m.id]);
    SameTransitive(s, Taken(s, LIMBO_ID, m), s', m);
  }

  /** Taking a message from a queue, if it is there. */
  lemma TakeInOrder(s: State, ms: map<int, Message>, q: int, m: Message) returns (s': State)
    requires InOrder(s, ms) && q in s.queues
    ensures s' == (if m in s.queues[q] then Taken(s, q, m) else s) && InOrder(s', ms) && SameElsewhere(s, s', m)
    ensures m in s.queues[q] ==> Queued(s') == Queued(s) - {m} && m.id in ms && ms[m.id] == m
  {
    s' := s;
    if m in s.queues[q] {
      QueuedBuffered(s, ms, m);
      assert Holds(s, ms, q);
      TakenInOrder(s, ms, q, m);
      TakenElsewhere(s, q, m);
      s' := Taken(s, q, m);
    }
  }

  // ---------------------------------------------------------- what routing comes to

  /** When a route shuts down: some time after time zero. */
  type Forfeit = t: int | t > 0 witness 1

  /** What the router that computes routes answers when it is called for a message. */
  datatype Answer = NoRoute | Route(neighbor: int, forfeitTime: Forfeit)

  /** What the answer does to the message, which was in limbo, and to no other. */
  ghost predicate Answered(s: State, s': State, m: Message, a: Answer) {
    match a
    case NoRoute => s' == s
    case Route(neighbor, forfeitTime) => MovedIf(neighbor in s.counts, Routed(s, m, forfeitTime), s', neighbor, m)
  }

  /** The message is in the outduct of the neighbor found, if there is one, and otherwise in limbo;
      its time limit is when the route shuts down, if one was found. */
  ghost predicate Placed(s: State, m: Message, a: Answer) {
    && m.id in s.refs && m.id in s.limits && (a.Route? ==> s.limits[m.id] == a.forfeitTime)
    && var q := if a.Route? && a.neighbor in s.queues then a.neighbor else LIMBO_ID;
       q in s.queues && m in s.queues[q] && s.refs[m.id] == q
  }

  /** Of the calls from the n'th on, each message's last one says where the message is. */
  ghost predicate Settled(s: State, attempts: seq<Message>, answers: nat -> Answer, n: nat) {
    forall k :: n <= k < |attempts| ==> SettledAt(s, attempts, answers, k)
  }

  ghost predicate SettledAt(s: State, attempts: seq<Message>, answers: nat -> Answer, k: nat) {
    k < |attempts| && (attempts[k] !in attempts[k + 1..] ==> Placed(s, attempts[k], answers(k)))
  }

  lemma AnsweredPlaced(s: State, s': State, ms: map<int, Message>, m: Message, a: Answer)
    requires InOrder(s, ms) && m in s.queues[LIMBO_ID] && s.queues.Keys == s.counts.Keys + {LIMBO_ID} && LIMBO_ID !in s.counts
    requires Answered(s, s', m, a)
    ensures Placed(s', m, a)
  {
    QueuedBuffered(s, ms, m);
    assert Holds(s, ms, LIMBO_ID) && Refers(s, ms[m.id]);
    if a.Route? && a.neighbor in s.counts {
      assert m in s'.queues[a.neighbor];
    }
  }

  /** A message stays in its place when another one is routed. */
  lemma PlacedStays(s: State, s': State, x: Message, a: Answer, m: Message)
    requires Placed(s, x, a) && SameElsewhere(s, s', m) && x.id != m.id
    ensures Placed(s', x, a)
  {
    var q := if a.Route? && a.neighbor in s.queues then a.neighbor else LIMBO_ID;
    assert SameBut(s.queues[q], s'.queues[q], m);
  }

  lemma SettledStep(s: State, s': State, ms: map<int, Message>, attempts: seq<Message>, answers: nat -> Answer, n: nat, m: Message)
    requires InOrder(s, ms) && m.id in ms && ms[m.id] == m && n <= |attempts|
    requires Settled(s, attempts, answers, n) && SameElsewhere(s, s', m) && Placed(s', m, answers(|attempts|))
    ensures Settled(s', attempts + [m], answers, n)
  {
    var more := attempts + [m];
    forall k | n <= k < |more|
      ensures SettledAt(s', more, answers, k)
    {
      if k < |attempts| && more[k] !in more[k + 1..] {
        assert SettledAt(s, attempts, answers, k);
        assert more[k + 1..] == attempts[k + 1..] + [m] && more[k] == attempts[k];
        var x := attempts[k];
        assert x != m && Placed(s, x, answers(k));
        ReferredOnly(s, ms, x);
        PlacedStays(s, s', x, answers(k), m);
      }
    }
  }

  /** Nothing is queued or buffered. */
  ghost function Emptied(ducts: set<int>): State {
    State(map q | q in ducts + {LIMBO_ID} :: [], map[], map[], map h | h in ducts :: 0)
  }

  /** An empty outduct for each host. */
  method NewOutducts(hosts: seq<nat>) returns (ducts: map<int, Outduct>)
    ensures fresh(ducts.Values) && (forall h :: h in hosts <==> h in ducts)
    ensures forall h :: h in ducts ==> h >= 0 && ducts[h].host == h && ducts[h].queue == [] && ducts[h].totalEnqueuedBytes == 0
  {
    ducts := map[];
    var i := 0;
    while i < |hosts|
      invariant 0 <= i <= |hosts| && fresh(ducts.Values) && (forall h :: h in ducts <==> h in hosts[..i])
      invariant forall h :: h in ducts ==>
        h >= 0 && ducts[h].host == h && ducts[h].queue == [] && ducts[h].totalEnqueuedBytes == 0
    {
      var o := new Outduct(hosts[i]);
      ValuesUpdated(ducts, hosts[i], o);
      ducts := ducts[hosts[i] := o];
      i := i + 1;
    }
    assert hosts[..i] == hosts;
  }

  class Router {
    const own: int
    const hosts: seq<int>  // all nodes, in the order of the outducts
    const outducts: map<int, Outduct>
    const limbo: Outduct
    var messages: map<int, Message>  // those in the router's buffer, by id
    var deliveredCount: nat
    ghost var state: State
    const answers: nat -> Answer  // what comes of each call of the router that computes routes
    var attempts: seq<Message>    // the messages it was called for, in turn

    ghost predicate Located() {
      && limbo.host == LIMBO_ID && (forall h :: h in outducts ==> h >= 0 && outducts[h].host == h)
      && forall h :: h in hosts <==> h in outducts
    }

    ghost predicate QueuesAre(s: State)
      reads limbo, outducts.Values
    {
      && s.queues.Keys == outducts.Keys + {LIMBO_ID} && s.counts.Keys == outducts.Keys
      && s.queues[LIMBO_ID] == limbo.queue
      && forall h :: h in outducts ==> s.queues[h] == outducts[h].queue && s.counts[h] == outducts[h].totalEnqueuedBytes
    }

    ghost predicate RefsAre(s: State, ms: map<int, Message>)
      reads ms.Values
    {
      && s.refs.Keys == ms.Keys && s.limits.Keys == ms.Keys
      && forall id :: id in ms ==> s.refs[id] == ms[id].outductRef && s.limits[id] == ms[id].forwardTimelimit
    }

    ghost predicate IdsAre(ms: map<int, Message>) {
      forall id :: id in ms ==> ms[id].id == id
    }

    /** Custody is in order if ms are the buffered messages. */
    ghost predicate ValidWith(ms: map<int, Message>)
      reads this`state, limbo, outducts.Values, ms.Values
    {
      Located() && QueuesAre(state) && RefsAre(state, ms) && InOrder(state, ms)
    }

    ghost predicate Valid()
      reads this`state, this`messages, limbo, outducts.Values, messages.Values
    {
      ValidWith(messages)
    }

    constructor (own: int, hosts: seq<nat>, answers: nat -> Answer)
      ensures Valid() && messages == map[] && Queued(state) == {} && fresh(limbo) && fresh(outducts.Values) && attempts == []
      ensures this.own == own && this.hosts == hosts && this.answers == answers && forall h :: h in hosts <==> h in outducts
    {
      this.own, this.hosts, this.answers := own, hosts, answers;
      limbo := new Outduct(LIMBO_ID);
      messages, deliveredCount, attempts := map[], 0, [];
      var ducts := NewOutducts(hosts);
      outducts := ducts;
      state := Emptied(ducts.Keys);
    }

    method RemoveMessageFromLimbo(m: Message)
      modifies limbo, m`outductRef
      ensures limbo.queue == Without(old(limbo.queue), m) && m.outductRef == NONE_ID
    {
      limbo.RemoveMessage(m);
      m.outductRef := NONE_ID;
    }

    /** Add a message to an outduct's queue; it leaves limbo, if a message like it is there. */
    method InsertMessage(o: Outduct, m: Message)
      requires o != limbo
      modifies limbo, o, m`outductRef
      ensures o.queue == old(o.queue) + [m] && m.outductRef == o.host
      ensures o.totalEnqueuedBytes == old(o.totalEnqueuedBytes) + m.size
      ensures m in old(limbo.queue) ==> limbo.queue == Without(old(limbo.queue), m)
    {
      o.queue := o.queue + [m];
      var inLimbo := limbo.ContainsMessage(m);
      if inLimbo {
        RemoveMessageFromLimbo(m);
      }
      m.outductRef := o.host;
      o.totalEnqueuedBytes := o.totalEnqueuedBytes + m.size;
    }

    method InsertMessageIntoOutduct(h: int, m: Message, ghost s: State, ghost s': State)
      requires Located() && QueuesAre(s) && RefsAre(s, messages) && IdsAre(messages)
      requires h in outducts && m in limbo.queue && m.id in messages && messages[m.id] == m
      requires Moved(s, s', h, m)
      modifies limbo, outducts[h], m`outductRef
      ensures QueuesAre(s') && RefsAre(s', messages) && m.outductRef == h
    {
      InsertMessage(outducts[h], m);
      assert outducts[h].host == h;
      forall q | q in outducts
        ensures s'.queues[q] == outducts[q].queue && s'.counts[q] == outducts[q].totalEnqueuedBytes
      {
        if q != h {
          assert outducts[q].host == q && outducts[q] != outducts[h] && outducts[q] != limbo;
        }
      }
      forall id | id in messages
        ensures s'.refs[id] == messages[id].outductRef && s'.limits[id] == messages[id].forwardTimelimit
      {
        assert id != m.id ==> messages[id] != m;
      }
    }

    /** Move a message that is in limbo to an outduct, if there is one for the neighbor. */
    method InsertBundleIntoOutduct(h: int, m: Message) returns (ok: bool)
      requires Valid() && m in limbo.queue && m.forwardTimelimit > 0
      modifies this`state, limbo, outducts.Values, m`outductRef
      ensures Valid() && Queued(state) == Queued(old(state)) && ok == (h in outducts)
      ensures SameElsewhere(old(state), state, m)
      ensures m.outductRef == (if ok then h else LIMBO_ID) && MovedIf(ok, old(state), state, h, m)
    {
      ok := h in outducts;
      if ok {
        TransferTo(h, m);
      } else {
        ReferredOnly(state, messages, m);
      }
    }

    /** The queues and messages have become what a state says. */
    ghost method Commit(s: State)
      requires Located() && QueuesAre(s) && RefsAre(s, messages) && InOrder(s, messages)
      modifies this`state
      ensures state == s && Valid()
    {
      state := s;
    }

    method TransferTo(h: int, m: Message)
      requires Valid() && m in limbo.queue && m.forwardTimelimit > 0 && h in outducts
      modifies this`state, limbo, outducts.Values, m`outductRef
      ensures Valid() && Queued(state) == Queued(old(state)) && SameElsewhere(old(state), state, m) && m.outductRef == h
      ensures Moved(old(state), state, h, m)
    {
      QueuedBuffered(state, messages, m);
      ghost var s' := MoveInOrder(state, messages, h, m);
      InsertMessageIntoOutduct(h, m, state, s');
      Commit(s');
    }

    /** Take a message from a queue, if it is there. */
    method RemoveFrom(q: int, m: Message)
      requires Valid() && q in state.queues
      modifies this`state, limbo, outducts.Values, m`outductRef
      ensures Valid() && state == (if m in old(state).queues[q] then Taken(old(state), q, m) else old(state))
      ensures m.outductRef == if m in old(state).queues[q] then NONE_ID else old(m.outductRef)
      ensures m in old(state).queues[q] ==> Queued(state) == Queued(old(state)) - {m}
      ensures SameElsewhere(old(state), state, m)
    {
      ghost var s := state;
      ghost var s' := TakeInOrder(s, messages, q, m);
      TakeRaw(q, m, s, s');
      Commit(s');
    }

    method TakeRaw(q: int, m: Message, ghost s: State, ghost s': State)
      requires Located() && QueuesAre(s) && RefsAre(s, messages) && IdsAre(messages) && q in s.queues
      requires m in s.queues[q] ==> m.id in messages && messages[m.id] == m
      requires s' == if m in s.queues[q] then Taken(s, q, m) else s
      modifies limbo, outducts.Values, m`outductRef
      ensures QueuesAre(s') && RefsAre(s', messages)
      ensures m.outductRef == if m in s.queues[q] then NONE_ID else old(m.outductRef)
    {
      var o := if q in outducts then outducts[q] else limbo;
      o.RemoveMessage(m);
      if m !in s.queues[q] {
        WithoutNone(s.queues[q], m);
      }
      forall h | h in outducts
        ensures s'.queues[h] == outducts[h].queue && s'.counts[h] == outducts[h].totalEnqueuedBytes
      {
        assert outducts[h].host == h && (h != q ==> outducts[h] != o);
      }
      forall id | id in messages
        ensures s'.refs[id] == messages[id].outductRef && s'.limits[id] == messages[id].forwardTimelimit
      {
        assert id != m.id ==> messages[id] != m;
      }
    }

    /** Add a message that is in no queue to limbo. */
    method AddToLimbo(m: Message)
      requires Valid() && m !in Queued(state) && (m.id in messages ==> messages[m.id] == m)
      modifies this`state, limbo, m`outductRef
      ensures ValidWith(messages[m.id := m]) && limbo.queue == old(limbo.queue) + [m]
      ensures state == Put(old(state), LIMBO_ID, m, m.forwardTimelimit)
      ensures Queued(state) == Queued(old(state)) + {m} && SameElsewhere(old(state), state, m)
    {
      PutInOrder(state, messages, LIMBO_ID, m, m.forwardTimelimit);
      PutElsewhere(state, LIMBO_ID, m, m.forwardTimelimit);
      ghost var s' := Put(state, LIMBO_ID, m, m.forwardTimelimit);
      AddRaw(m, state, s');
      state := s';
    }

    method AddRaw(m: Message, ghost s: State, ghost s': State)
      requires Located() && QueuesAre(s) && RefsAre(s, messages) && IdsAre(messages)
      requires s' == Put(s, LIMBO_ID, m, m.forwardTimelimit) && (m.id in messages ==> messages[m.id] == m)
      modifies limbo, m`outductRef
      ensures QueuesAre(s') && RefsAre(s', messages[m.id := m]) && limbo.queue == old(limbo.queue) + [m]
    {
      limbo.queue := limbo.queue + [m];
      m.outductRef := LIMBO_ID;
    }

    /** Put a message that is not there into limbo, from the outduct it is in, if any. */
    method PutMessageIntoLimbo(m: Message)
      requires Valid() && m !in limbo.queue && (m.id in messages ==> messages[m.id] == m)
      requires m.outductRef >= 0 ==> m.outductRef in outducts
      modifies this`state, limbo, outducts.Values, m`outductRef
      ensures ValidWith(messages[m.id := m]) && limbo.queue == old(limbo.queue) + [m]
      ensures state == Returned(old(state), old(m.outductRef), m, m.forwardTimelimit)
      ensures Queued(state) == Queued(old(state)) + {m} && SameElsewhere(old(state), state, m)
    {
      ghost var s := state;
      if m.outductRef >= 0 {
        RemoveFrom(m.outductRef, m);
      }
      ghost var s' := state;
      if s' == s {
        NotQueued(s, messages, m, m.outductRef);
      }
      AddToLimbo(m);
      SameTransitive(s, s', state, m);
      Requeued(s, s', state, m);
    }

    // ---------------------------------------------------------- runs

    /** Note when the route that was chosen for a message shuts down. */
    method NoteRouted(m: Message, forfeitTime: int)
      requires Valid() && m.id in messages && messages[m.id] == m && forfeitTime > 0
      modifies this`state, m`forwardTimelimit
      ensures m.forwardTimelimit == forfeitTime
      ensures Valid() && state == Routed(old(state), m, forfeitTime) && Queued(state) == Queued(old(state))
    {
      ghost var s' := Routed(state, m, forfeitTime);
      RoutedInOrder(state, messages, m, forfeitTime);
      SetTimelimit(m, forfeitTime, state, s');
      Commit(s');
    }

    method SetTimelimit(m: Message, forfeitTime: int, ghost s: State, ghost s': State)
      requires QueuesAre(s) && RefsAre(s, messages) && IdsAre(messages) && m.id in messages && messages[m.id] == m
      requires s' == Routed(s, m, forfeitTime)
      modifies m`forwardTimelimit
      ensures QueuesAre(s') && RefsAre(s', messages) && m.forwardTimelimit == forfeitTime
    {
      m.forwardTimelimit := forfeitTime;
    }

    /** Note until when the route chosen for a message is good, and only then move the message
        from limbo to the neighbor's outduct, if there is one. */
    method EnqueueBundle(neighbor: int, forfeitTime: int, m: Message)
      requires Valid() && m in limbo.queue && forfeitTime > 0
      modifies this`state, limbo, outducts.Values, m
      ensures Valid() && Queued(state) == Queued(old(state)) && SameElsewhere(old(state), state, m)
      ensures m.forwardTimelimit == forfeitTime
      ensures MovedIf(neighbor in outducts, Routed(old(state), m, forfeitTime), state, neighbor, m)
    {
      QueuedBuffered(state, messages, m);
      ghost var s := state;
      NoteRouted(m, forfeitTime);
      ghost var s' := state;
      NotingElsewhere(s, m, forfeitTime);
      var ok := InsertBundleIntoOutduct(neighbor, m);
      SameTransitive(s, s', state, m);
    }

    /** The outduct of the neighbor found holds the message, with the new time limit, or limbo does. */
    lemma PlacedIs(m: Message, a: Answer)
      requires Valid() && Placed(state, m, a)
      ensures if a.Route? && a.neighbor in outducts
        then m in outducts[a.neighbor].queue && m.outductRef == a.neighbor && m.forwardTimelimit == a.forfeitTime
        else m in limbo.queue && m.outductRef == LIMBO_ID && (a.Route? ==> m.forwardTimelimit == a.forfeitTime)
    {
      ReferredOnly(state, messages, m);
    }

    /** Route a message that is in limbo, as the answer to the call says. */
    method CgrForward(m: Message)
      requires Valid() && m in limbo.queue
      modifies this`state, this`attempts, limbo, outducts.Values, m
      ensures Valid() && Queued(state) == Queued(old(state)) && SameElsewhere(old(state), state, m)
      ensures attempts == old(attempts) + [m]
      ensures Answered(old(state), state, m, answers(|old(attempts)|)) && Placed(state, m, answers(|old(attempts)|))
    {
      ghost var s := state;
      var answer := answers(|attempts|);
      attempts := attempts + [m];
      if answer.Route? {
        EnqueueBundle(answer.neighbor, answer.forfeitTime, m);
      }
      AnsweredPlaced(s, state, messages, m, answer);
    }

    /** Try again to route every message that is in limbo. */
    method TryRouteForMessageIntoLimbo()
      requires Valid()
      modifies this`state, this`attempts, limbo, outducts.Values, messages.Values
      ensures Valid() && attempts == old(attempts) + old(limbo.queue)
      ensures Rerouted(old(state), state, old(limbo.queue)) && Settled(state, attempts, answers, |old(attempts)|)
    {
      var temp := limbo.queue;
      ghost var s := state;
      assert Holds(state, messages, LIMBO_ID);
      ReroutedNone(s);
      var i := 0;
      while i < |temp|
        invariant 0 <= i <= |temp| && Valid() && attempts == old(attempts) + temp[..i]
        invariant Rerouted(s, state, temp[..i]) && Settled(state, attempts, answers, |old(attempts)|)
      {
        TryNext(temp, i, s, |old(attempts)|);
        TakeStep(old(attempts), temp, i);
        i := i + 1;
      }
      assert temp[..i] == temp;
    }

    method TryNext(temp: seq<Message>, i: nat, ghost s: State, ghost n: nat)
      requires Valid() && NoRepeats(temp) && i < |temp| && Rerouted(s, state, temp[..i])
      requires LIMBO_ID in s.queues && temp[i] in s.queues[LIMBO_ID]
      requires n <= |attempts| && Settled(state, attempts, answers, n)
      modifies this`state, this`attempts, limbo, outducts.Values, messages.Values
      ensures Valid() && attempts == old(attempts) + [temp[i]] && Rerouted(s, state, temp[..i + 1])
      ensures Settled(state, attempts, answers, n)
    {
      ghost var s', was := state, attempts;
      StillThere(s, s', LIMBO_ID, temp, i);
      QueuedBuffered(s', messages, temp[i]);
      CgrForward(temp[i]);
      ReroutedStep(s, s', state, temp, i);
      SettledStep(s', state, messages, was, answers, n, temp[i]);
    }

    /** The messages of an outduct whose routes have expired, unless one of its messages has
        not been routed at all. */
    method CollectExpired(o: Outduct, now: int) returns (unrouted: bool, expired: seq<Message>)
      requires NoRepeats(o.queue)
      ensures unrouted <==> exists m :: m in o.queue && m.forwardTimelimit == 0
      ensures !unrouted ==> NoRepeats(expired) && forall m :: m in expired <==> m in o.queue && now > m.forwardTimelimit
    {
      expired := [];
      var k := 0;
      while k < |o.queue|
        invariant 0 <= k <= |o.queue| && NoRepeats(expired)
        invariant forall m :: m in expired <==> m in o.queue[..k] && now > m.forwardTimelimit
        invariant forall j :: 0 <= j < k ==> o.queue[j].forwardTimelimit != 0
      {
        var m := o.queue[k];
        if m.forwardTimelimit == 0 {
          return true, [];
        }
        assert m !in o.queue[..k];
        assert o.queue[..k + 1] == o.queue[..k] + [m];
        if now > m.forwardTimelimit {
          AppendNoRepeats(expired, m);
          expired := expired + [m];
        }
        k := k + 1;
      }
      assert o.queue[..k] == o.queue;
      unrouted := false;
    }

    /** Move a message from an outduct to limbo. */
    method ReturnToLimbo(h: int, m: Message)
      requires Valid() && h in outducts && m in state.queues[h]
      modifies this`state, limbo, outducts.Values, m`outductRef
      ensures Valid() && m in limbo.queue && Queued(state) == Queued(old(state)) && SameElsewhere(old(state), state, m)
    {
      ghost var s := state;
      ReferredOnly(s, messages, m);
      assert messages[m.id := m] == messages;
      RemoveFrom(h, m);
      ghost var s' := state;
      PutMessageIntoLimbo(m);
      ReturnedQueued(s, s', state, h, m);
    }

    /** Route a message again whose route has expired. */
    method Reroute(h: int, m: Message)
      requires Valid() && h in outducts && m in state.queues[h]
      modifies this`state, this`attempts, limbo, outducts.Values, m
      ensures Valid() && Queued(state) == Queued(old(state)) && SameElsewhere(old(state), state, m)
      ensures attempts == old(attempts) + [m] && Placed(state, m, answers(|old(attempts)|))
    {
      ghost var s := state;
      ReturnToLimbo(h, m);
      ghost var s' := state;
      CgrForward(m);
      SameTransitive(s, s', state, m);
    }

    method RerouteAll(h: int, expired: seq<Message>, ghost n: nat)
      requires Valid() && h in outducts && NoRepeats(expired)
      requires AllIn(expired, state.queues[h])
      requires n <= |attempts| && Settled(state, attempts, answers, n)
      modifies this`state, this`attempts, limbo, outducts.Values, messages.Values
      ensures Valid() && attempts == old(attempts) + expired && Rerouted(old(state), state, expired)
      ensures Settled(state, attempts, answers, n)
    {
      var j := 0;
      ghost var s := state;
      ReroutedNone(s);
      while j < |expired|
        invariant 0 <= j <= |expired| && Valid() && attempts == old(attempts) + expired[..j]
        invariant Rerouted(s, state, expired[..j]) && Settled(state, attempts, answers, n)
      {
        RerouteNext(h, expired, j, s, n);
        TakeStep(old(attempts), expired, j);
        j := j + 1;
      }
      assert expired[..j] == expired;
    }

    method RerouteNext(h: int, expired: seq<Message>, j: nat, ghost s: State, ghost n: nat)
      requires Valid() && h in outducts && NoRepeats(expired) && j < |expired| && Rerouted(s, state, expired[..j])
      requires h in s.queues && AllIn(expired, s.queues[h])
      requires n <= |attempts| && Settled(state, attempts, answers, n)
      modifies this`state, this`attempts, limbo, outducts.Values, messages.Values
      ensures Valid() && attempts == old(attempts) + [expired[j]] && Rerouted(s, state, expired[..j + 1])
      ensures Settled(state, attempts, answers, n)
    {
      ghost var s', was := state, attempts;
      StillThere(s, s', h, expired, j);
      QueuedBuffered(s', messages, expired[j]);
      Reroute(h, expired[j]);
      ReroutedStep(s, s', state, expired, j);
      SettledStep(s', state, messages, was, answers, n, expired[j]);
    }

    /** What CollectExpired finds, in terms of the state. */
    lemma ExpiredAre(h: int, now: int, expired: seq<Message>)
      requires Valid() && h in outducts
      requires forall m :: m in expired <==> m in outducts[h].queue && now > m.forwardTimelimit
      ensures LateAre(state, h, now, expired)
    {
      assert Holds(state, messages, h);
    }

    /** The messages of an outduct to route again. There is never one that was not routed. */
    method ExpiredIn(h: int, now: int) returns (expired: seq<Message>)
      requires Valid() && h in outducts
      ensures NoRepeats(expired) && LateAre(state, h, now, expired)
    {
      assert Holds(state, messages, h) && AllRouted(state, h) && h != LIMBO_ID;
      var unrouted;
      unrouted, expired := CollectExpired(outducts[h], now);
      assert !unrouted;
      ExpiredAre(h, now, expired);
    }

    /** Route the messages of one outduct again whose routes have expired. */
    method CheckOutduct(i: nat, now: int, ghost s: State, ghost was: seq<Message>, ghost gone: seq<Message>)
      returns (next: nat, ghost gone': seq<Message>)
      requires Valid() && i < |hosts| && InOrder(s, messages) && Checked(s, state, hosts, i, now, gone)
      requires attempts == was + gone && Settled(state, attempts, answers, |was|)
      modifies this`state, this`attempts, limbo, outducts.Values, messages.Values
      ensures Valid() && attempts == was + gone' && next == i + 1 && Checked(s, state, hosts, next, now, gone')
      ensures Settled(state, attempts, answers, |was|)
    {
      assert hosts[i] in hosts;
      var late := ExpiredIn(hosts[i], now);
      ghost var s' := state;
      RerouteAll(hosts[i], late, |was|);
      CheckedStep(s, s', state, messages, hosts, i, now, gone, late);
      Associative(was, gone, late);
      next, gone' := i + 1, gone + late;
    }

    /** Route all messages again whose routes have expired, outduct by outduct. The check would
        end at a message in an outduct that was never routed, but there is none. */
    method CheckExpiredRoutes(now: int) returns (ghost rerouted: seq<Message>)
      requires Valid()
      modifies this`state, this`attempts, limbo, outducts.Values, messages.Values
      ensures Valid() && attempts == old(attempts) + rerouted
      ensures RoutedAgain(old(state), state, outducts.Keys, now, rerouted) && Settled(state, attempts, answers, |old(attempts)|)
    {
      ghost var s, was := state, attempts;
      rerouted := CheckStarts(s, hosts, now);
      var i := 0;
      while i < |hosts|
        invariant 0 <= i <= |hosts| && Valid() && attempts == was + rerouted && InOrder(s, messages)
        invariant Checked(s, state, hosts, i, now, rerouted) && Settled(state, attempts, answers, |was|)
      {
        i, rerouted := CheckOutduct(i, now, s, was, rerouted);
      }
      CheckEnds(s, state, hosts, outducts.Keys, now, rerouted);
    }

    /** Take a message over, unless it is a new one for this very node. */
    method AddToMessages(m: Message, newMessage: bool, delivered: bool)
      requires Valid() && m.id !in messages && (m.outductRef >= 0 ==> m.outductRef in outducts)
      modifies this, limbo, outducts.Values, m
      ensures Valid()
      ensures if newMessage && m.to == own then
          messages == old(messages) && state == old(state) && deliveredCount == old(deliveredCount) + if delivered then 0 else 1
        else && messages == old(messages)[m.id := m] && Queued(state) == Queued(old(state)) + {m} && attempts == old(attempts) + [m]
             && SameElsewhere(old(state), state, m) && Placed(state, m, answers(|old(attempts)|))
    {
      if newMessage && m.to == own {
        deliveredCount := deliveredCount + if delivered then 0 else 1;
        return;
      }
      Accept(m);
    }

    method Accept(m: Message)
      requires Valid() && m.id !in messages && (m.outductRef >= 0 ==> m.outductRef in outducts)
      modifies this`state, this`messages, this`attempts, limbo, outducts.Values, m
      ensures Valid() && messages == old(messages)[m.id := m]
      ensures Queued(state) == Queued(old(state)) + {m} && attempts == old(attempts) + [m]
      ensures SameElsewhere(old(state), state, m) && Placed(state, m, answers(|old(attempts)|))
      ensures Answered(Returned(old(state), old(m.outductRef), m, old(m.forwardTimelimit)), state, m, answers(|old(attempts)|))
    {
      ghost var s := state;
      TakeOver(m);
      ghost var s' := state;
      CgrForward(m);
      SameTransitive(s, s', state, m);
    }

    method TakeOver(m: Message)
      requires Valid() && m.id !in messages && (m.outductRef >= 0 ==> m.outductRef in outducts)
      modifies this`state, this`messages, limbo, outducts.Values, m`outductRef
      ensures Valid() && messages == old(messages)[m.id := m] && m in limbo.queue
      ensures state == Returned(old(state), old(m.outductRef), m, m.forwardTimelimit)
      ensures Queued(state) == Queued(old(state)) + {m} && SameElsewhere(old(state), state, m)
    {
      ReferredOnly(state, messages, m);
      PutMessageIntoLimbo(m);
      Buffer(m);
    }

    method Buffer(m: Message)
      requires ValidWith(messages[m.id := m])
      modifies this`messages
      ensures Valid() && messages == old(messages)[m.id := m]
    {
      messages := messages[m.id := m];
    }

    /** Take a message from the queue it is in; null if there is none. */
    method RemoveFromOutducts(id: int) returns (removed: Message?)
      requires Valid()
      modifies this`state, limbo, outducts.Values, messages.Values
      ensures Valid() && if id in messages then Queued(state) == Queued(old(state)) - {messages[id]} else state == old(state)
      ensures removed == if id in messages && messages[id] in Queued(old(state)) then messages[id] else null
    {
      removed := null;
      if id in messages {
        var m := messages[id];
        OneQueue(state, messages, id);
        if m.outductRef != NONE_ID {
          assert Refers(state, m);
          RemoveFrom(m.outductRef, m);
          removed := m;
        }
      }
    }

    /** Remove a message from the buffer, and from the queue it is in. */
    method RemoveFromMessages(id: int)
      requires Valid()
      modifies this, limbo, outducts.Values, messages.Values
      ensures Valid() && messages == old(messages) - {id}
      ensures Queued(state) == if id in old(messages) then Queued(old(state)) - {old(messages)[id]} else Queued(old(state))
    {
      var removed := RemoveFromOutducts(id);
      Drop(id);
    }

    method Drop(id: int)
      requires Valid() && (id in messages ==> messages[id] !in Queued(state))
      modifies this
      ensures Valid() && messages == old(messages) - {id} && Queued(state) == Queued(old(state))
    {
      if id in messages {
        DroppedInOrder(state, messages, id);
        ghost var s, ms := state, messages;
        messages := messages - {id};
        state := State(state.queues, state.refs - {id}, state.limits - {id}, state.counts);
        RefsDropped(s, ms, id);
      }
    }

    lemma RefsDropped(s: State, ms: map<int, Message>, id: int)
      requires RefsAre(s, ms)
      ensures RefsAre(State(s.queues, s.refs - {id}, s.limits - {id}, s.counts), ms - {id})
    {
    }
  }
}
