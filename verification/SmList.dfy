/** The doubly linked list: elements at addresses, linked both ways, in the order of a sequence. */
module SmLists {
  import opened RbTree
  import opened Sequences

  datatype ListElt = ListElt(list: Addr, prev: Addr, next: Addr, data: Addr)

  type Elts = map<Addr, ListElt>

  /** The address at a position, or the null address outside of the list. */
  function At(order: seq<Addr>, i: int): Addr {
    if 0 <= i < |order| then order[i] else 0
  }

  ghost predicate LinkedAt(elts: Elts, list: Addr, order: seq<Addr>, i: nat)
    requires i < |order|
  {
    && order[i] != 0 && order[i] in elts && elts[order[i]].list == list
    && elts[order[i]].prev == At(order, i - 1) && elts[order[i]].next == At(order, i + 1)
  }

  /** The elements are those of the list, linked in order. */
  ghost predicate Linked(elts: Elts, list: Addr, order: seq<Addr>) {
    && NoRepeats(order) && (forall i :: 0 <= i < |order| ==> LinkedAt(elts, list, order, i))
    && forall a :: a in elts ==> a in order
  }

  ghost function Data(elts: Elts, order: seq<Addr>): seq<Addr> {
    seq(|order|, i requires 0 <= i < |order| => if order[i] in elts then elts[order[i]].data else 0)
  }

  /** A new element between two neighbors, either of which may be missing. */
  function Joined(elts: Elts, elt: Addr, e: ListElt): Elts {
    var elts1 := elts[elt := e];
    var elts2 := if e.prev in elts then elts1[e.prev := elts1[e.prev].(next := elt)] else elts1;
    if e.next in elts then elts2[e.next := elts2[e.next].(prev := elt)] else elts2
  }

  /** The element's neighbors become each other's. */
  function Parted(elts: Elts, elt: Addr): Elts
    requires elt in elts
  {
    var e := elts[elt];
    var elts1 := elts - {elt};
    var elts2 := if e.prev in elts1 then elts1[e.prev := elts1[e.prev].(next := e.next)] else elts1;
    if e.next in elts2 then elts2[e.next := elts2[e.next].(prev := e.prev)] else elts2
  }

  function Inserted<T>(s: seq<T>, k: nat, x: T): seq<T>
    requires k <= |s|
  {
    s[..k] + [x] + s[k..]
  }

  function Removed<T>(s: seq<T>, k: nat): seq<T>
    requires k < |s|
  {
    s[..k] + s[k + 1..]
  }

  lemma InsertedNoRepeats(order: seq<Addr>, k: nat, elt: Addr)
    requires NoRepeats(order) && k <= |order| && elt !in order
    ensures NoRepeats(Inserted(order, k, elt))
    ensures forall a :: a in Inserted(order, k, elt) <==> a in order || a == elt
  {
    var order' := Inserted(order, k, elt);
    forall i | 0 <= i < |order'|
      ensures order'[i] == if i < k then order[i] else if i == k then elt else order[i - 1]
    {
    }
    forall a | a in order || a == elt
      ensures a in order'
    {
      if a == elt {
        assert order'[k] == elt;
      } else {
        var i :| 0 <= i < |order| && order[i] == a;
        assert order'[if i < k then i else i + 1] == a;
      }
    }
  }

  lemma InsertedLinkedAt(elts: Elts, list: Addr, order: seq<Addr>, k: nat, elt: Addr, data: Addr, i: nat)
    requires Linked(elts, list, order) && k <= |order| && elt != 0 && elt !in elts && i <= |order|
    ensures var order' := Inserted(order, k, elt);
      LinkedAt(Joined(elts, elt, ListElt(list, At(order, k - 1), At(order, k), data)), list, order', i)
  {
    var order' := Inserted(order, k, elt);
    NullNotIn(elts, list, order);
    assert k > 0 ==> LinkedAt(elts, list, order, k - 1);
    assert k < |order| ==> LinkedAt(elts, list, order, k);
    assert i < k ==> LinkedAt(elts, list, order, i);
    assert k < i ==> LinkedAt(elts, list, order, i - 1);
  }

  lemma NullNotIn(elts: Elts, list: Addr, order: seq<Addr>)
    requires Linked(elts, list, order)
    ensures 0 !in elts && forall a :: a in elts <==> a in order
  {
    forall a | a in order
      ensures a in elts && a != 0
    {
      var j :| 0 <= j < |order| && order[j] == a;
      assert LinkedAt(elts, list, order, j);
    }
  }

  lemma InsertedLinked(elts: Elts, list: Addr, order: seq<Addr>, k: nat, elt: Addr, data: Addr)
    requires Linked(elts, list, order) && k <= |order| && elt != 0 && elt !in elts
    ensures Linked(Joined(elts, elt, ListElt(list, At(order, k - 1), At(order, k), data)), list, Inserted(order, k, elt))
    ensures Data(Joined(elts, elt, ListElt(list, At(order, k - 1), At(order, k), data)), Inserted(order, k, elt))
            == Inserted(Data(elts, order), k, data)
  {
    NullNotIn(elts, list, order);
    InsertedNoRepeats(order, k, elt);
    var order', elts' := Inserted(order, k, elt), Joined(elts, elt, ListElt(list, At(order, k - 1), At(order, k), data));
    forall i | 0 <= i < |order'|
      ensures LinkedAt(elts', list, order', i)
    {
      InsertedLinkedAt(elts, list, order, k, elt, data, i);
    }
    InsertedData(elts, list, order, k, elt, data);
  }

  lemma InsertedData(elts: Elts, list: Addr, order: seq<Addr>, k: nat, elt: Addr, data: Addr)
    requires Linked(elts, list, order) && k <= |order| && elt != 0 && elt !in elts
    ensures Data(Joined(elts, elt, ListElt(list, At(order, k - 1), At(order, k), data)), Inserted(order, k, elt))
            == Inserted(Data(elts, order), k, data)
  {
    NullNotIn(elts, list, order);
    var order', elts' := Inserted(order, k, elt), Joined(elts, elt, ListElt(list, At(order, k - 1), At(order, k), data));
    forall i | 0 <= i < |order'|
      ensures Data(elts', order')[i] == Inserted(Data(elts, order), k, data)[i]
    {
      assert i != k ==> order'[i] in order && order'[i] != elt;
    }
  }

  lemma InsertedBetween(elts: Elts, list: Addr, order: seq<Addr>, k: nat, elt: Addr, e: ListElt, elts': Elts)
    requires Linked(elts, list, order) && k <= |order| && elt != 0 && elt !in elts
    requires e.list == list && e.prev == At(order, k - 1) && e.next == At(order, k) && elts' == Joined(elts, elt, e)
    ensures Linked(elts', list, Inserted(order, k, elt))
    ensures Data(elts', Inserted(order, k, elt)) == Inserted(Data(elts, order), k, e.data)
  {
    InsertedLinked(elts, list, order, k, elt, e.data);
  }

  lemma RemovedNoRepeats(order: seq<Addr>, k: nat)
    requires NoRepeats(order) && k < |order|
    ensures NoRepeats(Removed(order, k)) && forall a :: a in Removed(order, k) <==> a in order && a != order[k]
  {
    var order' := Removed(order, k);
    forall a | a in order && a != order[k]
      ensures a in order'
    {
      var i :| 0 <= i < |order| && order[i] == a;
      assert order'[if i < k then i else i - 1] == a;
    }
  }

  lemma RemovedLinkedAt(elts: Elts, list: Addr, order: seq<Addr>, k: nat, i: nat)
    requires Linked(elts, list, order) && k < |order| && i < |order| - 1
    ensures order[k] in elts && LinkedAt(Parted(elts, order[k]), list, Removed(order, k), i)
  {
    NullNotIn(elts, list, order);
    assert LinkedAt(elts, list, order, k);
    assert k > 0 ==> LinkedAt(elts, list, order, k - 1);
    assert k < |order| - 1 ==> LinkedAt(elts, list, order, k + 1);
    assert LinkedAt(elts, list, order, if i < k then i else i + 1);
  }

  lemma RemovedLinked(elts: Elts, list: Addr, order: seq<Addr>, k: nat)
    requires Linked(elts, list, order) && k < |order|
    ensures order[k] in elts && Linked(Parted(elts, order[k]), list, Removed(order, k))
    ensures Data(Parted(elts, order[k]), Removed(order, k)) == Removed(Data(elts, order), k)
  {
    NullNotIn(elts, list, order);
    RemovedNoRepeats(order, k);
    assert LinkedAt(elts, list, order, k);
    var order', elts' := Removed(order, k), Parted(elts, order[k]);
    forall i | 0 <= i < |order'|
      ensures LinkedAt(elts', list, order', i)
    {
      RemovedLinkedAt(elts, list, order, k, i);
    }
    RemovedData(elts, list, order, k);
  }

  lemma RemovedData(elts: Elts, list: Addr, order: seq<Addr>, k: nat)
    requires Linked(elts, list, order) && k < |order|
    ensures order[k] in elts && Data(Parted(elts, order[k]), Removed(order, k)) == Removed(Data(elts, order), k)
  {
    NullNotIn(elts, list, order);
    RemovedNoRepeats(order, k);
    assert LinkedAt(elts, list, order, k);
    var order', elts' := Removed(order, k), Parted(elts, order[k]);
    forall i | 0 <= i < |order'|
      ensures Data(elts', order')[i] == Removed(Data(elts, order), k)[i]
    {
      var j := if i < k then i else i + 1;
      assert order'[i] == order[j] && order[j] in order && order[j] != order[k];
    }
  }

  /** Around an element there are others, or the list's ends, which move if the element goes. */
  lemma RemovedEnds(elts: Elts, list: Addr, order: seq<Addr>, k: nat)
    requires Linked(elts, list, order) && k < |order|
    ensures order[k] in elts && 0 !in elts
    ensures var prev, next, order' := elts[order[k]].prev, elts[order[k]].next, Removed(order, k);
      && prev != order[k] && next != order[k] && (prev != 0 ==> prev in elts) && (next != 0 ==> next in elts)
      && At(order', 0) == (if prev == 0 then next else At(order, 0))
      && At(order', |order'| - 1) == (if next == 0 then prev else At(order, |order| - 1))
  {
    NullNotIn(elts, list, order);
    assert LinkedAt(elts, list, order, k);
    assert k > 0 ==> LinkedAt(elts, list, order, k - 1);
    assert k < |order| - 1 ==> LinkedAt(elts, list, order, k + 1);
  }

  /** Deleting an element just inserted restores the list. */
  lemma DeletionUndoesInsertion(elts: Elts, list: Addr, order: seq<Addr>, k: nat, elt: Addr, data: Addr)
    requires Linked(elts, list, order) && k <= |order| && elt != 0 && elt !in elts
    ensures var elts' := Joined(elts, elt, ListElt(list, At(order, k - 1), At(order, k), data));
      elt in elts' && Parted(elts', elt) == elts && Removed(Inserted(order, k, elt), k) == order
  {
    NullNotIn(elts, list, order);
    assert k > 0 ==> LinkedAt(elts, list, order, k - 1);
    assert k < |order| ==> LinkedAt(elts, list, order, k);
  }

  // ---------------------------------------------------------- sorted lists

  ghost predicate SortedBy(key: Addr -> int, data: seq<Addr>) {
    forall i, j :: 0 <= i < j < |data| ==> key(data[i]) <= key(data[j])
  }

  /** From position k on, no datum behind one that compares greater is a match. */
  ghost predicate NoMatchBehind(compare: Addr -> int, data: seq<Addr>, k: nat) {
    forall i, j :: k <= i < j < |data| && compare(data[i]) > 0 ==> compare(data[j]) != 0
  }

  /** Behind all data with the same or a lesser key, and ahead of all with a greater one. */
  lemma StableInsertion(key: Addr -> int, data: seq<Addr>, k: nat, x: Addr)
    requires SortedBy(key, data) && k <= |data|
    requires k > 0 ==> key(data[k - 1]) <= key(x)
    requires forall i :: k <= i < |data| ==> key(data[i]) > key(x)
    ensures SortedBy(key, Inserted(data, k, x)) && forall i :: 0 <= i < |data| ==> (i < k <==> key(data[i]) <= key(x))
  {
  }

  // ---------------------------------------------------------- wiping

  /** Of a list's elements, those from position k on are left. */
  ghost predicate LeftOf(elts: Elts, was: Elts, order: seq<Addr>, k: nat) {
    && (forall a :: a in elts ==> a in order && a in was && elts[a] == was[a])
    && (forall i :: 0 <= i < |order| ==> (order[i] in elts <==> k <= i))
  }

  lemma AllLeft(elts: Elts, list: Addr, order: seq<Addr>)
    requires Linked(elts, list, order)
    ensures LeftOf(elts, elts, order, 0)
  {
    NullNotIn(elts, list, order);
    forall i | 0 <= i < |order|
      ensures order[i] in elts
    {
      assert LinkedAt(elts, list, order, i);
    }
  }

  lemma LeftStep(elts: Elts, was: Elts, list: Addr, order: seq<Addr>, k: nat)
    requires Linked(was, list, order) && k < |order| && LeftOf(elts, was, order, k)
    ensures order[k] in elts && elts[order[k]].next == At(order, k + 1) && LeftOf(elts - {order[k]}, was, order, k + 1)
    ensures At(order, k + 1) != 0 <==> k + 1 < |order|
  {
    assert LinkedAt(was, list, order, k);
    assert k + 1 < |order| ==> LinkedAt(was, list, order, k + 1);
  }

  lemma NoneLeft(elts: Elts, was: Elts, order: seq<Addr>)
    requires LeftOf(elts, was, order, |order|)
    ensures elts == map[]
  {
    forall a | a in order
      ensures a !in elts
    {
      var i :| 0 <= i < |order| && order[i] == a;
    }
    assert forall a :: a !in elts;
  }

  class SmList {
    const list: Addr  // the list's own address
    var elts: Elts
    var first: Addr
    var last: Addr
    var length: nat
    ghost var order: seq<Addr>

    ghost predicate Valid()
      reads this
    {
      && list != 0 && Linked(elts, list, order)
      && first == At(order, 0) && last == At(order, |order| - 1) && length == |order|
    }

    ghost function Contents(): seq<Addr>
      reads this
    {
      Data(elts, order)
    }

    constructor (list: Addr)
      requires list != 0
      ensures Valid() && this.list == list && order == []
    {
      this.list := list;
      elts, first, last, length, order := map[], 0, 0, 0, [];
    }

    /** The elements have come to be linked in an order. */
    ghost method Reorder(order: seq<Addr>)
      requires list != 0 && Linked(elts, list, order)
      requires first == At(order, 0) && last == At(order, |order| - 1) && length == |order|
      modifies this`order
      ensures Valid() && this.order == order
    {
      this.order := order;
    }

    /** The position of an element. */
    lemma Position(elt: Addr) returns (k: nat)
      requires Valid() && elt in elts
      ensures k < |order| && order[k] == elt && LinkedAt(elts, list, order, k)
    {
      k :| 0 <= k < |order| && order[k] == elt;
    }

    lemma AtPosition(k: int)
      requires Valid()
      ensures At(order, k) != 0 <==> 0 <= k < |order|
      ensures 0 <= k < |order| ==> LinkedAt(elts, list, order, k) && At(order, k) in elts
    {
      NullNotIn(elts, list, order);
      assert 0 <= k < |order| ==> LinkedAt(elts, list, order, k);
    }

    method InsertFirst(data: Addr, elt: Addr)
      requires Valid() && elt != 0 && elt !in elts
      modifies this
      ensures Valid() && order == Inserted(old(order), 0, elt) && Contents() == Inserted(old(Contents()), 0, data)
    {
      InsertedLinked(elts, list, order, 0, elt, data);
      AtPosition(0);
      NullNotIn(elts, list, order);
      ghost var elts' := Joined(elts, elt, ListElt(list, 0, first, data));
      elts := elts[elt := ListElt(list, 0, first, data)];
      if first != 0 {
        elts := elts[first := elts[first].(prev := elt)];
      } else {
        last := elt;
      }
      first := elt;
      length := length + 1;
      assert elts == elts';
      Reorder(Inserted(order, 0, elt));
    }

    method InsertLast(data: Addr, elt: Addr)
      requires Valid() && elt != 0 && elt !in elts
      modifies this
      ensures Valid() && order == old(order) + [elt] && Contents() == old(Contents()) + [data]
    {
      ghost var k := |order|;
      InsertedLinked(elts, list, order, k, elt, data);
      AtPosition(k - 1);
      NullNotIn(elts, list, order);
      ghost var elts' := Joined(elts, elt, ListElt(list, last, 0, data));
      elts := elts[elt := ListElt(list, last, 0, data)];
      if last != 0 {
        elts := elts[last := elts[last].(next := elt)];
      } else {
        first := elt;
      }
      last := elt;
      length := length + 1;
      assert elts == elts';
      Reorder(Inserted(order, k, elt));
    }

    method InsertBefore(oldElt: Addr, data: Addr, elt: Addr, ghost k: nat)
      requires Valid() && elt != 0 && elt !in elts && k < |order| && oldElt == order[k]
      modifies this
      ensures Valid() && order == Inserted(old(order), k, elt) && Contents() == Inserted(old(Contents()), k, data)
    {
      AtPosition(k);
      AtPosition(k - 1);
      NullNotIn(elts, list, order);
      ghost var was, e := elts, ListElt(list, elts[oldElt].prev, oldElt, data);
      FinishInsertingBefore(oldElt, data, elt);
      InsertedBetween(was, list, order, k, elt, e, elts);
      Reorder(Inserted(order, k, elt));
    }

    method FinishInsertingBefore(oldElt: Addr, data: Addr, elt: Addr)
      requires elt != 0 && elt !in elts && 0 !in elts && oldElt in elts && elts[oldElt].list == list
      requires elts[oldElt].prev != oldElt && (elts[oldElt].prev != 0 ==> elts[oldElt].prev in elts)
      modifies this`elts, this`first, this`length
      ensures elts == Joined(old(elts), elt, ListElt(list, old(elts)[oldElt].prev, oldElt, data))
      ensures first == (if old(elts)[oldElt].prev == 0 then elt else old(first)) && length == old(length) + 1
    {
      var prev := elts[oldElt].prev;
      elts := elts[elt := ListElt(elts[oldElt].list, prev, oldElt, data)];
      if prev != 0 {
        elts := elts[prev := elts[prev].(next := elt)];
      } else {
        first := elt;
      }
      elts := elts[oldElt := elts[oldElt].(prev := elt)];
      length := length + 1;
    }

    method InsertAfter(oldElt: Addr, data: Addr, elt: Addr, ghost k: nat)
      requires Valid() && elt != 0 && elt !in elts && k < |order| && oldElt == order[k]
      modifies this
      ensures Valid() && order == Inserted(old(order), k + 1, elt) && Contents() == Inserted(old(Contents()), k + 1, data)
    {
      AtPosition(k);
      AtPosition(k + 1);
      NullNotIn(elts, list, order);
      ghost var was, e := elts, ListElt(list, oldElt, elts[oldElt].next, data);
      FinishInsertingAfter(oldElt, data, elt);
      InsertedBetween(was, list, order, k + 1, elt, e, elts);
      Reorder(Inserted(order, k + 1, elt));
    }

    method FinishInsertingAfter(oldElt: Addr, data: Addr, elt: Addr)
      requires elt != 0 && elt !in elts && 0 !in elts && oldElt in elts && elts[oldElt].list == list
      requires elts[oldElt].next != oldElt && (elts[oldElt].next != 0 ==> elts[oldElt].next in elts)
      modifies this`elts, this`last, this`length
      ensures elts == Joined(old(elts), elt, ListElt(list, oldElt, old(elts)[oldElt].next, data))
      ensures last == (if old(elts)[oldElt].next == 0 then elt else old(last)) && length == old(length) + 1
    {
      var next := elts[oldElt].next;
      elts := elts[elt := ListElt(elts[oldElt].list, oldElt, next, data)];
      if next != 0 {
        elts := elts[next := elts[next].(prev := elt)];
      } else {
        last := elt;
      }
      elts := elts[oldElt := elts[oldElt].(next := elt)];
      length := length + 1;
    }

    /** The last element whose data do not compare greater, looking from the end. */
    method LastNotGreater(compare: Addr -> int) returns (at: Addr, ghost k: nat)
      requires Valid()
      ensures k <= |order| && at == At(order, k - 1) && (at != 0 <==> k > 0)
      ensures k > 0 ==> compare(Contents()[k - 1]) <= 0
      ensures forall i :: k <= i < |order| ==> compare(Contents()[i]) > 0
    {
      at := last;
      k := |order|;
      AtPosition(k - 1);
      while at != 0 && compare(elts[at].data) > 0
        invariant k <= |order| && at == At(order, k - 1) && (at != 0 <==> k > 0)
        invariant at != 0 ==> at in elts
        invariant forall i :: k <= i < |order| ==> compare(Contents()[i]) > 0
        decreases k
      {
        AtPosition(k - 1);
        AtPosition(k - 2);
        at := elts[at].prev;
        k := k - 1;
      }
    }

    /** Insert behind the last of the data that do not compare greater. */
    method Insert(data: Addr, compare: Addr -> int, elt: Addr) returns (ghost k: nat)
      requires Valid() && elt != 0 && elt !in elts
      modifies this
      ensures Valid() && k <= |old(order)| == |old(Contents())|
      ensures order == Inserted(old(order), k, elt) && Contents() == Inserted(old(Contents()), k, data)
      ensures k > 0 ==> compare(old(Contents())[k - 1]) <= 0
      ensures forall i :: k <= i < |old(order)| ==> compare(old(Contents())[i]) > 0
    {
      var at;
      at, k := LastNotGreater(compare);
      if at == 0 {
        InsertFirst(data, elt);
      } else {
        InsertAfter(at, data, elt, k - 1);
      }
    }

    method Delete(elt: Addr, ghost k: nat)
      requires Valid() && k < |order| && elt == order[k]
      modifies this
      ensures Valid() && order == Removed(old(order), k) && Contents() == Removed(old(Contents()), k) && elt !in elts
    {
      RemovedLinked(elts, list, order, k);
      RemovedEnds(elts, list, order, k);
      Detach(elt);
      length := length - 1;
      Reorder(Removed(order, k));
    }

    /** Join an element's neighbors, or the list's ends, across it. */
    method Detach(elt: Addr)
      requires elt in elts && elts[elt].prev != elt && elts[elt].next != elt
      requires (elts[elt].prev != 0 ==> elts[elt].prev in elts) && (elts[elt].next != 0 ==> elts[elt].next in elts)
      requires 0 !in elts
      modifies this`elts, this`first, this`last
      ensures elts == Parted(old(elts), elt)
      ensures first == if old(elts)[elt].prev == 0 then old(elts)[elt].next else old(first)
      ensures last == if old(elts)[elt].next == 0 then old(elts)[elt].prev else old(last)
    {
      var next, prev := elts[elt].next, elts[elt].prev;
      elts := elts - {elt};
      if prev != 0 {
        elts := elts[prev := elts[prev].(next := next)];
      } else {
        first := next;
      }
      if next != 0 {
        elts := elts[next := elts[next].(prev := prev)];
      } else {
        last := prev;
      }
    }

    /** Free all elements, from the first on. */
    method Clear()
      requires Valid()
      modifies this
      ensures Valid() && order == [] && elts == map[]
    {
      var elt := first;
      ghost var k, was, all := 0, elts, order;
      AllLeft(elts, list, order);
      AtPosition(0);
      while elt != 0
        invariant 0 <= k <= |all| && elt == At(all, k) && (elt != 0 <==> k < |all|)
        invariant Linked(was, list, all) && LeftOf(elts, was, all, k)
        decreases |all| - k
      {
        LeftStep(elts, was, list, all, k);
        var next := elts[elt].next;
        elts := elts - {elt};
        elt := next;
        k := k + 1;
      }
      NoneLeft(elts, was, all);
      first, last, length, order := 0, 0, 0, [];
    }

    /** The first match from an element on that is not behind a datum that compares greater;
        in a list in order of comparison, there is no match behind one. */
    method Search(fromElt: Addr, compare: Addr -> int, ghost k: nat) returns (elt: Addr, ghost n: nat)
      requires Valid() && k < |order| && fromElt == order[k]
      ensures k <= n <= |order| && forall i :: k <= i < n ==> compare(Contents()[i]) < 0
      ensures elt != 0 ==> n < |order| && elt == order[n] && compare(Contents()[n]) == 0
      ensures elt == 0 ==> n == |order| || compare(Contents()[n]) > 0
      ensures elt == 0 && NoMatchBehind(compare, Contents(), k) ==> forall i :: k <= i < |order| ==> compare(Contents()[i]) != 0
    {
      elt, n := fromElt, k;
      AtPosition(k);
      while true
        invariant k <= n < |order| && elt == order[n] && elt in elts
        invariant forall i :: k <= i < n ==> compare(Contents()[i]) < 0
        decreases |order| - n
      {
        AtPosition(n);
        AtPosition(n + 1);
        assert elts[elt].data == Contents()[n];
        var result := compare(elts[elt].data);
        if result > 0 {
          return 0, n;
        }
        if result == 0 {
          return;
        }
        elt := elts[elt].next;
        n := n + 1;
        if elt == 0 {
          return;
        }
      }
    }

    /** The first element with the given data, from an element on. */
    method Find(fromElt: Addr, data: Addr, ghost k: nat) returns (elt: Addr, ghost n: nat)
      requires Valid() && k < |order| && fromElt == order[k]
      ensures elt != 0 ==> k <= n < |order| && elt == order[n] && Contents()[n] == data && data !in Contents()[k..n]
      ensures elt == 0 ==> data !in Contents()[k..]
    {
      elt, n := fromElt, k;
      AtPosition(k);
      while true
        invariant k <= n < |order| && elt == order[n] && elt in elts
        invariant forall i :: k <= i < n ==> Contents()[i] != data
        decreases |order| - n
      {
        AtPosition(n);
        AtPosition(n + 1);
        assert elts[elt].data == Contents()[n];
        if elts[elt].data == data {
          return;
        }
        elt := elts[elt].next;
        n := n + 1;
        if elt == 0 {
          return;
        }
      }
    }
  }
}
