/** A tree of records kept in key order, as the contact index, the range index and the
    timeline are: the tree's data are the records' addresses. */
module Index {
  import opened RbTree
  import opened RbInsert
  import opened RbDelete
  import opened RbScan
  import opened Keys
  import SmRbt

  datatype Row<R> = Row(addr: Addr, rec: R)

  function KeysOf<R>(rows: seq<Row<R>>, keyOf: R -> Key): (s: seq<Key>)
    ensures |s| == |rows|
  {
    seq(|rows|, i requires 0 <= i < |rows| => keyOf(rows[i].rec))
  }

  /** The comparison function handed to the tree, with its data buffer bound. */
  function Comparing<R>(records: map<Addr, R>, keyOf: R -> Key, key: Key): Addr -> int {
    a => if a in records then Compare(keyOf(records[a]), key) else 0
  }

  ghost function RowsOf<R>(items: seq<Entry>, records: map<Addr, R>): seq<Row<R>>
    requires forall e :: e in items ==> e.data in records
  {
    seq(|items|, i requires 0 <= i < |items| => Row(items[i].data, records[items[i].data]))
  }

  /** Items and records agree: every record is indexed once, in key order. */
  ghost predicate Consistent<R>(items: seq<Entry>, records: map<Addr, R>, keyOf: R -> Key) {
    && (forall e :: e in items ==> e.data in records)
    && (forall a :: a in records ==> a > 0 && exists i :: 0 <= i < |items| && items[i].data == a)
    && Sorted(KeysOf(RowsOf(items, records), keyOf))
  }

  lemma ComparingAt<R>(items: seq<Entry>, records: map<Addr, R>, keyOf: R -> Key, key: Key, i: nat)
    requires (forall e :: e in items ==> e.data in records) && i < |items|
    ensures Comparing(records, keyOf, key)(items[i].data) == Compare(KeysOf(RowsOf(items, records), keyOf)[i], key)
  {
    assert items[i] in items;
  }

  lemma ComparingMonotone<R>(items: seq<Entry>, records: map<Addr, R>, keyOf: R -> Key, key: Key)
    requires Consistent(items, records, keyOf)
    ensures Monotone(Comparing(records, keyOf, key), items)
  {
    var ks, compare := KeysOf(RowsOf(items, records), keyOf), Comparing(records, keyOf, key);
    forall i, j | 0 <= i < j < |items|
      ensures (compare(items[j].data) < 0 ==> compare(items[i].data) < 0)
           && (compare(items[j].data) == 0 ==> compare(items[i].data) <= 0)
    {
      ComparingAt(items, records, keyOf, key, i);
      ComparingAt(items, records, keyOf, key, j);
      CompareIsTotalOrder(ks[i], ks[j], key);
      CompareIsTotalOrder(ks[j], key, key);
    }
  }

  lemma {:induction false} LowerBoundPosition<R>(items: seq<Entry>, records: map<Addr, R>, keyOf: R -> Key, key: Key)
    requires Consistent(items, records, keyOf)
    ensures LowerBound(items, Comparing(records, keyOf, key)) == Position(KeysOf(RowsOf(items, records), keyOf), key)
  {
    var ks := KeysOf(RowsOf(items, records), keyOf);
    var n, compare := Position(ks, key), Comparing(records, keyOf, key);
    forall i | 0 <= i < |items|
      ensures compare(items[i].data) == Compare(ks[i], key)
    {
      assert items[i] in items;
    }
    LowerBoundAt(items, compare, n);
  }

  lemma InsertIndexed(items: seq<Entry>, n: nat, e: Entry, a: Addr)
    requires n <= |items| && (a == e.data || exists i :: 0 <= i < |items| && items[i].data == a)
    ensures var items' := items[..n] + [e] + items[n..]; exists i :: 0 <= i < |items'| && items'[i].data == a
  {
    var items' := items[..n] + [e] + items[n..];
    if a == e.data {
      assert items'[n].data == a;
    } else {
      var i :| 0 <= i < |items| && items[i].data == a;
      assert items'[if i < n then i else i + 1].data == a;
    }
  }

  lemma InsertRows<R>(items: seq<Entry>, records: map<Addr, R>, n: nat, e: Entry, rec: R)
    requires forall x :: x in items ==> x.data in records
    requires n <= |items| && e.data !in records
    ensures var items' := items[..n] + [e] + items[n..];
      && (forall x :: x in items' ==> x.data in records[e.data := rec])
      && RowsOf(items', records[e.data := rec])
         == RowsOf(items, records)[..n] + [Row(e.data, rec)] + RowsOf(items, records)[n..]
  {
    var items' := items[..n] + [e] + items[n..];
    assert forall x :: x in items' ==> x in items || x == e;
  }

  /** A new record at its key's position. */
  lemma InsertConsistent<R>(items: seq<Entry>, items': seq<Entry>, records: map<Addr, R>, records': map<Addr, R>,
                            keyOf: R -> Key, e: Entry, rec: R)
    requires Consistent(items, records, keyOf)
    requires keyOf(rec) !in KeysOf(RowsOf(items, records), keyOf)
    requires e.data > 0 && e.data !in records && records' == records[e.data := rec]
    requires var n := Position(KeysOf(RowsOf(items, records), keyOf), keyOf(rec));
      items' == items[..n] + [e] + items[n..]
    ensures Consistent(items', records', keyOf)
    ensures var rows := RowsOf(items, records); var n := Position(KeysOf(rows, keyOf), keyOf(rec));
      RowsOf(items', records') == rows[..n] + [Row(e.data, rec)] + rows[n..]
  {
    var rows := RowsOf(items, records);
    var ks := KeysOf(rows, keyOf);
    var n := Position(ks, keyOf(rec));
    InsertRows(items, records, n, e, rec);
    forall a | a in records'
      ensures exists i :: 0 <= i < |items'| && items'[i].data == a
    {
      InsertIndexed(items, n, e, a);
    }
    InsertSorted(ks, keyOf(rec));
    assert KeysOf(RowsOf(items', records'), keyOf) == ks[..n] + [keyOf(rec)] + ks[n..];
  }

  /** The items after the n'th one's data is gone; their node addresses may differ. */
  lemma DeleteConsistent<R>(items: seq<Entry>, items': seq<Entry>, records: map<Addr, R>, records': map<Addr, R>,
                            keyOf: R -> Key, n: nat)
    requires Consistent(items, records, keyOf) && n < |items|
    requires Data(items') == Data(items[..n]) + Data(items[n + 1..])
    requires records' == records - {items[n].data}
    ensures Consistent(items', records', keyOf)
    ensures var rows := RowsOf(items, records); RowsOf(items', records') == rows[..n] + rows[n + 1..]
  {
    var rows := RowsOf(items, records);
    var ks := KeysOf(rows, keyOf);
    assert |items'| == |Data(items')| == |items| - 1;
    forall i | 0 <= i < |items'|
      ensures items'[i].data == items[if i < n then i else i + 1].data
    {
      assert items'[i].data == Data(items')[i];
    }
    forall i | 0 <= i < |items| && i != n
      ensures items[i].data != items[n].data
    {
      assert ks[i] != ks[n] by {
        CompareIsTotalOrder(ks[i], ks[n], ks[i]);
      }
    }
    forall a | a in records'
      ensures exists i :: 0 <= i < |items'| && items'[i].data == a
    {
      var i :| 0 <= i < |items| && items[i].data == a;
      assert items'[if i < n then i else i - 1].data == a;
    }
    var rows' := RowsOf(items', records');
    assert rows' == rows[..n] + rows[n + 1..];
    assert KeysOf(rows', keyOf) == ks[..n] + ks[n + 1..];
  }

  /** The one record a search can find stands at its key's position. */
  lemma MatchPosition<R>(items: seq<Entry>, records: map<Addr, R>, keyOf: R -> Key, key: Key, e: Entry)
    requires Consistent(items, records, keyOf) && e in items && Comparing(records, keyOf, key)(e.data) == 0
    ensures var ks := KeysOf(RowsOf(items, records), keyOf);
      key in ks && e == items[Position(ks, key)]
  {
    var ks := KeysOf(RowsOf(items, records), keyOf);
    var i :| 0 <= i < |items| && items[i] == e;
    CompareIsTotalOrder(ks[i], key, key);
    assert ks[i] == key;
    AfterPosition(ks, key);
    CompareIsTotalOrder(key, key, key);
  }

  lemma NoMatch<R>(items: seq<Entry>, records: map<Addr, R>, keyOf: R -> Key, key: Key)
    requires Consistent(items, records, keyOf)
    requires forall e :: e in items ==> Comparing(records, keyOf, key)(e.data) != 0
    ensures key !in KeysOf(RowsOf(items, records), keyOf)
  {
    var ks := KeysOf(RowsOf(items, records), keyOf);
    forall i | 0 <= i < |ks|
      ensures ks[i] != key
    {
      assert items[i] in items;
      CompareIsTotalOrder(ks[i], key, key);
    }
  }

  /** Deletion by comparison is deletion by key. */
  lemma DeletionAt<R>(items: seq<Entry>, records: map<Addr, R>, keyOf: R -> Key, key: Key,
                      found: bool, erased: Addr, items': seq<Entry>)
    requires Consistent(items, records, keyOf)
    requires Deletion(items, Comparing(records, keyOf, key), found, erased, items')
    ensures var rows := RowsOf(items, records); var ks := KeysOf(rows, keyOf); var n := Position(ks, key);
      && found == (key in ks)
      && if found then n < |items| && erased == items[n].data && keyOf(rows[n].rec) == key
                       && Data(items') == Data(items[..n]) + Data(items[n + 1..])
         else items' == items
  {
    var ks := KeysOf(RowsOf(items, records), keyOf);
    var n := Position(ks, key);
    LowerBoundPosition(items, records, keyOf, key);
    AfterPosition(ks, key);
    if n < |items| {
      assert items[n] in items;
      CompareIsTotalOrder(ks[n], key, key);
    }
  }

  ghost function RowSet<R>(rows: seq<Row<R>>): set<Row<R>> {
    set r | r in rows
  }

  lemma SplicedSet<R>(rows: seq<Row<R>>, n: nat, row: Row<R>)
    requires n <= |rows|
    ensures RowSet(rows[..n] + [row] + rows[n..]) == RowSet(rows) + {row}
  {
    var rows' := rows[..n] + [row] + rows[n..];
    assert rows'[n] == row;
    assert forall r :: r in rows ==> r in rows[..n] || r in rows[n..];
    assert forall r :: r in rows' <==> r in rows[..n] || r == row || r in rows[n..];
  }

  lemma RemovedSet<R>(rows: seq<Row<R>>, keyOf: R -> Key, n: nat)
    requires Sorted(KeysOf(rows, keyOf)) && n < |rows|
    ensures RowSet(rows[..n] + rows[n + 1..]) == RowSet(rows) - {rows[n]}
  {
    var ks, rows' := KeysOf(rows, keyOf), rows[..n] + rows[n + 1..];
    forall i | 0 <= i < |rows| && i != n
      ensures rows[i] != rows[n] && rows[i] in rows'
    {
      CompareIsTotalOrder(ks[i], ks[n], ks[i]);
      assert rows'[if i < n then i else i - 1] == rows[i];
    }
    forall r | r in rows'
      ensures r in rows && r != rows[n]
    {
      var i :| 0 <= i < |rows'| && rows'[i] == r;
      assert r == rows[if i < n then i else i + 1];
    }
  }

  /** rows' is rows without the one that has the key. */
  ghost predicate RowRemoved<R>(rows: seq<Row<R>>, rows': seq<Row<R>>, keyOf: R -> Key, key: Key) {
    var n := Position(KeysOf(rows, keyOf), key);
    && n < |rows| && keyOf(rows[n].rec) == key
    && rows' == rows[..n] + rows[n + 1..] && RowSet(rows') == RowSet(rows) - {rows[n]}
  }

  /** What a deletion by comparison leaves of the table. */
  lemma DeletionEffect<R>(items: seq<Entry>, items': seq<Entry>, records: map<Addr, R>, records': map<Addr, R>,
                          keyOf: R -> Key, key: Key, found: bool, erased: Addr, rows: seq<Row<R>>)
    requires Consistent(items, records, keyOf) && rows == RowsOf(items, records)
    requires Deletion(items, Comparing(records, keyOf, key), found, erased, items')
    requires records' == if found then records - {erased} else records
    ensures Consistent(items', records', keyOf) && found == (key in KeysOf(rows, keyOf))
    ensures found ==> RowRemoved(rows, RowsOf(items', records'), keyOf, key)
    ensures found ==> erased == rows[Position(KeysOf(rows, keyOf), key)].addr
    ensures !found ==> RowsOf(items', records') == rows
  {
    DeletionAt(items, records, keyOf, key, found, erased, items');
    if found {
      var n := Position(KeysOf(rows, keyOf), key);
      DeleteConsistent(items, items', records, records', keyOf, n);
      RemovedSet(rows, keyOf, n);
    }
  }

  ghost predicate DistinctAddrs<R>(rows: seq<Row<R>>) {
    forall i, j :: 0 <= i < j < |rows| ==> rows[i].addr != rows[j].addr
  }

  /** Two tables with the same rows hold them in the same order. */
  lemma RowsUnique<R>(s: seq<Row<R>>, t: seq<Row<R>>, keyOf: R -> Key)
    requires Sorted(KeysOf(s, keyOf)) && Sorted(KeysOf(t, keyOf)) && RowSet(s) == RowSet(t)
    ensures s == t
  {
    var ks, kt := KeysOf(s, keyOf), KeysOf(t, keyOf);
    forall k
      ensures k in ks <==> k in kt
    {
      if k in ks {
        var i :| 0 <= i < |s| && ks[i] == k;
        assert s[i] in RowSet(t);
        var j :| 0 <= j < |t| && t[j] == s[i];
        assert kt[j] == k;
      }
      if k in kt {
        var i :| 0 <= i < |t| && kt[i] == k;
        assert t[i] in RowSet(s);
        var j :| 0 <= j < |s| && s[j] == t[i];
        assert ks[j] == k;
      }
    }
    SortedUnique(ks, kt);
    forall i | 0 <= i < |s|
      ensures s[i] == t[i]
    {
      assert s[i] in RowSet(t);
      var j :| 0 <= j < |t| && t[j] == s[i];
      CompareIsTotalOrder(ks[i], kt[j], ks[i]);
    }
  }

  lemma NoSuchAbove(used: set<Addr>, a: Addr)
    requires a in used
    ensures |set x | x in used && x > a| < |set x | x in used && x >= a|
  {
    assert (set x | x in used && x >= a) == (set x | x in used && x > a) + {a};
  }

  /** Some address that is not in use. */
  method Allocate(used: set<Addr>) returns (a: Addr)
    ensures a > 0 && a !in used
  {
    a := 1;
    while a in used
      invariant a > 0
      decreases |set x | x in used && x >= a|
    {
      NoSuchAbove(used, a);
      assert (set x | x in used && x >= a + 1) == (set x | x in used && x > a);
      a := a + 1;
    }
  }

  class Table<R> {
    const keyOf: R -> Key
    const rbt: SmRbt.Rbt
    var records: map<Addr, R>

    ghost var rows: seq<Row<R>>  // the records in key order, with their addresses

    ghost predicate Valid()
      reads this, rbt
    {
      && rbt.Valid() && Consistent(Items(rbt.tree), records, keyOf)
      && rows == RowsOf(Items(rbt.tree), records)
    }

    ghost function Keys(): seq<Key>
      reads this`rows
    {
      KeysOf(rows, keyOf)
    }

    constructor (keyOf: R -> Key)
      ensures Valid() && fresh(rbt) && this.keyOf == keyOf && rows == []
    {
      this.keyOf := keyOf;
      rbt := new SmRbt.Rbt();
      records, rows := map[], [];
    }

    method Insert(rec: R) returns (addr: Addr)
      requires Valid() && keyOf(rec) !in Keys()
      modifies this, rbt
      ensures Valid() && addr > 0 && addr !in old(records) && records == old(records)[addr := rec]
      ensures var n := Position(old(Keys()), keyOf(rec));
        rows == old(rows)[..n] + [Row(addr, rec)] + old(rows)[n..]
      ensures RowSet(rows) == RowSet(old(rows)) + {Row(addr, rec)}
      ensures forall r :: r in old(rows) ==> r.addr != addr
    {
      ghost var items := Items(rbt.tree);
      addr := Allocate(records.Keys);
      var node := Allocate(rbt.nodes.Keys);
      ComparingMonotone(items, records, keyOf, keyOf(rec));
      LowerBoundPosition(items, records, keyOf, keyOf(rec));
      node := rbt.Insert(addr, Comparing(records, keyOf, keyOf(rec)), node);
      records := records[addr := rec];
      InsertConsistent(items, Items(rbt.tree), old(records), records, keyOf, Entry(node, addr), rec);
      rows := RowsOf(Items(rbt.tree), records);
      SplicedSet(old(rows), Position(old(Keys()), keyOf(rec)), Row(addr, rec));
    }

    /** Remove the record with the given key, if there is one. */
    method Delete(key: Key) returns (found: bool)
      requires Valid()
      modifies this, rbt
      ensures Valid() && found == (key in old(Keys()))
      ensures found ==> RowRemoved(old(rows), rows, keyOf, key)
      ensures found ==> records == old(records) - {old(rows)[Position(old(Keys()), key)].addr}
      ensures !found ==> rows == old(rows) && records == old(records)
    {
      ghost var items, was := Items(rbt.tree), records;
      ComparingMonotone(items, records, keyOf, key);
      var erased;
      found, erased := rbt.Delete(Comparing(records, keyOf, key));
      if found {
        records := records - {erased};
      }
      DeletionEffect(items, Items(rbt.tree), was, records, keyOf, key, found, erased, rows);
      rows := RowsOf(Items(rbt.tree), records);
    }

    /** The record stored at an address. */
    method Load(addr: Addr, ghost n: nat) returns (rec: R)
      requires Valid() && n < |rows| && addr == rows[n].addr
      ensures rec == rows[n].rec
    {
      assert rows[n] in rows;
      rec := records[addr];
    }

    lemma AddrsDistinct()
      requires Valid()
      ensures DistinctAddrs(rows)
      ensures forall r :: r in rows ==> r.addr in records && records[r.addr] == r.rec
    {
      var ks := Keys();
      forall i, j | 0 <= i < j < |rows|
        ensures rows[i].addr != rows[j].addr
      {
        CompareIsTotalOrder(ks[i], ks[j], ks[i]);
      }
    }

    // ---------------------------------------------------------- reading

    /** The tree node at a position, or the null address outside of the table. */
    ghost function Elt(i: int): Addr
      reads rbt
    {
      AddrAt(Items(rbt.tree), i)
    }

    lemma EltInside(i: int)
      requires Valid()
      ensures Elt(i) != 0 <==> 0 <= i < |rows|
      ensures 0 <= i < |rows| ==> Elt(i) in rbt.nodes && rbt.nodes[Elt(i)].data == rows[i].addr
    {
      if 0 <= i < |rows| {
        EntryInMemory(rbt.nodes, 0, rbt.tree, Items(rbt.tree)[i]);
      }
    }

    /** The element with the given key, or else the one that would follow it. */
    method Search(key: Key) returns (elt: Addr, nextElt: Addr)
      requires Valid()
      ensures elt != 0 <==> key in Keys()
      ensures elt != 0 ==> elt == Elt(Position(Keys(), key)) && nextElt == 0
      ensures elt == 0 ==> nextElt == Elt(Position(Keys(), key))
    {
      ghost var items, n := Items(rbt.tree), Position(Keys(), key);
      ComparingMonotone(items, records, keyOf, key);
      LowerBoundPosition(items, records, keyOf, key);
      elt, nextElt := rbt.Search(Comparing(records, keyOf, key));
      if elt != 0 {
        MatchPosition(items, records, keyOf, key, Entry(elt, rbt.nodes[elt].data));
      } else {
        NoMatch(items, records, keyOf, key);
      }
    }

    method Get(elt: Addr, ghost i: nat) returns (row: Row<R>)
      requires Valid() && i < |rows| && elt == Elt(i)
      ensures row == rows[i]
    {
      EltInside(i);
      var addr := rbt.nodes[elt].data;
      row := Row(addr, records[addr]);
    }

    method Next(elt: Addr, ghost i: nat) returns (next: Addr)
      requires Valid() && i < |rows| && elt == Elt(i)
      ensures next == Elt(i + 1)
    {
      next := rbt.Traverse(elt, Right, i);
    }

    method Prev(elt: Addr, ghost i: nat) returns (prev: Addr)
      requires Valid() && i < |rows| && elt == Elt(i)
      ensures prev == Elt(i - 1)
    {
      prev := rbt.Traverse(elt, Left, i);
    }

    method Last() returns (last: Addr)
      requires Valid()
      ensures last == Elt(|rows| - 1)
    {
      last := rbt.Last();
    }

    /** What `for (search(key, &elt); elt; elt = next(elt))` visits: a search that finds the
        key itself leaves no successor, and so visits nothing. */
    ghost function Visited(key: Key): seq<Row<R>>
      requires Valid()
      reads this, rbt
    {
      rows[ScanStart(Keys(), key)..]
    }

    /** Collect the rows from an element on, one `next` at a time. */
    method Collect(from: Addr, ghost n: nat) returns (visited: seq<Row<R>>)
      requires Valid() && n <= |rows| && from == Elt(n)
      ensures visited == rows[n..]
    {
      var elt := from;
      ghost var i := n;
      visited := [];
      EltInside(i);
      while elt != 0
        invariant n <= i <= |rows| && elt == Elt(i) && visited == rows[n..i] && (elt != 0 <==> i < |rows|)
        decreases |rows| - i
      {
        var row := Get(elt, i);
        visited := visited + [row];
        elt := Next(elt, i);
        i := i + 1;
        EltInside(i);
      }
    }

    method Scan(key: Key) returns (visited: seq<Row<R>>)
      requires Valid()
      ensures visited == Visited(key)
    {
      var found, elt := Search(key);
      if found != 0 {
        visited := [];
      } else {
        visited := Collect(elt, Position(Keys(), key));
      }
    }

    /** What `for (elt = first(); elt; elt = next(elt))` visits. */
    method ScanAll() returns (visited: seq<Row<R>>)
      requires Valid()
      ensures visited == rows
    {
      var elt := rbt.First();
      visited := Collect(elt, 0);
    }
  }
}
