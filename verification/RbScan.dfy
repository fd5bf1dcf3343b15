/** Positions in a tree: what searching and traversing it walk over. */
module RbScan {
  import opened RbTree
  import opened RbInsert

  /** The address at a position of the sequence; beyond either end there is none. */
  function AddrAt(s: seq<Entry>, i: int): Addr {
    if 0 <= i < |s| then s[i].addr else 0
  }

  lemma {:induction false} Locate(m: Memory, c: Ctx, t: Tree, i: nat) returns (c': Ctx, t': Tree)
    requires Focused(m, c, t) && i < |Items(t)|
    ensures Focused(m, c', t') && t'.Node? && t'.addr == Items(t)[i].addr
    ensures Before(c') + Items(t') + After(c') == Before(c) + Items(t) + After(c)
    ensures |Before(c')| + |Items(t'.left)| == |Before(c)| + i
    decreases t
  {
    var k := |Items(t.left)|;
    if i < k {
      DownFocused(m, c, t, Left);
      c', t' := Locate(m, Down(c, t, Left), t.left, i);
    } else if i == k {
      c', t' := c, t;
    } else {
      DownFocused(m, c, t, Right);
      c', t' := Locate(m, Down(c, t, Right), t.right, i - k - 1);
    }
  }

  /** Every entry's node is in memory, at a real address, and holds its data. */
  lemma {:induction false} EntryInMemory(m: Memory, parent: Addr, t: Tree, e: Entry)
    requires Rep(m, parent, t) && Distinct(t) && e in Items(t)
    ensures e.addr > 0 && e.addr in m && m[e.addr].data == e.data
    decreases t
  {
    assert e in Items(t.left) || e == Entry(t.addr, t.data) || e in Items(t.right);
    if e in Items(t.left) {
      EntryInMemory(m, t.addr, t.left, e);
    } else if e in Items(t.right) {
      EntryInMemory(m, t.addr, t.right, e);
    }
  }

  /** The entry at the root of the focused subtree, by position. */
  lemma FocusAt(c: Ctx, t: Tree, items: seq<Entry>)
    requires t.Node? && Before(c) + Items(t) + After(c) == items
    ensures var i := |Before(c)| + |Items(t.left)|; i < |items| && items[i] == Entry(t.addr, t.data)
  {
  }

  /** The innermost frame's entry is next to the focused subtree. */
  lemma FrameAt(c: Ctx, t: Tree, items: seq<Entry>)
    requires c.Frame? && Before(c) + Items(t) + After(c) == items
    ensures c.dir == Left ==> var i := |Before(c)| + |Items(t)|; i < |items| && items[i].addr == c.addr
    ensures c.dir == Right ==> var i := |Before(c)| - 1; 0 <= i < |items| && items[i].addr == c.addr
  {
  }

  lemma NextSearch(m: Memory, items: seq<Entry>, c: Ctx, t: Tree, compare: Addr -> int)
    requires t.Node? && Focused(m, c, t) && Split(c, compare)
    requires Before(c) + Items(t) + After(c) == items && Monotone(compare, items) && compare(t.data) != 0
    requires forall e :: e in After(c) ==> compare(e.data) != 0
    ensures var d := Toward(compare(t.data));
      && Focused(m, Down(c, t, d), t.Child(d)) && Split(Down(c, t, d), compare)
      && Before(Down(c, t, d)) + Items(t.Child(d)) + After(Down(c, t, d)) == items
      && forall e :: e in After(Down(c, t, d)) ==> compare(e.data) != 0
  {
    SubMonotone(items, Before(c), Items(t), After(c), compare);
    DownSplit(c, t, compare);
    DownFocused(m, c, t, Toward(compare(t.data)));
    var k := |Items(t.left)|;
    assert Items(t)[k] == Entry(t.addr, t.data);
    assert Items(t)[k + 1..] == Items(t.right);
    assert compare(t.data) > 0 ==> forall e :: e in Items(t.right) ==> compare(e.data) > 0;
  }

  /** The far end of the subtree on side d is next to t's root. */
  lemma StepDown(m: Memory, items: seq<Entry>, c: Ctx, t: Tree, d: Direction) returns (c': Ctx, t': Tree)
    requires t.Node? && Focused(m, c, t) && Before(c) + Items(t) + After(c) == items
    ensures Focused(m, c', t') && Before(c') + Items(t') + After(c') == items && t' == t.Child(d)
    ensures var i := |Before(c)| + |Items(t.left)|;
      if d == Right then |Before(c')| == i + 1 && |Before(c')| + |Items(t')| == |Before(c)| + |Items(t)|
      else |Before(c')| == |Before(c)| && |Before(c')| + |Items(t')| == i
  {
    c', t' := Down(c, t, d), t.Child(d);
    DownFocused(m, c, t, d);
  }

  lemma StepUp(m: Memory, items: seq<Entry>, c: Ctx, t: Tree) returns (c': Ctx, t': Tree)
    requires c.Frame? && Focused(m, c, t) && Before(c) + Items(t) + After(c) == items
    ensures Focused(m, c', t') && Before(c') + Items(t') + After(c') == items
    ensures c' == c.up && t'.Node? && t'.addr == c.addr
    ensures c.dir == Left ==> |Before(c')| == |Before(c)|
    ensures c.dir == Right ==> |Before(c')| + |Items(t')| == |Before(c)| + |Items(t)|
  {
    c', t' := c.up, Under(c, t);
    UpFocused(m, c, t);
  }

  /** Where a search that runs out of tree has come to. */
  lemma Missed(items: seq<Entry>, c: Ctx, compare: Addr -> int) returns (at: nat)
    requires items == Before(c) + Items(Leaf) + After(c) && Split(c, compare)
    requires forall e :: e in After(c) ==> compare(e.data) != 0
    ensures at == LowerBound(items, compare)
    ensures forall e :: e in items ==> compare(e.data) != 0
    ensures c.Top? ==> items == []
    ensures c.Frame? && c.dir == Left ==> c.addr == AddrAt(items, at)
    ensures c.Frame? && c.dir == Right ==> 0 < at <= |items| && items[at - 1].addr == c.addr
  {
    at := |Before(c)|;
    assert items == Before(c) + After(c);
    LowerBoundSplit(items, Before(c), After(c), compare);
    if c.Frame? {
      FrameAt(c, Leaf, items);
    }
  }

  lemma TopItems(t: Tree)
    ensures Before(Top) + Items(t) + After(Top) == Items(t)
  {
  }
}
