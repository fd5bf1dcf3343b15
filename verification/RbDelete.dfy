/** What one step of the downward deletion pass does, on zippers. */
module RbDelete {
  import opened RbTree
  import opened RbInsert
  import opened RbScan

  /** The address of the item that matches the key, when it is the next one in order. */
  function Target(s: seq<Entry>, compare: Addr -> int): Addr {
    if s != [] && compare(s[0].data) == 0 then s[0].addr else 0
  }

  /** The pass stands below a red node or above one; the root alone may do without. */
  ghost predicate Reddened(c: Ctx, t: Tree) {
    c.Top? || c.red || t.IsRed() || (c.up.Top? && !c.sib.IsRed())
  }

  /** Everything that holds at the head of the deletion loop. */
  ghost predicate Sinking(m: Memory, items: seq<Entry>, c: Ctx, t: Tree, compare: Addr -> int, target: Addr,
                          node: Addr, nodePtr: Addr, parentPtr: Addr, direction: Direction) {
    && Focused(m, c, t) && Sound(c, t) && Split(c, compare)
    && Before(c) + Items(t) + After(c) == items
    && (c.Frame? || t.Node?) && Reddened(c, t)
    && node == c.Parent() && nodePtr == c.Pointer() && direction == c.Side()
    && (c.Frame? ==> parentPtr == c.up.Pointer())
    && target == Target(After(c), compare)
  }

  lemma StartSinking(m: Memory, t: Tree, compare: Addr -> int)
    requires t.Node? && Distinct(t) && Rep(m, 0, t) && m.Keys == Addrs(t) && RedBlack(t)
    ensures Sinking(m[STACK := RbtNode(0, 0, t.addr, 0, false)], Items(t), Top, t, compare, 0,
                    0, STACK, 0, Right)
  {
    StartFocused(m, t);
    TopItems(t);
  }

  lemma TargetDown(items: seq<Entry>, c: Ctx, t: Tree, compare: Addr -> int)
    requires t.Node? && Before(c) + Items(t) + After(c) == items && Monotone(compare, items)
    ensures Target(After(Down(c, t, Toward(compare(t.data)))), compare)
         == if compare(t.data) == 0 then t.addr else Target(After(c), compare)
  {
    var i, j := |Before(c)| + |Items(t.left)|, |Before(c) + Items(t)|;
    assert items[i] == Entry(t.addr, t.data);
    if After(c) != [] {
      assert items[j] == After(c)[0];
    }
  }

  lemma WeakerCtx(c: Ctx, red: bool)
    requires CtxNoRedRed(c, red)
    ensures CtxNoRedRed(c, false)
  {
  }

  /** Rebuilding the innermost frame's subtree as w, with the same node still on the way
      down to t, does not change what stands before and after t. */
  lemma SameAround(c: Ctx, t: Tree, w: Tree)
    requires c.Frame? && w.Node? && w.Child(c.dir).Node?
    requires var p := w.Child(c.dir); p.addr == c.addr && p.data == c.data && Items(p.Child(c.dir)) == Items(t)
    requires Items(w) == Items(Under(c, t))
    ensures var c' := Down(Down(c.up, w, c.dir), w.Child(c.dir), c.dir);
      Before(c') == Before(c) && After(c') == After(c)
  {
    var p, q := w.Child(c.dir), w.Child(c.dir.Other());
    var b := p.Child(c.dir.Other());
    var e, f := [Entry(c.addr, c.data)], [Entry(w.addr, w.data)];
    var n := |Items(t)|;
    if c.dir == Left {
      Reassociate(Items(t), e, Items(b), f, Items(q));
      assert Items(c.sib) == Items(Under(c, t))[n + 1..];
      assert Items(b) + f + Items(q) == Items(w)[n + 1..];
      Regroup(e, Items(b), f, Items(q), After(c.up));
    } else {
      var k := |Items(w)| - n - 1;
      Reassociate(Items(q), f, Items(b), e, Items(t));
      assert Items(c.sib) == Items(Under(c, t))[..k];
      assert Items(q) + f + Items(b) == Items(w)[..k];
      Regroup(Before(c.up), Items(q), f, Items(b), e);
    }
  }

  lemma DownSame(c: Ctx, c': Ctx, t: Tree, t': Tree, d: Direction)
    requires Before(c) == Before(c') && After(c) == After(c')
    requires t.Node? && t'.Node? && t'.addr == t.addr && t'.data == t.data
    requires t'.Child(d.Other()) == t.Child(d.Other())
    ensures Before(Down(c', t', d)) == Before(Down(c, t, d)) && After(Down(c', t', d)) == After(Down(c, t, d))
  {
  }

  // ------------------------------------------------------------ the three cases

  /** A red child on the other side is rotated above the node. */
  lemma RedSiblingSound(c: Ctx, t: Tree, d: Direction)
    requires t.Node? && !t.red && !t.Child(d).IsRed() && t.Child(d.Other()).IsRed() && Sound(c, t)
    ensures Sound(c, Rotated(t, d)) && Rotated(t, d).Child(d).IsRed()
  {
    var p := t.Child(d.Other());
    var low := Mk(d, true, t.Child(d), t.addr, t.data, p.Child(d));
    assert RedBlack(p) && RedBlack(low) && Height(low) == Height(p);
    WeakerCtx(c, t.red);
  }

  /** A black node and its black sibling, without red children, turn red under a black parent. */
  function Pushed(c: Ctx, t: Tree): Tree
    requires c.Frame? && t.Node? && c.sib.Node?
  {
    Mk(c.dir, false, t.(red := true), c.addr, c.data, c.sib.(red := true))
  }

  lemma PushedSound(c: Ctx, t: Tree)
    requires c.Frame? && t.Node? && c.sib.Node? && Sound(c, t) && Reddened(c, t)
    requires !t.red && !t.left.IsRed() && !t.right.IsRed()
    requires !c.sib.left.IsRed() && !c.sib.right.IsRed()
    ensures Sound(c.up, Pushed(c, t))
    ensures Items(Pushed(c, t)) == Items(Under(c, t)) && Addrs(Pushed(c, t)) == Addrs(Under(c, t))
    ensures Distinct(Under(c, t)) ==> Distinct(Pushed(c, t))
  {
    assert !c.sib.red;
    var a, b := t.(red := true), c.sib.(red := true);
    RecoloredSame(t, true);
    RecoloredSame(c.sib, true);
    assert RedBlack(a) && RedBlack(b) && Height(a) + 1 == Height(t) && Height(b) + 1 == Height(c.sib);
    WeakerCtx(c.up, c.red);
  }

  /** The colors given after a rotation at the parent: n is w's grandchild on side d. */
  function Settled(w: Tree, d: Direction): Tree
    requires w.Node? && w.Child(d).Node? && w.Child(d).Child(d).Node? && w.Child(d.Other()).Node?
  {
    var p := w.Child(d);
    Mk(d, true, Mk(d, false, p.Child(d).(red := true), p.addr, p.data, p.Child(d.Other())),
       w.addr, w.data, w.Child(d.Other()).(red := false))
  }

  /** The subtree the code rotates the parent's into. */
  function Borrowed(c: Ctx, t: Tree): Tree
    requires c.Frame? && c.sib.Node? && t.Node?
    requires c.sib.left.IsRed() || c.sib.right.IsRed()
  {
    if c.sib.Child(c.dir).IsRed() then RotatedTwice(Under(c, t), c.dir) else Rotated(Under(c, t), c.dir)
  }

  lemma BorrowedShape(c: Ctx, t: Tree)
    requires c.Frame? && c.sib.Node? && t.Node?
    requires c.sib.left.IsRed() || c.sib.right.IsRed()
    ensures var w := Borrowed(c, t);
      && w.Node? && w.Child(c.dir).Node? && w.Child(c.dir).Child(c.dir) == t && w.Child(c.dir.Other()).Node?
  {
  }

  lemma SettledSound(c: Ctx, t: Tree)
    requires c.Frame? && t.Node? && c.sib.Node? && Sound(c, t) && Reddened(c, t)
    requires !t.red && !t.left.IsRed() && !t.right.IsRed()
    requires c.sib.left.IsRed() || c.sib.right.IsRed()
    ensures var w := Borrowed(c, t);
      && w.Node? && w.Child(c.dir).Node? && w.Child(c.dir).Child(c.dir) == t && w.Child(c.dir.Other()).Node?
      && w.Child(c.dir).addr == c.addr && w.Child(c.dir).data == c.data
      && Sound(c.up, Settled(w, c.dir))
  {
    var w, d, s := Borrowed(c, t), c.dir, c.sib;
    assert !s.red && RedBlack(s) && Height(s) == Height(t);
    assert RedBlack(s.left) && RedBlack(s.right);
    var a := t.(red := true);
    assert RedBlack(a) && Height(a) + 1 == Height(t);
    var p := Mk(d, false, a, c.addr, c.data, w.Child(d).Child(d.Other()));
    assert RedBlack(p) && Height(p) == Height(t);
    if s.Child(d).IsRed() {
      var r := s.Child(d);
      assert w.Child(d.Other()) == Mk(d.Other(), true, s.Child(d.Other()), s.addr, s.data, r.Child(d.Other()));
    } else {
      assert w.Child(d.Other()) == s.Child(d.Other());
    }
    var q := w.Child(d.Other()).(red := false);
    assert RedBlack(q) && Height(q) == Height(t);
    assert Settled(w, d) == Mk(d, true, p, w.addr, w.data, q);
    WeakerCtx(c.up, c.red);
  }

  /** The pass one level below t, which stands at w's grandchild. */
  function Deep(up: Ctx, w: Tree, d: Direction, e: Direction): Ctx
    requires w.Node? && w.Child(d).Node? && w.Child(d).Child(d).Node?
  {
    Down(Down(Down(up, w, d), w.Child(d), d), w.Child(d).Child(d), e)
  }

  /** Descending through a rebuilt, sound subtree w to below the node it has on the way. */
  lemma DeepDown(m: Memory, c: Ctx, t: Tree, w: Tree, e: Direction)
    requires c.Frame? && t.Node? && w.Node? && w.Child(c.dir).Node?
    requires var p := w.Child(c.dir); p.addr == c.addr && p.data == c.data && p.Child(c.dir) == t.(red := true)
    requires Items(w) == Items(Under(c, t))
    requires Focused(m, c.up, w) && Sound(c.up, w)
    ensures var c' := Deep(c.up, w, c.dir, e);
      && Focused(m, c', t.Child(e)) && Sound(c', t.Child(e)) && Reddened(c', t.Child(e))
      && Before(c') == Before(Down(c, t, e)) && After(c') == After(Down(c, t, e))
  {
    var p := w.Child(c.dir);
    var c1 := Down(c.up, w, c.dir);
    var c2 := Down(c1, p, c.dir);
    DownFocused(m, c.up, w, c.dir);
    DownFocused(m, c1, p, c.dir);
    DownFocused(m, c2, t.(red := true), e);
    DownSound(c.up, w, c.dir);
    DownSound(c1, p, c.dir);
    DownSound(c2, t.(red := true), e);
    RecoloredSame(t, true);
    SameAround(c, t, w);
    DownSame(c, c2, t, t.(red := true), e);
  }

  lemma SettledItems(w: Tree, d: Direction)
    requires w.Node? && w.Child(d).Node? && w.Child(d).Child(d).Node? && w.Child(d.Other()).Node?
    ensures Items(Settled(w, d)) == Items(w)
  {
    var p := w.Child(d);
    RecoloredSame(p.Child(d), true);
    RecoloredSame(w.Child(d.Other()), false);
    var p' := Mk(d, false, p.Child(d).(red := true), p.addr, p.data, p.Child(d.Other()));
    assert Items(p') == Items(p);
  }

  lemma PushedDown(m: Memory, c: Ctx, t: Tree, e: Direction)
    requires c.Frame? && t.Node? && c.sib.Node? && Focused(m, c.up, Pushed(c, t)) && Sound(c.up, Pushed(c, t))
    ensures var c' := Down(Down(c.up, Pushed(c, t), c.dir), t.(red := true), e);
      && Focused(m, c', t.Child(e)) && Sound(c', t.Child(e)) && Reddened(c', t.Child(e))
      && Before(c') == Before(Down(c, t, e)) && After(c') == After(Down(c, t, e))
  {
    var w, t' := Pushed(c, t), t.(red := true);
    var c1 := Down(c.up, w, c.dir);
    DownFocused(m, c.up, w, c.dir);
    DownFocused(m, c1, t', e);
    DownSound(c.up, w, c.dir);
    DownSound(c1, t', e);
    RecoloredSame(c.sib, true);
    DownSame(c, c1, t, t', e);
  }

  /** c' is where the pass stands after leaving t on side e, whatever was rebuilt above. */
  ghost predicate Arrived(m: Memory, c': Ctx, c: Ctx, t: Tree, e: Direction)
    requires t.Node?
  {
    && Focused(m, c', t.Child(e)) && Sound(c', t.Child(e)) && Reddened(c', t.Child(e))
    && c'.Frame? && c'.addr == t.addr && c'.dir == e
    && Before(c') == Before(Down(c, t, e)) && After(c') == After(Down(c, t, e))
  }

  lemma ArrivedDirectly(m: Memory, c: Ctx, t: Tree, e: Direction)
    requires t.Node? && Focused(m, c, t) && Sound(c, t)
    requires t.red || t.Child(e).IsRed() || (c.Top? && !t.Child(e.Other()).IsRed())
    ensures Arrived(m, Down(c, t, e), c, t, e)
  {
    DownFocused(m, c, t, e);
    DownSound(c, t, e);
  }

  lemma ArrivedByRotation(m: Memory, c: Ctx, t: Tree, e: Direction)
    requires t.Node? && !t.red && !t.Child(e).IsRed() && t.Child(e.Other()).IsRed()
    requires Sound(c, t) && Focused(m, c, Rotated(t, e))
    ensures var w := Rotated(t, e); Arrived(m, Down(Down(c, w, e), w.Child(e), e), c, t, e)
  {
    var w := Rotated(t, e);
    RedSiblingSound(c, t, e);
    RotatedSame(t, e);
    SameAround(Down(c, t, e), t.Child(e), w);
    DownFocused(m, c, w, e);
    DownFocused(m, Down(c, w, e), w.Child(e), e);
    DownSound(c, w, e);
    DownSound(Down(c, w, e), w.Child(e), e);
  }

  lemma NextSink(m: Memory, items: seq<Entry>, c: Ctx, t: Tree, compare: Addr -> int)
    requires t.Node? && Focused(m, c, t) && Split(c, compare)
    requires Before(c) + Items(t) + After(c) == items && Monotone(compare, items)
    ensures var c', t' := Down(c, t, Toward(compare(t.data))), t.Child(Toward(compare(t.data)));
      && Split(c', compare) && Before(c') + Items(t') + After(c') == items
      && Target(After(c'), compare) == if compare(t.data) == 0 then t.addr else Target(After(c), compare)
  {
    SubMonotone(items, Before(c), Items(t), After(c), compare);
    DownSplit(c, t, compare);
    DownFocused(m, c, t, Toward(compare(t.data)));
    TargetDown(items, c, t, compare);
  }

  lemma ArrivedSinking(m: Memory, items: seq<Entry>, c': Ctx, c: Ctx, t: Tree, compare: Addr -> int)
    requires t.Node? && Arrived(m, c', c, t, Toward(compare(t.data)))
    requires var c1, t1 := Down(c, t, Toward(compare(t.data))), t.Child(Toward(compare(t.data)));
      Split(c1, compare) && Before(c1) + Items(t1) + After(c1) == items
    ensures var t1, target := t.Child(Toward(compare(t.data))), Target(After(c'), compare);
      && Sinking(m, items, c', t1, compare, target, t.addr, t.addr, c'.up.Pointer(), c'.dir)
      && t.addr in m && m[t.addr].Child(c'.dir) == t1.Root()
  {
  }

  // ------------------------------------------------------------ unlinking

  /** At the end of the pass the node that is unlinked is a red leaf or the sole root. */
  lemma Unlinkable(c: Ctx)
    requires c.Frame? && Sound(c, Leaf) && Reddened(c, Leaf)
    ensures c.sib == Leaf && (c.red || c.up == Top) && Sound(c.up, Leaf)
  {
    WeakerCtx(c.up, c.red);
  }

  /** c with the data of the next entry in order, which an ancestor holds, replaced. */
  function SetNext(c: Ctx, data: Addr): Ctx {
    if c.Top? then c
    else if c.dir == Left then c.(data := data)
    else c.(up := SetNext(c.up, data))
  }

  lemma {:induction false} SetNextItems(c: Ctx, data: Addr)
    requires After(c) != []
    ensures Before(SetNext(c, data)) == Before(c)
    ensures After(SetNext(c, data)) == [Entry(After(c)[0].addr, data)] + After(c)[1..]
  {
    if c.dir == Right {
      SetNextItems(c.up, data);
    } else {
      assert After(c) == [Entry(c.addr, c.data)] + (Items(c.sib) + After(c.up));
      assert After(SetNext(c, data)) == [Entry(c.addr, data)] + (Items(c.sib) + After(c.up));
    }
  }

  lemma {:induction false} SetNextShape(c: Ctx, data: Addr, h: nat, red: bool)
    requires After(c) != []
    ensures CtxAddrs(SetNext(c, data)) == CtxAddrs(c) && SetNext(c, data).Pointer() == c.Pointer()
    ensures After(c)[0].addr in CtxAddrs(c)
    ensures CtxDistinct(c) ==> CtxDistinct(SetNext(c, data))
    ensures CtxBalanced(c, h) ==> CtxBalanced(SetNext(c, data), h)
    ensures CtxNoRedRed(c, red) ==> CtxNoRedRed(SetNext(c, data), red)
  {
    if c.dir == Right {
      SetNextShape(c.up, data, h + if c.red then 0 else 1, c.red);
    }
  }

  lemma {:induction false} NextInMemory(m: Memory, c: Ctx, hole: Addr)
    requires CtxRep(m, c, hole) && After(c) != []
    ensures After(c)[0].addr in m && m[After(c)[0].addr].data == After(c)[0].data
  {
    if c.dir == Right {
      NextInMemory(m, c.up, c.addr);
    }
  }

  lemma {:induction false} SetNextRep(m: Memory, m': Memory, c: Ctx, data: Addr, hole: Addr)
    requires After(c) != [] && CtxDistinct(c) && CtxRep(m, c, hole)
    requires var a := After(c)[0].addr; a in m && m' == m[a := m[a].(data := data)]
    ensures CtxRep(m', SetNext(c, data), hole)
  {
    SetNextShape(c, data, 0, false);
    if c.dir == Right {
      SetNextShape(c.up, data, 0, false);
      SetNextRep(m, m', c.up, data, c.addr);
    } else {
      CtxRepFrame(m, m', c.up, c.addr);
    }
    RepFrame(m, m', c.addr, c.sib);
  }

  ghost function Data(s: seq<Entry>): seq<Addr> {
    seq(|s|, i requires 0 <= i < |s| => s[i].data)
  }

  /** What the tree holds once the pass, ended at c, has unlinked its last node. */
  ghost function Remainder(c: Ctx): Ctx
    requires c.Frame?
  {
    if c.dir == Left then c.up else SetNext(c.up, c.data)
  }

  lemma {:induction false} DataConcat(a: seq<Entry>, b: seq<Entry>)
    ensures Data(a + b) == Data(a) + Data(b)
  {
  }

  lemma RemainderItems(c: Ctx)
    requires c.Frame? && c.sib == Leaf && After(c) != []
    ensures c.dir == Left ==> Before(Remainder(c)) == Before(c) && After(Remainder(c)) == After(c)[1..]
    ensures c.dir == Right ==>
      && Before(c) == Before(Remainder(c)) + [Entry(c.addr, c.data)]
      && After(Remainder(c)) == [Entry(After(c)[0].addr, c.data)] + After(c)[1..]
  {
    if c.dir == Left {
      assert After(c) == [Entry(c.addr, c.data)] + After(c.up);
    } else {
      SetNextItems(c.up, c.data);
      assert Before(c) == Before(c.up) + [Entry(c.addr, c.data)];
    }
  }

  lemma MovedData(b: seq<Entry>, a: seq<Entry>, e: Entry, f: Entry)
    requires e.data == f.data
    ensures Data(b + ([e] + a)) == Data(b + [f]) + Data(a)
  {
  }

  lemma RemainderData(c: Ctx)
    requires c.Frame? && c.sib == Leaf && After(c) != []
    ensures var r := Remainder(c);
      && Data(Before(r) + Items(Leaf) + After(r)) == Data(Before(c)) + Data(After(c)[1..])
      && |Before(r)| + |Items(Leaf)| + |After(r)| == |Before(c)| + |After(c)| - 1
  {
    var r := Remainder(c);
    var b, a := Before(r), After(r);
    RemainderItems(c);
    assert b + Items(Leaf) + a == b + a;
    if c.dir == Left {
      DataConcat(b, a);
    } else {
      MovedData(b, After(c)[1..], a[0], Entry(c.addr, c.data));
    }
  }

  /** What deletion does to a sequence: its lower-bound item goes, if it matches. */
  ghost predicate Deletion(s: seq<Entry>, compare: Addr -> int, found: bool, erased: Addr, s': seq<Entry>) {
    var at := LowerBound(s, compare);
    if at < |s| && compare(s[at].data) == 0
    then found && erased == s[at].data && Data(s') == Data(s[..at]) + Data(s[at + 1..])
    else !found && s' == s
  }

  lemma Removed(s: seq<Entry>, a: seq<Entry>, b: seq<Entry>, compare: Addr -> int, s': seq<Entry>)
    requires s == a + b && Target(b, compare) != 0
    requires forall x :: x in a ==> compare(x.data) < 0
    requires forall x :: x in b ==> compare(x.data) >= 0
    requires Data(s') == Data(a) + Data(b[1..])
    ensures Deletion(s, compare, true, b[0].data, s')
  {
    LowerBoundSplit(s, a, b, compare);
    assert s[|a| + 1..] == s[|a|..][1..];
  }

  lemma NotFound(s: seq<Entry>, a: seq<Entry>, b: seq<Entry>, compare: Addr -> int)
    requires s == a + b && Target(b, compare) == 0
    requires forall x :: x in a ==> compare(x.data) < 0
    requires forall x :: x in b ==> compare(x.data) >= 0 && x.addr != 0
    ensures Deletion(s, compare, false, 0, s)
  {
    LowerBoundSplit(s, a, b, compare);
    assert b != [] ==> b[0] in b;
  }

  lemma {:induction false} ItemAddrs(t: Tree)
    ensures forall e :: e in Items(t) ==> e.addr in Addrs(t)
  {
    if t.Node? {
      ItemAddrs(t.left);
      ItemAddrs(t.right);
    }
  }

  /** Memory after the last node of the pass is unlinked from its parent and released. */
  lemma Unlinked(m: Memory, m': Memory, c: Ctx)
    requires c.Frame? && c.sib == Leaf && Focused(m, c, Leaf)
    requires m'.Keys == m.Keys - {c.addr} && c.up.Pointer() in m
    requires m'[c.up.Pointer()] == m[c.up.Pointer()].WithChild(c.up.Side(), 0)
    requires SameOn(m, m', m.Keys - {c.addr, c.up.Pointer()})
    ensures Focused(m', c.up, Leaf)
  {
    assert c.up.Pointer() in CtxAddrs(c.up);
    CtxRepSetHole(m, m', c.up, c.addr, 0);
  }
}
