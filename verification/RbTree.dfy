/** Red-black trees and zippers as values: the abstraction that the shared-memory
    tree (module SmRbt) is proved against. */
module RbTree {
  type Addr = int  // an address in a partition; 0 is the null address

  /** Where the dummy root lives: not in the partition, but on the stack. */
  const STACK: Addr := -1

  datatype Direction = Left | Right {
    function Other(): Direction {
      if this == Left then Right else Left
    }
  }

  /** One record of the tree in memory. */
  datatype RbtNode = RbtNode(parent: Addr, left: Addr, right: Addr, data: Addr, red: bool) {
    function Child(d: Direction): Addr {
      if d == Left then left else right
    }

    function WithChild(d: Direction, a: Addr): RbtNode {
      if d == Left then this.(left := a) else this.(right := a)
    }
  }

  type Memory = map<Addr, RbtNode>

  datatype Entry = Entry(addr: Addr, data: Addr)

  // ---------------------------------------------------------------- trees

  datatype Tree = Leaf | Node(red: bool, left: Tree, addr: Addr, data: Addr, right: Tree) {
    function Child(d: Direction): Tree
      requires Node?
    {
      if d == Left then left else right
    }

    function Root(): Addr {
      if Leaf? then 0 else addr
    }

    predicate IsRed() {
      Node? && red
    }
  }

  /** The node with `child` on side `d` and `other` on the opposite side. */
  function Mk(d: Direction, red: bool, child: Tree, addr: Addr, data: Addr, other: Tree): Tree {
    if d == Left then Node(red, child, addr, data, other) else Node(red, other, addr, data, child)
  }

  ghost function Items(t: Tree): seq<Entry> {
    if t.Leaf? then [] else Items(t.left) + [Entry(t.addr, t.data)] + Items(t.right)
  }

  ghost function Addrs(t: Tree): set<Addr> {
    if t.Leaf? then {} else {t.addr} + Addrs(t.left) + Addrs(t.right)
  }

  ghost predicate Distinct(t: Tree) {
    t.Node? ==>
      && t.addr > 0
      && t.addr !in Addrs(t.left) && t.addr !in Addrs(t.right)
      && Addrs(t.left) !! Addrs(t.right)
      && Distinct(t.left) && Distinct(t.right)
  }

  ghost function Size(t: Tree): nat {
    if t.Leaf? then 0 else 1 + Size(t.left) + Size(t.right)
  }

  /** Black height along the left spine; Balanced makes it the height of every path. */
  ghost function Height(t: Tree): nat {
    if t.Leaf? then 0 else Height(t.left) + if t.red then 0 else 1
  }

  ghost predicate Balanced(t: Tree) {
    t.Node? ==> Height(t.left) == Height(t.right) && Balanced(t.left) && Balanced(t.right)
  }

  ghost predicate NoRedRed(t: Tree) {
    t.Node? ==>
      && (t.red ==> !t.left.IsRed() && !t.right.IsRed())
      && NoRedRed(t.left) && NoRedRed(t.right)
  }

  ghost predicate RedBlack(t: Tree) {
    Balanced(t) && NoRedRed(t)
  }

  /** The memory at and below t.Root() is exactly t, parent links included. */
  ghost predicate Rep(m: Memory, parent: Addr, t: Tree)
    decreases t
  {
    t.Node? ==>
      && t.addr in m
      && m[t.addr] == RbtNode(parent, t.left.Root(), t.right.Root(), t.data, t.red)
      && Rep(m, t.addr, t.left) && Rep(m, t.addr, t.right)
  }

  ghost predicate SameOn(m: Memory, m': Memory, s: set<Addr>) {
    forall a :: a in s && a in m ==> a in m' && m'[a] == m[a]
  }

  lemma {:induction false} RepFrame(m: Memory, m': Memory, parent: Addr, t: Tree)
    requires Rep(m, parent, t) && SameOn(m, m', Addrs(t))
    ensures Rep(m', parent, t)
    decreases t
  {
    if t.Node? {
      RepFrame(m, m', t.addr, t.left);
      RepFrame(m, m', t.addr, t.right);
    }
  }

  lemma {:induction false} RepAddrs(m: Memory, parent: Addr, t: Tree)
    requires Rep(m, parent, t)
    ensures Addrs(t) <= m.Keys
    decreases t
  {
    if t.Node? {
      RepAddrs(m, t.addr, t.left);
      RepAddrs(m, t.addr, t.right);
    }
  }

  lemma RootAddr(t: Tree)
    ensures t.Node? ==> t.Root() in Addrs(t) && (Distinct(t) ==> t.Root() > 0)
    ensures t.Leaf? ==> Addrs(t) == {}
  {
  }

  lemma RootRed(m: Memory, parent: Addr, t: Tree)
    requires Rep(m, parent, t) && Distinct(t)
    ensures t.Root() != 0 ==> t.Root() in m
    ensures t.IsRed() <==> t.Root() != 0 && m[t.Root()].red
  {
  }

  lemma {:induction false} NoStack(t: Tree)
    requires Distinct(t)
    ensures forall a :: a in Addrs(t) ==> a > 0
  {
    if t.Node? {
      NoStack(t.left);
      NoStack(t.right);
    }
  }

  /** Only the root of a subtree mentions its parent. */
  lemma RepNewParent(m: Memory, parent: Addr, t: Tree, m': Memory, parent': Addr)
    requires Rep(m, parent, t) && Distinct(t)
    requires t.Node? ==> SameOn(m, m', Addrs(t) - {t.addr})
    requires t.Node? ==> t.addr in m' && m'[t.addr] == m[t.addr].(parent := parent')
    ensures Rep(m', parent', t)
  {
    if t.Node? {
      RepFrame(m, m', t.addr, t.left);
      RepFrame(m, m', t.addr, t.right);
    }
  }

  // ---------------------------------------------------------------- zippers

  /** The path from the dummy root down to a position: each frame is an ancestor, the
      side it was left on, and the subtree on its other side. */
  datatype Ctx = Top | Frame(dir: Direction, up: Ctx, red: bool, addr: Addr, data: Addr, sib: Tree) {
    function Parent(): Addr {
      if Top? then 0 else addr
    }

    /** The pointer form of Parent: the dummy root stands above the root. */
    function Pointer(): Addr {
      if Top? then STACK else addr
    }

    function Side(): Direction {
      if Top? then Right else dir
    }
  }

  ghost function Plug(c: Ctx, t: Tree): Tree {
    if c.Top? then t else Plug(c.up, Mk(c.dir, c.red, t, c.addr, c.data, c.sib))
  }

  /** Entries in order before, and after, the position c leads to. */
  ghost function Before(c: Ctx): seq<Entry> {
    if c.Top? then []
    else if c.dir == Left then Before(c.up)
    else Before(c.up) + Items(c.sib) + [Entry(c.addr, c.data)]
  }

  ghost function After(c: Ctx): seq<Entry> {
    if c.Top? then []
    else if c.dir == Right then After(c.up)
    else [Entry(c.addr, c.data)] + Items(c.sib) + After(c.up)
  }

  ghost function CtxAddrs(c: Ctx): set<Addr> {
    if c.Top? then {STACK} else {c.addr} + Addrs(c.sib) + CtxAddrs(c.up)
  }

  ghost predicate CtxDistinct(c: Ctx) {
    c.Frame? ==>
      && c.addr > 0
      && c.addr !in Addrs(c.sib) && c.addr !in CtxAddrs(c.up)
      && Addrs(c.sib) !! CtxAddrs(c.up)
      && Distinct(c.sib) && CtxDistinct(c.up)
  }

  ghost predicate Sep(c: Ctx, t: Tree) {
    Distinct(t) && CtxDistinct(c) && Addrs(t) !! CtxAddrs(c)
  }

  /** A subtree of black height h plugged into c is balanced. */
  ghost predicate CtxBalanced(c: Ctx, h: nat) {
    c.Frame? ==>
      && Height(c.sib) == h && Balanced(c.sib)
      && CtxBalanced(c.up, h + if c.red then 0 else 1)
  }

  /** A subtree with a root of the given redness plugged into c has no red-red edge. */
  ghost predicate CtxNoRedRed(c: Ctx, red: bool) {
    c.Frame? ==>
      && (c.red ==> !red && !c.sib.IsRed())
      && NoRedRed(c.sib) && CtxNoRedRed(c.up, c.red)
  }

  ghost predicate CtxRep(m: Memory, c: Ctx, hole: Addr) {
    if c.Top? then STACK in m && m[STACK] == RbtNode(0, 0, hole, 0, false)
    else
      && c.addr in m
      && m[c.addr] == RbtNode(c.up.Parent(), 0, 0, c.data, c.red)
                      .WithChild(c.dir, hole).WithChild(c.dir.Other(), c.sib.Root())
      && Rep(m, c.addr, c.sib) && CtxRep(m, c.up, c.addr)
  }

  /** Memory m is the tree Plug(c, t), hung under the dummy root, and nothing else. */
  ghost predicate Focused(m: Memory, c: Ctx, t: Tree) {
    && Sep(c, t) && Rep(m, c.Parent(), t) && CtxRep(m, c, t.Root())
    && m.Keys == Addrs(t) + CtxAddrs(c)
  }

  lemma {:induction false} CtxRepFrame(m: Memory, m': Memory, c: Ctx, hole: Addr)
    requires CtxRep(m, c, hole) && SameOn(m, m', CtxAddrs(c))
    ensures CtxRep(m', c, hole)
  {
    if c.Frame? {
      RepFrame(m, m', c.addr, c.sib);
      CtxRepFrame(m, m', c.up, c.addr);
    }
  }

  /** Storing a new child in the innermost frame changes only the hole. */
  lemma CtxRepSetHole(m: Memory, m': Memory, c: Ctx, hole: Addr, hole': Addr)
    requires CtxRep(m, c, hole) && CtxDistinct(c)
    requires SameOn(m, m', CtxAddrs(c) - {c.Pointer()})
    requires c.Pointer() in m' && m'[c.Pointer()] == m[c.Pointer()].WithChild(c.Side(), hole')
    ensures CtxRep(m', c, hole')
  {
    if c.Frame? {
      RepFrame(m, m', c.addr, c.sib);
      CtxRepFrame(m, m', c.up, c.addr);
    }
  }

  lemma Regroup(a: seq<Entry>, b: seq<Entry>, e: seq<Entry>, f: seq<Entry>, g: seq<Entry>)
    ensures a + (b + e + f) + g == a + b + (e + f + g)
    ensures a + (b + e + f) + g == (a + b + e) + f + g
  {
  }

  lemma {:induction false} PlugItems(c: Ctx, t: Tree)
    ensures Items(Plug(c, t)) == Before(c) + Items(t) + After(c)
  {
    if c.Frame? {
      var u := Mk(c.dir, c.red, t, c.addr, c.data, c.sib);
      PlugItems(c.up, u);
      var e := [Entry(c.addr, c.data)];
      if c.dir == Left {
        Regroup(Before(c.up), Items(t), e, Items(c.sib), After(c.up));
      } else {
        Regroup(Before(c.up), Items(c.sib), e, Items(t), After(c.up));
      }
    }
  }

  lemma {:induction false} PlugRedBlack(c: Ctx, t: Tree)
    requires RedBlack(t) && CtxBalanced(c, Height(t)) && CtxNoRedRed(c, t.IsRed())
    ensures RedBlack(Plug(c, t))
  {
    if c.Frame? {
      PlugRedBlack(c.up, Mk(c.dir, c.red, t, c.addr, c.data, c.sib));
    }
  }

  lemma {:induction false} PlugRep(m: Memory, c: Ctx, t: Tree)
    requires Focused(m, c, t)
    ensures Focused(m, Top, Plug(c, t))
  {
    if c.Frame? {
      var u := Mk(c.dir, c.red, t, c.addr, c.data, c.sib);
      assert Addrs(u) + CtxAddrs(c.up) == Addrs(t) + CtxAddrs(c);
      PlugRep(m, c.up, u);
    }
  }

  /** A tree is focused at its root by writing the dummy root above it. */
  lemma StartFocused(m: Memory, t: Tree)
    requires Distinct(t) && Rep(m, 0, t) && m.Keys == Addrs(t)
    ensures Focused(m[STACK := RbtNode(0, 0, t.Root(), 0, false)], Top, t)
  {
    NoStack(t);
    RepFrame(m, m[STACK := RbtNode(0, 0, t.Root(), 0, false)], 0, t);
  }

  lemma RootItem(t: Tree)
    requires t.Node?
    ensures Entry(t.addr, t.data) in Items(t)
  {
    assert Items(t)[|Items(t.left)|] == Entry(t.addr, t.data);
  }

  /** Moving the focus to a child. */
  function Down(c: Ctx, t: Tree, d: Direction): Ctx
    requires t.Node?
  {
    Frame(d, c, t.red, t.addr, t.data, t.Child(d.Other()))
  }

  lemma DownFocused(m: Memory, c: Ctx, t: Tree, d: Direction)
    requires t.Node? && Focused(m, c, t)
    ensures Focused(m, Down(c, t, d), t.Child(d))
    ensures Plug(Down(c, t, d), t.Child(d)) == Plug(c, t)
    ensures Before(Down(c, t, d)) + Items(t.Child(d)) + After(Down(c, t, d))
         == Before(c) + Items(t) + After(c)
  {
    var c', t' := Down(c, t, d), t.Child(d);
    assert Mk(d, t.red, t', t.addr, t.data, t.Child(d.Other())) == t;
    assert Addrs(t') + CtxAddrs(c') == Addrs(t) + CtxAddrs(c);
    PlugItems(c', t');
    PlugItems(c, t);
  }

  // ---------------------------------------------------------------- rotations

  function Rotated(t: Tree, d: Direction): Tree
    requires t.Node? && t.Child(d.Other()).Node?
  {
    var p := t.Child(d.Other());
    Mk(d, false, Mk(d, true, t.Child(d), t.addr, t.data, p.Child(d)), p.addr, p.data, p.Child(d.Other()))
  }

  function WithSide(t: Tree, d: Direction, u: Tree): Tree
    requires t.Node?
  {
    Mk(d, t.red, u, t.addr, t.data, t.Child(d.Other()))
  }

  predicate CanRotateTwice(t: Tree, d: Direction) {
    t.Node? && t.Child(d.Other()).Node? && t.Child(d.Other()).Child(d).Node?
  }

  function RotatedTwice(t: Tree, d: Direction): Tree
    requires CanRotateTwice(t, d)
  {
    Rotated(WithSide(t, d.Other(), Rotated(t.Child(d.Other()), d.Other())), d)
  }

  lemma Reassociate(a: seq<Entry>, e: seq<Entry>, b: seq<Entry>, f: seq<Entry>, c: seq<Entry>)
    ensures a + e + (b + f + c) == (a + e + b) + f + c
  {
  }

  /** Both rotations leave the traversal order unchanged. */
  lemma RotatedItems(t: Tree, d: Direction)
    requires t.Node? && t.Child(d.Other()).Node?
    ensures Items(Rotated(t, d)) == Items(t)
  {
    var p := t.Child(d.Other());
    var e, f := [Entry(t.addr, t.data)], [Entry(p.addr, p.data)];
    if d == Left {
      Reassociate(Items(t.left), e, Items(p.left), f, Items(p.right));
    } else {
      Reassociate(Items(p.left), f, Items(p.right), e, Items(t.right));
    }
  }

  lemma RotatedSame(t: Tree, d: Direction)
    requires t.Node? && t.Child(d.Other()).Node?
    ensures Items(Rotated(t, d)) == Items(t) && Addrs(Rotated(t, d)) == Addrs(t)
    ensures Distinct(t) ==> Distinct(Rotated(t, d))
  {
    RotatedItems(t, d);
    var p := t.Child(d.Other());
    var low := Mk(d, true, t.Child(d), t.addr, t.data, p.Child(d));
    assert Addrs(low) == {t.addr} + Addrs(t.Child(d)) + Addrs(p.Child(d));
    assert Addrs(p) == {p.addr} + Addrs(p.Child(d)) + Addrs(p.Child(d.Other()));
    assert Addrs(t) == {t.addr} + Addrs(t.Child(d)) + Addrs(p);
    if Distinct(t) {
      assert Distinct(p) && Distinct(low);
      assert p.addr !in Addrs(low) && Addrs(low) !! Addrs(p.Child(d.Other()));
    }
  }

  lemma RotatedTwiceSame(t: Tree, d: Direction)
    requires CanRotateTwice(t, d)
    ensures Items(RotatedTwice(t, d)) == Items(t) && Addrs(RotatedTwice(t, d)) == Addrs(t)
    ensures Distinct(t) ==> Distinct(RotatedTwice(t, d))
  {
    RotatedSame(t.Child(d.Other()), d.Other());
    RotatedSame(WithSide(t, d.Other(), Rotated(t.Child(d.Other()), d.Other())), d);
  }
}
