/** What one step of the downward insertion pass does, on zippers. */
module RbInsert {
  import opened RbTree

  /** Which of the pass's ancestor variables are out of date. A rotation leaves them
      stale; no violation can be found again before they have caught up. */
  datatype Stage =
    | Exact       // grandparent and great-grandparent are the true ones
    | StaleGreat  // the great-grandparent is stale
    | StaleBoth   // both are stale

  /** The direction to descend in after comparing a node's data with the key. */
  function Toward(result: int): Direction {
    if result < 0 then Right else Left
  }

  /** A black node that the pass will not recolor. */
  predicate Quiet(t: Tree) {
    t.Node? && !t.red && !(t.left.IsRed() && t.right.IsRed())
  }

  ghost predicate Split(c: Ctx, compare: Addr -> int) {
    && (forall e :: e in Before(c) ==> compare(e.data) < 0)
    && (forall e :: e in After(c) ==> compare(e.data) >= 0)
  }

  ghost predicate Sound(c: Ctx, t: Tree) {
    RedBlack(t) && CtxBalanced(c, Height(t)) && CtxNoRedRed(c, t.IsRed())
  }

  /** Sound, but for a possible red-red edge between c's innermost frame and t. */
  ghost predicate AlmostSound(c: Ctx, t: Tree) {
    && RedBlack(t) && CtxBalanced(c, Height(t))
    && CtxNoRedRed(c, (c.Top? || !c.red) && t.IsRed())
  }

  /** What the pass knows of its ancestor variables when it stands at t below c. */
  ghost predicate Ancestors(c: Ctx, t: Tree, stage: Stage, compare: Addr -> int,
                            grandparent: Addr, great: Addr, prevDirection: Direction) {
    match stage
    case Exact =>
      && (c.Top? ==> grandparent == 0 && great == STACK && !t.IsRed())
      && (c.Frame? ==> grandparent == c.up.Parent())
      && (c.Frame? ==> !(t.IsRed() && c.sib.IsRed()))
      && (c.Frame? && c.up.Frame? && c.red ==> Quiet(t) || !c.up.sib.IsRed())
      && (c.Frame? && c.up.Top? ==> great == STACK && (c.red ==> Quiet(t)))
      && (c.Frame? && c.up.Frame? ==> prevDirection == c.up.dir && great == c.up.up.Pointer())
    case StaleGreat => c.Frame? && c.up.Frame? && grandparent == c.up.addr && Quiet(t)
    case StaleBoth => c.Frame? && !c.red && t.IsRed() && Quiet(t.Child(Toward(compare(t.data))))
                      && grandparent != 0
  }

  /** Work left: after a double rotation the pass revisits one node. */
  ghost function Remaining(t: Tree, stage: Stage, compare: Addr -> int): nat {
    if stage == StaleBoth && t.Node? then Size(t.Child(Toward(compare(t.data)))) + 1 else Size(t)
  }

  /** t with its own color and its children's flipped, if both children are red. */
  function Flipped(t: Tree): Tree
    requires t.Node?
  {
    if t.left.IsRed() && t.right.IsRed()
    then Node(true, t.left.(red := false), t.addr, t.data, t.right.(red := false))
    else t
  }

  lemma RecoloredSame(t: Tree, red: bool)
    requires t.Node?
    ensures var u := t.(red := red);
      Items(u) == Items(t) && Addrs(u) == Addrs(t) && Size(u) == Size(t) && (Distinct(t) ==> Distinct(u))
  {
  }

  lemma Recolored(m: Memory, m': Memory, parent: Addr, t: Tree, red: bool)
    requires t.Node? && Distinct(t) && Rep(m, parent, t)
    requires m' == m[t.addr := m[t.addr].(red := red)]
    ensures Rep(m', parent, t.(red := red))
  {
    RepFrame(m, m', t.addr, t.left);
    RepFrame(m, m', t.addr, t.right);
  }

  lemma FlippedSame(t: Tree)
    requires t.Node?
    ensures Items(Flipped(t)) == Items(t) && Addrs(Flipped(t)) == Addrs(t) && Size(Flipped(t)) == Size(t)
    ensures Distinct(t) ==> Distinct(Flipped(t))
  {
    if t.left.IsRed() && t.right.IsRed() {
      RecoloredSame(t.left, false);
      RecoloredSame(t.right, false);
    }
  }

  lemma FlippedSound(c: Ctx, t: Tree)
    requires t.Node? && Sound(c, t)
    ensures AlmostSound(c, Flipped(t)) && (c.Top? || !c.red || !Flipped(t).IsRed() ==> Sound(c, Flipped(t)))
    ensures Quiet(t) ==> Flipped(t) == t
    ensures Flipped(t) != t ==> !t.red && Quiet(Flipped(t).left) && Quiet(Flipped(t).right)
  {
    if t.left.IsRed() && t.right.IsRed() {
      var l, r := t.left.(red := false), t.right.(red := false);
      assert RedBlack(t.left) && RedBlack(t.right);
      assert RedBlack(l) && Height(l) == Height(t.left) + 1;
      assert RedBlack(r) && Height(r) == Height(t.right) + 1;
      assert Flipped(t) == Node(true, l, t.addr, t.data, r);
    }
  }

  function Colored(t: Tree, top: bool, children: bool): Tree
    requires t.Node? && t.left.Node? && t.right.Node?
  {
    Node(top, t.left.(red := children), t.addr, t.data, t.right.(red := children))
  }

  lemma ColoredFocused(m: Memory, m': Memory, c: Ctx, t: Tree, top: bool, children: bool)
    requires t.Node? && t.left.Node? && t.right.Node? && Focused(m, c, t)
    requires m'.Keys == m.Keys
    requires t.addr in m && t.left.addr in m && t.right.addr in m
    requires m'[t.addr] == m[t.addr].(red := top)
    requires m'[t.left.addr] == m[t.left.addr].(red := children)
    requires m'[t.right.addr] == m[t.right.addr].(red := children)
    requires SameOn(m, m', m.Keys - {t.addr, t.left.addr, t.right.addr})
    ensures Focused(m', c, Colored(t, top, children))
  {
    var l, r := t.left, t.right;
    RecoloredSame(l, children);
    RecoloredSame(r, children);
    Recolored(m, m[l.addr := m[l.addr].(red := children)], t.addr, l, children);
    Recolored(m, m[r.addr := m[r.addr].(red := children)], t.addr, r, children);
    RepFrame(m[l.addr := m[l.addr].(red := children)], m', t.addr, l.(red := children));
    RepFrame(m[r.addr := m[r.addr].(red := children)], m', t.addr, r.(red := children));
    CtxRepFrame(m, m', c, t.addr);
    assert Addrs(Colored(t, top, children)) == Addrs(t);
  }

  /** The tree rooted at c's innermost frame, with t in place. */
  function Under(c: Ctx, t: Tree): Tree
    requires c.Frame?
  {
    Mk(c.dir, c.red, t, c.addr, c.data, c.sib)
  }

  lemma UpFocused(m: Memory, c: Ctx, t: Tree)
    requires c.Frame? && Focused(m, c, t)
    ensures Focused(m, c.up, Under(c, t))
    ensures Before(c.up) + Items(Under(c, t)) + After(c.up) == Before(c) + Items(t) + After(c)
    ensures Down(c.up, Under(c, t), c.dir) == c && Under(c, t).Child(c.dir) == t
  {
    assert Addrs(Under(c, t)) + CtxAddrs(c.up) == Addrs(t) + CtxAddrs(c);
    PlugItems(c, t);
    PlugItems(c.up, Under(c, t));
  }

  /** Rewriting the focused subtree and re-linking it keeps the memory a tree. */
  lemma Refocused(m: Memory, m1: Memory, m': Memory, c: Ctx, t: Tree, t': Tree)
    requires Focused(m, c, t) && Rep(m1, c.Parent(), t')
    requires Addrs(t') == Addrs(t) && Distinct(t')
    requires m1.Keys == m.Keys && SameOn(m, m1, m.Keys - Addrs(t))
    requires c.Pointer() in m1 && m' == m1[c.Pointer() := m1[c.Pointer()].WithChild(c.Side(), t'.Root())]
    ensures Focused(m', c, t')
  {
    assert c.Pointer() in CtxAddrs(c);
    RepFrame(m1, m', c.Parent(), t');
    CtxRepSetHole(m, m', c, t.Root(), t'.Root());
  }

  /** A parent tells its children apart by address. */
  lemma SideOf(m: Memory, c: Ctx, t: Tree)
    requires Focused(m, c, t) && t.Node?
    ensures c.Pointer() in m
    ensures m[c.Pointer()].Child(c.Side()) == t.addr && m[c.Pointer()].Child(c.Side().Other()) != t.addr
  {
    if c.Frame? {
      RootAddr(c.sib);
    }
  }

  /** The zipper after the single rotation of t's red parent and black grandparent. */
  function SingleCtx(c: Ctx): Ctx
    requires c.Frame? && c.up.Frame?
  {
    var g := c.up;
    Frame(c.dir, g.up, false, c.addr, c.data, Mk(c.dir.Other(), true, g.sib, g.addr, g.data, c.sib))
  }

  lemma SingleSound(c: Ctx, t: Tree)
    requires c.Frame? && c.up.Frame? && c.dir == c.up.dir
    requires c.red && t.IsRed() && AlmostSound(c, t) && !c.up.sib.IsRed()
    ensures Rotated(Under(c.up, Under(c, t)), c.dir.Other()) == Under(SingleCtx(c), t)
    ensures Sound(SingleCtx(c), t)
  {
    var g, h := c.up, Height(t);
    assert CtxNoRedRed(g, true) && CtxNoRedRed(g.up, false);
    assert CtxBalanced(g, h) && CtxBalanced(g.up, h + 1);
    var low := Mk(c.dir.Other(), true, g.sib, g.addr, g.data, c.sib);
    assert RedBlack(low) && Height(low) == h;
  }

  lemma SingleSame(c: Ctx)
    requires c.Frame? && c.up.Frame? && c.dir == c.up.dir
    ensures Before(SingleCtx(c)) == Before(c) && After(SingleCtx(c)) == After(c)
  {
    var g := c.up;
    var e, f := [Entry(c.addr, c.data)], [Entry(g.addr, g.data)];
    if c.dir == Left {
      assert After(c) == e + Items(c.sib) + (f + Items(g.sib) + After(g.up));
      Regroup(e, Items(c.sib), f, Items(g.sib), After(g.up));
    } else {
      assert Before(c) == (Before(g.up) + Items(g.sib) + f) + Items(c.sib) + e;
      Regroup(Before(g.up), Items(g.sib), f, Items(c.sib), e);
    }
  }

  lemma DoubleSound(c: Ctx, t: Tree)
    requires c.Frame? && c.up.Frame? && c.dir != c.up.dir
    requires c.red && t.IsRed() && AlmostSound(c, t) && !c.up.sib.IsRed()
    ensures CanRotateTwice(Under(c.up, Under(c, t)), c.dir)
    ensures var u := RotatedTwice(Under(c.up, Under(c, t)), c.dir);
      && Sound(c.up.up, u)
      && u == Mk(c.up.dir, false, Mk(c.dir, true, t.Child(c.up.dir), c.addr, c.data, c.sib), t.addr, t.data,
                 Mk(c.up.dir, true, t.Child(c.dir), c.up.addr, c.up.data, c.up.sib))
  {
    var g, h := c.up, Height(t);
    assert CtxNoRedRed(g, true) && CtxNoRedRed(g.up, false);
    assert CtxBalanced(g, h) && CtxBalanced(g.up, h + 1);
    var p' := Mk(c.dir, true, t.Child(g.dir), c.addr, c.data, c.sib);
    var g' := Mk(g.dir, true, t.Child(c.dir), g.addr, g.data, g.sib);
    assert RedBlack(p') && Height(p') == h;
    assert RedBlack(g') && Height(g') == h;
    var u := RotatedTwice(Under(g, Under(c, t)), c.dir);
    assert u == Mk(g.dir, false, p', t.addr, t.data, g');
  }

  /** The tree from the grandparent on, with a red-red edge, and what it is rotated into. */
  lemma MendedTree(c: Ctx, t: Tree) returns (top: Tree, top': Tree)
    requires c.Frame? && c.up.Frame? && c.red && t.IsRed() && AlmostSound(c, t) && !c.up.sib.IsRed()
    ensures top == Under(c.up, Under(c, t)) && Items(top') == Items(top) && Addrs(top') == Addrs(top)
    ensures Distinct(top) ==> Distinct(top')
    ensures c.dir == c.up.dir ==>
      top.Child(c.dir).Node? && top' == Rotated(top, c.dir.Other()) && top' == Under(SingleCtx(c), t)
    ensures c.dir != c.up.dir ==> CanRotateTwice(top, c.dir) && top' == RotatedTwice(top, c.dir)
  {
    top := Under(c.up, Under(c, t));
    if c.dir == c.up.dir {
      SingleSound(c, t);
      RotatedSame(top, c.dir.Other());
      top' := Rotated(top, c.dir.Other());
    } else {
      DoubleSound(c, t);
      RotatedTwiceSame(top, c.dir);
      top' := RotatedTwice(top, c.dir);
    }
  }

  /** Descending without a rotation: the variables are, or become, exact. */
  lemma Descend(c: Ctx, t: Tree, u: Tree, stage: Stage, compare: Addr -> int,
                grandparent: Addr, great: Addr, prevDirection: Direction)
    requires t.Node? && u == Flipped(t) && Sound(c, t) && Sound(c, u) && CtxDistinct(c)
    requires Ancestors(c, t, stage, compare, grandparent, great, prevDirection)
    ensures var d := Toward(compare(u.data));
      var stage' := if stage == StaleBoth then StaleGreat else Exact;
      && Ancestors(Down(c, u, d), u.Child(d), stage', compare, c.Parent(),
                   if grandparent != 0 then grandparent else great, c.Side())
      && Remaining(u.Child(d), stage', compare) < Remaining(t, stage, compare)
  {
    FlippedSame(t);
    FlippedSound(c, t);
  }

  lemma SplitSide(c: Ctx, compare: Addr -> int)
    requires c.Frame? && Split(c, compare)
    ensures Toward(compare(c.data)) == c.dir && Split(c.up, compare)
  {
    var e := Entry(c.addr, c.data);
    if c.dir == Left {
      assert After(c)[0] == e;
      assert forall x :: x in After(c.up) ==> x in After(c);
    } else {
      assert e in Before(c);
      assert forall x :: x in Before(c.up) ==> x in Before(c);
    }
  }

  lemma DescendSingle(c: Ctx, t: Tree, compare: Addr -> int, great: Addr, prevDirection: Direction)
    requires t.Node? && c.Frame? && c.up.Frame? && c.red && Flipped(t).IsRed() && Sound(c, t)
    ensures var u := Flipped(t); var d := Toward(compare(u.data));
      && Ancestors(Down(SingleCtx(c), u, d), u.Child(d), StaleGreat, compare, c.addr, great, prevDirection)
      && Remaining(u.Child(d), StaleGreat, compare) < Remaining(t, Exact, compare)
  {
    FlippedSame(t);
    FlippedSound(c, t);
  }

  lemma DescendDouble(c: Ctx, t: Tree, w: Tree, compare: Addr -> int, great: Addr, prevDirection: Direction)
    requires t.Node? && c.Frame? && c.up.Frame? && c.dir != c.up.dir && c.red && Flipped(t).IsRed() && Sound(c, t)
    requires CtxDistinct(c) && Split(c, compare)
    requires var u := Flipped(t);
      w == Mk(c.up.dir, false, Mk(c.dir, true, u.Child(c.up.dir), c.addr, c.data, c.sib), u.addr, u.data,
              Mk(c.up.dir, true, u.Child(c.dir), c.up.addr, c.up.data, c.up.sib))
    ensures var d := Toward(compare(w.data));
      && Ancestors(Down(c.up.up, w, d), w.Child(d), StaleBoth, compare, c.addr, great, prevDirection)
      && Remaining(w.Child(d), StaleBoth, compare) < Remaining(t, Exact, compare)
  {
    FlippedSame(t);
    FlippedSound(c, t);
    SplitSide(c, compare);
    SplitSide(c.up, compare);
  }

  lemma DownSound(c: Ctx, t: Tree, d: Direction)
    requires t.Node? && Sound(c, t)
    ensures Sound(Down(c, t, d), t.Child(d))
  {
  }

  lemma MonotoneParts(s: seq<Entry>, a: seq<Entry>, e: Entry, b: seq<Entry>, compare: Addr -> int)
    requires s == a + [e] + b && Monotone(compare, s)
    ensures compare(e.data) < 0 ==> forall x :: x in a ==> compare(x.data) < 0
    ensures compare(e.data) >= 0 ==> forall x :: x in b ==> compare(x.data) >= 0
  {
    assert s[|a|] == e;
    assert forall i :: 0 <= i < |a| ==> s[i] == a[i];
    assert forall i :: 0 <= i < |b| ==> s[|a| + 1 + i] == b[i];
  }

  lemma DownSplit(c: Ctx, t: Tree, compare: Addr -> int)
    requires t.Node? && Split(c, compare)
    requires Monotone(compare, Items(t))
    ensures Split(Down(c, t, Toward(compare(t.data))), compare)
  {
    MonotoneParts(Items(t), Items(t.left), Entry(t.addr, t.data), Items(t.right), compare);
  }

  /** The comparison with the key moves from negative through zero to positive. */
  ghost predicate Monotone(compare: Addr -> int, s: seq<Entry>) {
    forall i, j :: 0 <= i < j < |s| ==>
      && (compare(s[j].data) < 0 ==> compare(s[i].data) < 0)
      && (compare(s[j].data) == 0 ==> compare(s[i].data) <= 0)
  }

  /** How many leading entries compare below the key. */
  ghost function LowerBound(s: seq<Entry>, compare: Addr -> int): (n: nat)
    ensures n <= |s|
  {
    if s == [] || compare(s[0].data) >= 0 then 0 else 1 + LowerBound(s[1..], compare)
  }

  lemma {:induction false} LowerBoundAt(s: seq<Entry>, compare: Addr -> int, n: nat)
    requires n <= |s|
    requires forall i :: 0 <= i < n ==> compare(s[i].data) < 0
    requires n < |s| ==> compare(s[n].data) >= 0
    ensures LowerBound(s, compare) == n
  {
    if n > 0 {
      LowerBoundAt(s[1..], compare, n - 1);
    }
  }

  lemma SubMonotone(s: seq<Entry>, a: seq<Entry>, b: seq<Entry>, c: seq<Entry>, compare: Addr -> int)
    requires s == a + b + c && Monotone(compare, s)
    ensures Monotone(compare, b)
  {
    forall i, j | 0 <= i < j < |b|
      ensures (compare(b[j].data) < 0 ==> compare(b[i].data) < 0)
           && (compare(b[j].data) == 0 ==> compare(b[i].data) <= 0)
    {
      assert s[|a| + i] == b[i] && s[|a| + j] == b[j];
    }
  }

  /** One level down, everything the pass knows about its position still holds. */
  lemma NextTurn(m: Memory, items: seq<Entry>, c: Ctx, t: Tree, compare: Addr -> int)
    requires Focused(m, c, t) && Sound(c, t) && Split(c, compare) && t.Node?
    requires Before(c) + Items(t) + After(c) == items && Monotone(compare, items)
    ensures var d := Toward(compare(t.data));
      var c', t' := Down(c, t, d), t.Child(d);
      && Focused(m, c', t') && Sound(c', t') && Split(c', compare)
      && Before(c') + Items(t') + After(c') == items
      && t.addr in m && m[t.addr].Child(d) == t'.Root()
  {
    SubMonotone(items, Before(c), Items(t), After(c), compare);
    DownSplit(c, t, compare);
    DownFocused(m, c, t, Toward(compare(t.data)));
    DownSound(c, t, Toward(compare(t.data)));
  }

  /** Everything that holds at the head of the insertion loop. */
  ghost predicate Passing(m: Memory, items: seq<Entry>, c: Ctx, t: Tree, stage: Stage, compare: Addr -> int,
                          node: Addr, parent: Addr, grandparent: Addr, great: Addr,
                          direction: Direction, prevDirection: Direction) {
    && Focused(m, c, t) && Sound(c, t) && Split(c, compare)
    && Before(c) + Items(t) + After(c) == items
    && node == t.Root() && parent == c.Parent() && (c.Frame? ==> direction == c.dir)
    && (c.Frame? || t.Node?)
    && Ancestors(c, t, stage, compare, grandparent, great, prevDirection)
  }

  lemma StartPassing(m: Memory, t: Tree, compare: Addr -> int)
    requires t.Node? && Distinct(t) && Rep(m, 0, t) && m.Keys == Addrs(t) && RedBlack(t) && !t.red
    ensures Passing(m[STACK := RbtNode(0, 0, t.addr, 0, false)], Items(t), Top, t, Exact, compare,
                    t.addr, 0, 0, STACK, Left, Left)
  {
    StartFocused(m, t);
    assert Before(Top) + Items(t) + After(Top) == Items(t);
  }

  lemma LowerBoundSplit(s: seq<Entry>, a: seq<Entry>, b: seq<Entry>, compare: Addr -> int)
    requires s == a + b
    requires forall x :: x in a ==> compare(x.data) < 0
    requires forall x :: x in b ==> compare(x.data) >= 0
    ensures LowerBound(s, compare) == |a| && s[..|a|] == a && s[|a|..] == b
  {
    LowerBoundAt(s, compare, |a|);
  }

  /** The tree that stands below the dummy root once a pass is over, made black at the root. */
  function Blackened(t: Tree): Tree {
    if t.Node? then t.(red := false) else t
  }

  lemma Finished(m: Memory, c: Ctx, t: Tree)
    requires Focused(m, c, t) && Sound(c, t)
    ensures var u := Plug(c, t);
      && Distinct(u) && Rep(m - {STACK}, 0, u) && m.Keys - {STACK} == Addrs(u)
      && STACK in m && m[STACK].right == u.Root() && RedBlack(u)
      && |Items(u)| == |Before(c)| + |Items(t)| + |After(c)| && Items(u) == Before(c) + Items(t) + After(c)
      && (u.Leaf? <==> u.Root() == 0)
  {
    var u := Plug(c, t);
    PlugRep(m, c, t);
    PlugItems(c, t);
    PlugRedBlack(c, t);
    NoStack(u);
    RootAddr(u);
    RepFrame(m, m - {STACK}, 0, u);
  }

  lemma BlackenedRep(m: Memory, t: Tree)
    requires Distinct(t) && Rep(m, 0, t) && m.Keys == Addrs(t) && RedBlack(t) && t.Node?
    ensures var u, m' := Blackened(t), m[t.addr := m[t.addr].(red := false)];
      && Distinct(u) && Rep(m', 0, u) && m'.Keys == Addrs(u) && RedBlack(u) && Items(u) == Items(t)
  {
    Recolored(m, m[t.addr := m[t.addr].(red := false)], 0, t, false);
    RecoloredSame(t, false);
  }

  /** Where the pass creates the leaf is the key's lower bound. */
  lemma Inserted(s: seq<Entry>, a: seq<Entry>, b: seq<Entry>, compare: Addr -> int, e: Entry)
    requires s == a + [] + b
    requires forall x :: x in a ==> compare(x.data) < 0
    requires forall x :: x in b ==> compare(x.data) >= 0
    ensures var at := LowerBound(s, compare); a + [e] + b == s[..at] + [e] + s[at..]
  {
    assert s == a + b;
    LowerBoundSplit(s, a, b, compare);
  }
}
