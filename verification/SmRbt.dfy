/** The shared-memory red-black tree: insertion and deletion in one downward pass. */
module SmRbt {
  import opened RbTree
  import opened RbInsert
  import opened RbDelete
  import opened RbScan

  class Rbt {
    var nodes: Memory  // the partition's records of this tree, by address
    var root: Addr
    var length: nat
    ghost var tree: Tree

    ghost predicate Valid()
      reads this
    {
      && Distinct(tree) && Rep(nodes, 0, tree) && nodes.Keys == Addrs(tree)
      && root == tree.Root() && length == |Items(tree)|
      && RedBlack(tree) && !tree.IsRed()
    }

    constructor ()
      ensures Valid() && tree == Leaf
    {
      nodes, root, length, tree := map[], 0, 0, Leaf;
    }

    method RotateOnce(top: Addr, direction: Direction, ghost parent: Addr, ghost t: Tree) returns (pivot: Addr)
      requires t.Node? && t.addr == top && t.Child(direction.Other()).Node?
      requires Distinct(t) && Rep(nodes, parent, t)
      modifies this`nodes
      ensures Rep(nodes, parent, Rotated(t, direction)) && pivot == Rotated(t, direction).Root()
      ensures nodes.Keys == old(nodes.Keys) && SameOn(old(nodes), nodes, old(nodes.Keys) - Addrs(t))
    {
      var otherDirection := direction.Other();
      ghost var p := t.Child(otherDirection);
      RepAddrs(nodes, parent, t);
      RootAddr(p.Child(direction));
      assert p.Child(direction).Root() != 0 ==> p.Child(direction).Node?;
      pivot := nodes[top].Child(otherDirection);
      var orphan := nodes[pivot].Child(direction);
      nodes := nodes[pivot := nodes[pivot].(parent := nodes[top].parent).WithChild(direction, top).(red := false)];
      nodes := nodes[top := nodes[top].(parent := pivot).WithChild(otherDirection, orphan).(red := true)];
      if orphan != 0 {
        nodes := nodes[orphan := nodes[orphan].(parent := top)];
      }
      RotatedRep(old(nodes), nodes, parent, t, direction);
    }

    method RotateTwice(top: Addr, direction: Direction, ghost parent: Addr, ghost t: Tree) returns (pivot: Addr)
      requires t.Node? && t.addr == top && CanRotateTwice(t, direction)
      requires Distinct(t) && Rep(nodes, parent, t)
      modifies this`nodes
      ensures Rep(nodes, parent, RotatedTwice(t, direction)) && pivot == RotatedTwice(t, direction).Root()
      ensures nodes.Keys == old(nodes.Keys) && SameOn(old(nodes), nodes, old(nodes.Keys) - Addrs(t))
    {
      var otherDirection := direction.Other();
      ghost var low := t.Child(otherDirection);
      ghost var mid := WithSide(t, otherDirection, Rotated(low, otherDirection));
      RotatedSame(low, otherDirection);
      RepAddrs(nodes, parent, t);
      var child := RotateOnce(nodes[top].Child(otherDirection), otherDirection, top, low);
      RepFrame(old(nodes), nodes, top, t.Child(direction));
      label L:
      nodes := nodes[top := nodes[top].WithChild(otherDirection, child)];
      RepFrame(old@L(nodes), nodes, top, t.Child(direction));
      RepFrame(old@L(nodes), nodes, top, Rotated(low, otherDirection));
      assert Addrs(mid) == Addrs(t);
      pivot := RotateOnce(top, direction, parent, mid);
    }

    function NodeIsRed(node: Addr): bool
      requires node != 0 ==> node in nodes
      reads this
    {
      node != 0 && nodes[node].red
    }

    /** Link a new red leaf below the innermost frame of c. */
    method CreateLeaf(addr: Addr, data: Addr, parent: Addr, direction: Direction, ghost c: Ctx)
      requires c.Frame? && Focused(nodes, c, Leaf) && parent == c.addr && direction == c.dir
      requires addr > 0 && addr !in nodes
      modifies this`nodes
      ensures Focused(nodes, c, Node(true, Leaf, addr, data, Leaf))
    {
      nodes := nodes[addr := RbtNode(parent, 0, 0, data, true)];
      nodes := nodes[parent := nodes[parent].WithChild(direction, addr)];
      CtxRepSetHole(old(nodes), nodes, c, 0, addr);
    }

    /** If both children of the node are red, make it red and them black. */
    method FlipColors(node: Addr, ghost c: Ctx, ghost t: Tree)
      requires Focused(nodes, c, t) && t.Node? && node == t.addr
      modifies this`nodes
      ensures nodes.Keys == old(nodes.Keys) && Focused(nodes, c, Flipped(t))
    {
      FlippedSame(t);
      RootRed(nodes, node, t.left);
      RootRed(nodes, node, t.right);
      var left, right := nodes[node].left, nodes[node].right;
      if NodeIsRed(left) && NodeIsRed(right) {
        nodes := nodes[node := nodes[node].(red := true)];
        nodes := nodes[left := nodes[left].(red := false)];
        nodes := nodes[right := nodes[right].(red := false)];
        ColoredFocused(old(nodes), nodes, c, t, true, false);
      }
    }

    /** Rotate a red-red edge away; the subtree's new root is linked to the true
        great-grandparent. */
    method FixViolation(node: Addr, parent: Addr, grandparent: Addr, great: Addr, prevDirection: Direction,
                        ghost c: Ctx, ghost t: Tree)
      requires Focused(nodes, c, t) && t.IsRed() && c.Frame? && c.red && c.up.Frame?
      requires node == t.addr && parent == c.addr && grandparent == c.up.addr
      requires great == c.up.up.Pointer() && prevDirection == c.up.dir
      requires AlmostSound(c, t) && !c.up.sib.IsRed()
      modifies this`nodes
      ensures nodes.Keys == old(nodes.Keys)
      ensures c.dir == c.up.dir ==> Focused(nodes, SingleCtx(c), t)
      ensures c.dir != c.up.dir ==>
        var top := Under(c.up, Under(c, t));
        && CanRotateTwice(top, c.dir) && Focused(nodes, c.up.up, RotatedTwice(top, c.dir))
        && Before(c.up.up) + Items(RotatedTwice(top, c.dir)) + After(c.up.up) == Before(c) + Items(t) + After(c)
    {
      ghost var top, top' := MendedTree(c, t);
      UpFocused(nodes, c, t);
      UpFocused(nodes, c.up, Under(c, t));
      SideOf(nodes, c.up.up, top);
      SideOf(nodes, c, t);
      var subtree := if nodes[great].right == grandparent then Right else Left;
      var pivot := RotateAway(node == nodes[parent].Child(prevDirection), grandparent, prevDirection,
                              c.up.up.Parent(), top, top');
      Rehang(great, subtree, pivot, old(nodes), c.up.up, top, top');
      if c.dir == c.up.dir {
        DownFocused(nodes, c.up.up, top', c.dir);
      }
    }

    /** Rotate once for an outer grandchild, and twice for an inner one. */
    method RotateAway(outer: bool, grandparent: Addr, prevDirection: Direction, ghost parent: Addr, ghost top: Tree, ghost top': Tree)
      returns (pivot: Addr)
      requires top.Node? && grandparent == top.addr && Rep(nodes, parent, top) && Distinct(top)
      requires if outer then top.Child(prevDirection).Node? && top' == Rotated(top, prevDirection.Other())
               else CanRotateTwice(top, prevDirection.Other()) && top' == RotatedTwice(top, prevDirection.Other())
      modifies this`nodes
      ensures Rep(nodes, parent, top') && pivot == top'.Root()
      ensures nodes.Keys == old(nodes.Keys) && SameOn(old(nodes), nodes, old(nodes.Keys) - Addrs(top))
    {
      if outer {
        pivot := RotateOnce(grandparent, prevDirection.Other(), parent, top);
      } else {
        pivot := RotateTwice(grandparent, prevDirection.Other(), parent, top);
      }
    }

    /** Link the root of a rotated subtree below the node that the subtree hangs from. */
    method Rehang(great: Addr, subtree: Direction, pivot: Addr, ghost was: Memory, ghost c: Ctx, ghost top: Tree, ghost top': Tree)
      requires Focused(was, c, top) && Rep(nodes, c.Parent(), top') && Addrs(top') == Addrs(top) && Distinct(top')
      requires nodes.Keys == was.Keys && SameOn(was, nodes, was.Keys - Addrs(top))
      requires great == c.Pointer() && great in nodes && subtree == c.Side() && pivot == top'.Root()
      modifies this`nodes
      ensures nodes.Keys == was.Keys && Focused(nodes, c, top')
    {
      nodes := nodes[great := nodes[great].WithChild(subtree, pivot)];
      Refocused(was, old(nodes), nodes, c, top, top');
    }

    /** Record the new root, leave the dummy root, and make the root black. */
    method Finish(ghost c: Ctx, ghost t: Tree)
      requires Focused(nodes, c, t) && Sound(c, t) && length == |Before(c)| + |Items(t)| + |After(c)|
      modifies this
      ensures nodes.Keys == old(nodes.Keys) - {STACK}
      ensures Valid() && Items(tree) == Before(c) + Items(t) + After(c)
    {
      Finished(nodes, c, t);
      ghost var u := Plug(c, t);
      root := nodes[STACK].right;
      nodes := nodes - {STACK};
      if root != 0 {
        BlackenedRep(nodes, u);
        nodes := nodes[root := nodes[root].(red := false)];
      }
      tree := Blackened(u);
    }

    /** One turn of the insertion pass: create the leaf or flip colors, then repair. The
        ghost results place the pass in the repaired tree. */
    method Visit(node: Addr, parent: Addr, grandparent: Addr, great: Addr,
                 direction: Direction, prevDirection: Direction, data: Addr, addr: Addr, compare: Addr -> int,
                 ghost c: Ctx, ghost t: Tree, ghost stage: Stage)
      returns (node': Addr, ghost c': Ctx, ghost t': Tree, ghost stage': Stage)
      requires Focused(nodes, c, t) && Sound(c, t) && Split(c, compare) && (c.Frame? || t.Node?)
      requires node == t.Root() && parent == c.Parent() && (c.Frame? ==> direction == c.dir)
      requires Ancestors(c, t, stage, compare, grandparent, great, prevDirection)
      requires addr > 0 && addr !in nodes
      modifies this`nodes
      ensures t.Node? ==> nodes.Keys == old(nodes.Keys)
      ensures Focused(nodes, c', t') && Sound(c', t') && Split(c', compare)
      ensures t'.Node? && node' == t'.addr && t'.addr == (if t.Leaf? then addr else t.addr)
      ensures t'.data == (if t.Leaf? then data else t.data)
      ensures Before(c') + Items(t') + After(c')
           == Before(c) + (if t.Leaf? then [Entry(addr, data)] else Items(t)) + After(c)
      ensures t.Node? ==> var d := Toward(compare(t'.data));
        && Ancestors(Down(c', t', d), t'.Child(d), stage', compare, parent,
                     if grandparent != 0 then grandparent else great, direction)
        && Remaining(t'.Child(d), stage', compare) < Remaining(t, stage, compare)
    {
      node', c', t', stage' := node, c, t, if stage == StaleBoth then StaleGreat else Exact;
      if node == 0 {
        CreateLeaf(addr, data, parent, direction, c);
        node', t' := addr, Node(true, Leaf, addr, data, Leaf);
        assert Items(t') == [Entry(addr, data)];
      } else {
        FlippedSame(t);
        FlippedSound(c, t);
        FlipColors(node, c, t);
        t' := Flipped(t);
      }
      ghost var u := t';
      RootRed(nodes, c.Parent(), u);
      if c.Frame? {
        assert parent in CtxAddrs(c);
      }
      if NodeIsRed(parent) && NodeIsRed(node') {
        FixViolation(node', parent, grandparent, great, prevDirection, c, u);
        if c.dir == c.up.dir {
          SingleSound(c, u);
          SingleSame(c);
          c', stage' := SingleCtx(c), StaleGreat;
        } else {
          DoubleSound(c, u);
          SplitSide(c, compare);
          SplitSide(c.up, compare);
          c', t', stage' := c.up.up, RotatedTwice(Under(c.up, Under(c, u)), c.dir), StaleBoth;
        }
        if t.Node? {
          if c.dir == c.up.dir {
            DescendSingle(c, t, compare, if grandparent != 0 then grandparent else great, direction);
          } else {
            DescendDouble(c, t, t', compare, if grandparent != 0 then grandparent else great, direction);
          }
        }
      } else if t.Node? {
        Descend(c, t, u, stage, compare, grandparent, great, prevDirection);
      }
    }

    method InsertFirst(data: Addr, addr: Addr)
      requires Valid() && root == 0 && addr > 0
      modifies this
      ensures Valid() && Items(tree) == [Entry(addr, data)]
    {
      nodes := nodes[addr := RbtNode(0, 0, 0, data, false)];
      root := addr;
      length := 1;
      tree := Node(false, Leaf, addr, data, Leaf);
      assert Items(tree) == [Entry(addr, data)];
    }

    /** Insert a data item the tree does not hold, in one pass from the root down. */
    method Insert(data: Addr, compare: Addr -> int, addr: Addr) returns (node: Addr)
      requires Valid() && addr > 0 && addr !in nodes
      requires forall e :: e in Items(tree) ==> e.data != data
      requires Monotone(compare, Items(tree))
      modifies this
      ensures Valid() && node == addr
      ensures var at := LowerBound(old(Items(tree)), compare);
        Items(tree) == old(Items(tree))[..at] + [Entry(addr, data)] + old(Items(tree))[at..]
    {
      ghost var items := Items(tree);
      if root == 0 {
        InsertFirst(data, addr);
        return addr;
      }
      StartPassing(nodes, tree, compare);
      NoStack(tree);
      node := root;
      nodes := nodes[STACK := RbtNode(0, 0, root, 0, false)];
      var great, grandparent, parent := STACK, 0, 0;
      var direction, prevDirection := Left, Left;
      ghost var c, t, stage := Top, tree, Exact;
      while true
        invariant Passing(nodes, items, c, t, stage, compare, node, parent, grandparent, great, direction, prevDirection)
        invariant addr !in nodes && length == |items|
        decreases Remaining(t, stage, compare)
      {
        ghost var c', t', stage';
        node, c', t', stage' := Visit(node, parent, grandparent, great, direction, prevDirection,
                                      data, addr, compare, c, t, stage);
        if t.Node? {
          RootItem(t);
          assert Entry(t.addr, t.data) in items;
        }
        if nodes[node].data == data {
          Inserted(items, Before(c), After(c), compare, Entry(addr, data));
          length := length + 1;
          Finish(c', t');
          return;
        }
        NextTurn(nodes, items, c', t', compare);
        prevDirection := direction;
        direction := if compare(nodes[node].data) < 0 then Right else Left;
        if grandparent != 0 {
          great := grandparent;
        }
        grandparent := parent;
        parent := node;
        node := nodes[node].Child(direction);
        c, t, stage := Down(c', t', direction), t'.Child(direction), stage';
      }
    }

    // ---------------------------------------------------------- deletion

    /** The red-sibling case: rotate the node down, red, below its red child. */
    method RotateDown(node: Addr, direction: Direction, parentPtr: Addr, prevDirection: Direction,
                      ghost c: Ctx, ghost t: Tree)
      requires Focused(nodes, c, t) && t.Node? && node == t.addr && t.Child(direction.Other()).Node?
      requires parentPtr == c.Pointer() && prevDirection == c.Side()
      modifies this`nodes
      ensures nodes.Keys == old(nodes.Keys)
      ensures Focused(nodes, c, Rotated(t, direction)) && parentPtr in nodes
      ensures nodes[parentPtr].Child(prevDirection) == Rotated(t, direction).addr
    {
      RotatedSame(t, direction);
      SideOf(nodes, c, t);
      var pivot := RotateOnce(node, direction, c.Parent(), t);
      label L:
      nodes := nodes[parentPtr := nodes[parentPtr].WithChild(prevDirection, pivot)];
      Refocused(old(nodes), old@L(nodes), nodes, c, t, Rotated(t, direction));
    }

    /** The color-flip case: parent black, node and sibling red. */
    method PushRedness(node: Addr, sibling: Addr, parentPtr: Addr, ghost c: Ctx, ghost t: Tree)
      requires Focused(nodes, c, t) && c.Frame? && t.Node? && c.sib.Node?
      requires node == t.addr && sibling == c.sib.addr && parentPtr == c.addr
      modifies this`nodes
      ensures nodes.Keys == old(nodes.Keys)
      ensures Focused(nodes, c.up, Pushed(c, t))
    {
      UpFocused(nodes, c, t);
      RootRed(nodes, c.addr, t);
      RootRed(nodes, c.addr, c.sib);
      assert c.addr in nodes;
      nodes := nodes[parentPtr := nodes[parentPtr].(red := false)];
      nodes := nodes[sibling := nodes[sibling].(red := true)];
      nodes := nodes[node := nodes[node].(red := true)];
      ColoredFocused(old(nodes), nodes, c.up, Under(c, t), false, true);
    }

    /** The rotation case: the sibling has a red child to spare. */
    method BorrowRedness(node: Addr, sibling: Addr, parent: Addr, grandparentPtr: Addr, prevDirection: Direction,
                         ghost c: Ctx, ghost t: Tree)
      requires Focused(nodes, c, t) && c.Frame? && t.Node? && c.sib.Node?
      requires node == t.addr && sibling == c.sib.addr && parent == c.addr
      requires grandparentPtr == c.up.Pointer() && prevDirection == c.dir
      requires c.sib.left.IsRed() || c.sib.right.IsRed()
      modifies this`nodes
      ensures nodes.Keys == old(nodes.Keys)
      ensures var w := Borrowed(c, t);
        && w.Node? && w.Child(c.dir).Node? && w.Child(c.dir).Child(c.dir) == t && w.Child(c.dir.Other()).Node?
        && Focused(nodes, c.up, Settled(w, c.dir)) && Items(w) == Items(Under(c, t))
    {
      UpFocused(nodes, c, t);
      SideOf(nodes, c.up, Under(c, t));
      var subtree := if nodes[grandparentPtr].right == parent then Right else Left;
      RotateAtParent(sibling, parent, grandparentPtr, subtree, prevDirection, c, t);
      Settle(node, grandparentPtr, subtree, c.up, Borrowed(c, t), c.dir);
    }

    method RotateAtParent(sibling: Addr, parent: Addr, grandparentPtr: Addr, subtree: Direction,
                          prevDirection: Direction, ghost c: Ctx, ghost t: Tree)
      requires c.Frame? && t.Node? && c.sib.Node? && Focused(nodes, c.up, Under(c, t))
      requires sibling == c.sib.addr && parent == c.addr && prevDirection == c.dir
      requires grandparentPtr == c.up.Pointer() && subtree == c.up.Side()
      requires c.sib.left.IsRed() || c.sib.right.IsRed()
      modifies this`nodes
      ensures nodes.Keys == old(nodes.Keys) && Focused(nodes, c.up, Borrowed(c, t))
      ensures var w := Borrowed(c, t);
        && w.Node? && w.Child(c.dir).Node? && w.Child(c.dir).Child(c.dir) == t && w.Child(c.dir.Other()).Node?
        && Items(w) == Items(Under(c, t))
    {
      ghost var top := Under(c, t);
      BorrowedShape(c, t);
      SideOf(nodes, c.up, top);
      RootRed(nodes, c.addr, c.sib);
      RootRed(nodes, c.sib.addr, c.sib.Child(c.dir));
      var pivot;
      if NodeIsRed(nodes[sibling].Child(prevDirection)) {
        RotatedTwiceSame(top, c.dir);
        pivot := RotateTwice(parent, prevDirection, c.up.Parent(), top);
      } else {
        RotatedSame(top, c.dir);
        pivot := RotateOnce(parent, prevDirection, c.up.Parent(), top);
      }
      label L:
      nodes := nodes[grandparentPtr := nodes[grandparentPtr].WithChild(subtree, pivot)];
      Refocused(old(nodes), old@L(nodes), nodes, c.up, top, Borrowed(c, t));
    }

    method Redden(node: Addr, ghost c: Ctx, ghost t: Tree)
      requires Focused(nodes, c, t) && t.Node? && node == t.addr
      modifies this`nodes
      ensures nodes.Keys == old(nodes.Keys)
      ensures Focused(nodes, c, t.(red := true))
    {
      nodes := nodes[node := nodes[node].(red := true)];
      Recolored(old(nodes), nodes, c.Parent(), t, true);
      RecoloredSame(t, true);
      CtxRepFrame(old(nodes), nodes, c, node);
    }

    /** Ensure nodes have correct colors after a rotation at the parent. */
    method Settle(node: Addr, grandparentPtr: Addr, subtree: Direction, ghost c: Ctx, ghost w: Tree, ghost d: Direction)
      requires Focused(nodes, c, w) && w.Node? && w.left.Node? && w.right.Node? && w.Child(d).Child(d).Node?
      requires node == w.Child(d).Child(d).addr && grandparentPtr == c.Pointer() && subtree == c.Side()
      modifies this`nodes
      ensures nodes.Keys == old(nodes.Keys)
      ensures Focused(nodes, c, Settled(w, d))
    {
      ghost var w' := ReddenBelow(node, c, w, d);
      SideOf(nodes, c, w');
      var stepparent := nodes[grandparentPtr].Child(subtree);
      assert stepparent == w.addr;
      RootRed(nodes, w.addr, w'.left);
      RootRed(nodes, w.addr, w'.right);
      var left, right := nodes[stepparent].left, nodes[stepparent].right;
      SetColors(stepparent, left, right, c, w');
    }

    /** Make the child's child on one side red. */
    method ReddenBelow(node: Addr, ghost c: Ctx, ghost w: Tree, ghost d: Direction) returns (ghost w': Tree)
      requires Focused(nodes, c, w) && w.Node? && w.Child(d).Node? && w.Child(d).Child(d).Node?
      requires node == w.Child(d).Child(d).addr
      modifies this`nodes
      ensures nodes.Keys == old(nodes.Keys) && Focused(nodes, c, w')
      ensures w' == WithSide(w, d, WithSide(w.Child(d), d, w.Child(d).Child(d).(red := true)))
    {
      ghost var p := w.Child(d);
      ghost var n := p.Child(d);
      ghost var cp := Down(c, w, d);
      DownFocused(nodes, c, w, d);
      DownFocused(nodes, cp, p, d);
      Redden(node, Down(cp, p, d), n);
      ghost var p' := WithSide(p, d, n.(red := true));
      w' := WithSide(w, d, p');
      UpFocused(nodes, Down(cp, p, d), n.(red := true));
      UpFocused(nodes, cp, p');
    }

    method SetColors(stepparent: Addr, left: Addr, right: Addr, ghost c: Ctx, ghost w: Tree)
      requires Focused(nodes, c, w) && w.Node? && w.left.Node? && w.right.Node?
      requires stepparent == w.addr && left == w.left.addr && right == w.right.addr
      modifies this`nodes
      ensures nodes.Keys == old(nodes.Keys)
      ensures Focused(nodes, c, Colored(w, true, false))
    {
      RootRed(nodes, w.addr, w.left);
      RootRed(nodes, w.addr, w.right);
      nodes := nodes[stepparent := nodes[stepparent].(red := true)];
      nodes := nodes[left := nodes[left].(red := false)];
      nodes := nodes[right := nodes[right].(red := false)];
      ColoredFocused(old(nodes), nodes, c, w, true, false);
    }

    /** One turn of the deletion pass, at a node about to be left in the given direction:
        see to it that the node or its child on that side is red. */
    method IntroduceRed(node: Addr, direction: Direction, prevDirection: Direction, parent: Addr, parentPtr: Addr,
                        grandparentPtr: Addr, ghost c: Ctx, ghost t: Tree)
      returns (parentPtr': Addr, ghost c': Ctx)
      requires Focused(nodes, c, t) && Sound(c, t) && Reddened(c, t) && t.Node? && node == t.addr
      requires parent == c.Parent() && parentPtr == c.Pointer() && prevDirection == c.Side()
      requires c.Frame? ==> grandparentPtr == c.up.Pointer()
      modifies this`nodes
      ensures nodes.Keys == old(nodes.Keys)
      ensures Arrived(nodes, c', c, t, direction) && parentPtr' == c'.up.Pointer()
    {
      parentPtr', c' := parentPtr, Down(c, t, direction);
      var otherDirection := direction.Other();
      RootRed(nodes, c.Parent(), t);
      RootRed(nodes, node, t.Child(direction));
      RootRed(nodes, node, t.Child(otherDirection));
      if NodeIsRed(node) || NodeIsRed(nodes[node].Child(direction)) {
        ArrivedDirectly(nodes, c, t, direction);
      } else if NodeIsRed(nodes[node].Child(otherDirection)) {
        RotateDown(node, direction, parentPtr, prevDirection, c, t);
        parentPtr' := nodes[parentPtr].Child(prevDirection);
        ArrivedByRotation(nodes, c, t, direction);
        c' := Down(Down(c, Rotated(t, direction), direction), Rotated(t, direction).Child(direction), direction);
      } else {
        var prevOtherDirection := prevDirection.Other();
        SideOf(nodes, c, t);
        var sibling := nodes[parentPtr].Child(prevOtherDirection);
        if c.Frame? {
          RootRed(nodes, parent, c.sib);
          assert Height(c.sib) == Height(t) > 0 && sibling == c.sib.addr > 0;
        }
        if sibling == 0 {
          ArrivedDirectly(nodes, c, t, direction);
        } else {
          c' := UseSibling(node, direction, prevDirection, parent, parentPtr, grandparentPtr, sibling, c, t);
        }
      }
    }

    /** The cases that concern the children of the current node's sibling. */
    method UseSibling(node: Addr, direction: Direction, prevDirection: Direction, parent: Addr, parentPtr: Addr,
                      grandparentPtr: Addr, sibling: Addr, ghost c: Ctx, ghost t: Tree)
      returns (ghost c': Ctx)
      requires Focused(nodes, c, t) && Sound(c, t) && Reddened(c, t) && t.Node? && node == t.addr
      requires !t.red && !t.left.IsRed() && !t.right.IsRed()
      requires c.Frame? && c.sib.Node? && sibling == c.sib.addr
      requires parent == parentPtr == c.addr && prevDirection == c.dir && grandparentPtr == c.up.Pointer()
      modifies this`nodes
      ensures nodes.Keys == old(nodes.Keys)
      ensures Arrived(nodes, c', c, t, direction) && c'.up.Pointer() == parentPtr
    {
      RootRed(nodes, parent, c.sib);
      RootRed(nodes, sibling, c.sib.left);
      RootRed(nodes, sibling, c.sib.right);
      UpFocused(nodes, c, t);
      if !NodeIsRed(nodes[sibling].left) && !NodeIsRed(nodes[sibling].right) {
        PushedSound(c, t);
        PushRedness(node, sibling, parentPtr, c, t);
        PushedDown(nodes, c, t, direction);
        c' := Down(Down(c.up, Pushed(c, t), c.dir), t.(red := true), direction);
      } else {
        SettledSound(c, t);
        SettledItems(Borrowed(c, t), c.dir);
        BorrowRedness(node, sibling, parent, grandparentPtr, prevDirection, c, t);
        DeepDown(nodes, c, t, Settled(Borrowed(c, t), c.dir), direction);
        c' := Deep(c.up, Settled(Borrowed(c, t), c.dir), c.dir, direction);
      }
    }

    /** Move the current node's data into the target node and release the current node. */
    method Unlink(target: Addr, node: Addr, parentPtr: Addr, ghost c: Ctx, ghost compare: Addr -> int)
      requires c.Frame? && Focused(nodes, c, Leaf) && Sound(c, Leaf) && Reddened(c, Leaf)
      requires node == c.addr && parentPtr == c.up.Pointer()
      requires target == Target(After(c), compare) != 0
      modifies this`nodes
      ensures nodes.Keys == old(nodes.Keys) - {node}
      ensures Focused(nodes, Remainder(c), Leaf) && Sound(Remainder(c), Leaf)
      ensures var r := Remainder(c);
        && Data(Before(r) + Items(Leaf) + After(r)) == Data(Before(c)) + Data(After(c)[1..])
        && |Before(r)| + |Items(Leaf)| + |After(r)| == |Before(c)| + |After(c)| - 1
    {
      Unlinkable(c);
      RemainderData(c);
      ghost var d := HandOver(target, node, c, compare);
      Release(node, parentPtr, d);
      if c.dir == Right {
        SetNextShape(c.up, c.data, 0, false);
      }
    }

    /** Move a node's data into the target node, which is the next one in order. */
    method HandOver(target: Addr, node: Addr, ghost c: Ctx, ghost compare: Addr -> int) returns (ghost d: Ctx)
      requires c.Frame? && Focused(nodes, c, Leaf) && node == c.addr && target == Target(After(c), compare) != 0
      modifies this`nodes
      ensures d == SetNext(c, c.data) && nodes.Keys == old(nodes.Keys) && Focused(nodes, d, Leaf)
    {
      d := SetNext(c, c.data);
      SetNextShape(c, c.data, 0, false);
      SetNextRep(nodes, nodes[target := nodes[target].(data := nodes[node].data)], c, c.data, 0);
      nodes := nodes[target := nodes[target].(data := nodes[node].data)];
    }

    /** Put a node's child, if it has one, in its place. */
    method Release(node: Addr, parentPtr: Addr, ghost d: Ctx)
      requires d.Frame? && d.sib == Leaf && Focused(nodes, d, Leaf) && node == d.addr && parentPtr == d.up.Pointer()
      modifies this`nodes
      ensures nodes.Keys == old(nodes.Keys) - {node} && Focused(nodes, d.up, Leaf)
    {
      UpFocused(nodes, d, Leaf);
      SideOf(nodes, d.up, Under(d, Leaf));
      var i := if nodes[parentPtr].right == node then Right else Left;
      var j := if nodes[node].left == 0 then Right else Left;
      label L:
      nodes := nodes[parentPtr := nodes[parentPtr].WithChild(i, nodes[node].Child(j))];
      nodes := nodes - {node};
      Unlinked(old@L(nodes), nodes, d);
    }

    /** Delete the item that matches the key, if there is one, in one pass from the root
        down; `erased` is the data handed to the deletion function. */
    method Delete(compare: Addr -> int) returns (found: bool, erased: Addr)
      requires Valid() && Monotone(compare, Items(tree))
      modifies this
      ensures Valid() && nodes.Keys <= old(nodes.Keys)
      ensures Deletion(old(Items(tree)), compare, found, erased, Items(tree))
    {
      ghost var items := Items(tree);
      found, erased := false, 0;
      if length == 0 || root == 0 {
        return;
      }
      StartSinking(nodes, tree, compare);
      NoStack(tree);
      ItemAddrs(tree);
      nodes := nodes[STACK := RbtNode(0, 0, root, 0, false)];
      var grandparentPtr, parent, parentPtr := 0, 0, 0;
      var node, nodePtr, target, direction := 0, STACK, 0, Right;
      ghost var c, t := Top, tree;
      while nodes[nodePtr].Child(direction) != 0
        invariant Sinking(nodes, items, c, t, compare, target, node, nodePtr, parentPtr, direction)
        invariant nodePtr in nodes && nodes[nodePtr].Child(direction) == t.Root()
        invariant length == |items| && nodes.Keys == old(nodes.Keys) + {STACK}
        decreases Size(t)
      {
        var prevDirection := direction;
        grandparentPtr := parentPtr;
        parent := node;
        parentPtr := nodePtr;
        node := nodes[nodePtr].Child(direction);
        nodePtr := node;
        var result := compare(nodes[node].data);
        if result < 0 {
          direction := Right;
        } else {
          direction := Left;
          if result == 0 {
            target := node;
          }
        }
        NextSink(nodes, items, c, t, compare);
        ghost var c';
        parentPtr, c' := IntroduceRed(node, direction, prevDirection, parent, parentPtr, grandparentPtr, c, t);
        ArrivedSinking(nodes, items, c', c, t, compare);
        c, t := c', t.Child(direction);
      }
      found, erased := Complete(target, node, parentPtr, items, c, compare);
    }

    /** The end of the deletion pass, at a node with nothing left to descend into. */
    method Complete(target: Addr, node: Addr, parentPtr: Addr,
                    ghost items: seq<Entry>, ghost c: Ctx, ghost compare: Addr -> int)
      returns (found: bool, erased: Addr)
      requires Sinking(nodes, items, c, Leaf, compare, target, node, node, parentPtr, c.Side()) && c.Frame?
      requires length == |items| && forall e :: e in items ==> e.addr != 0
      modifies this
      ensures Valid() && nodes.Keys <= old(nodes.Keys) - {STACK}
      ensures Deletion(items, compare, found, erased, Items(tree))
    {
      assert Before(c) + [] + After(c) == Before(c) + After(c);
      found, erased := false, 0;
      Unlinkable(c);
      if target != 0 {
        NextInMemory(nodes, c, 0);
        found, erased := true, nodes[target].data;
        UnlinkAndFinish(target, node, parentPtr, c, compare);
        Removed(items, Before(c), After(c), compare, Items(tree));
      } else {
        NotFound(items, Before(c), After(c), compare);
        Finish(c, Leaf);
      }
    }

    method UnlinkAndFinish(target: Addr, node: Addr, parentPtr: Addr, ghost c: Ctx, ghost compare: Addr -> int)
      requires c.Frame? && Focused(nodes, c, Leaf) && Sound(c, Leaf) && Reddened(c, Leaf)
      requires node == c.addr && parentPtr == c.up.Pointer() && length == |Before(c)| + |After(c)|
      requires target == Target(After(c), compare) != 0
      modifies this
      ensures Valid() && nodes.Keys <= old(nodes.Keys) - {STACK}
      ensures Data(Items(tree)) == Data(Before(c)) + Data(After(c)[1..])
    {
      Unlink(target, node, parentPtr, c, compare);
      length := length - 1;
      Finish(Remainder(c), Leaf);
    }

    // ---------------------------------------------------------- search

    /** The records with a dummy root above them. */
    ghost function Hung(): Memory
      reads this
    {
      nodes[STACK := RbtNode(0, 0, root, 0, false)]
    }

    /** The outermost node of a non-empty subtree on the given side. */
    method Outermost(start: Addr, direction: Direction, ghost items: seq<Entry>, ghost k: int,
                     ghost c0: Ctx, ghost t0: Tree)
      returns (last: Addr)
      requires Focused(Hung(), c0, t0) && t0.Node? && start == t0.addr
      requires Before(c0) + Items(t0) + After(c0) == items
      requires k == if direction == Left then |Before(c0)| else |Before(c0)| + |Items(t0)| - 1
      ensures last == AddrAt(items, k)
    {
      last := start;
      ghost var c, t := c0, t0;
      while nodes[last].Child(direction) != 0
        invariant Focused(Hung(), c, t) && t.Node? && last == t.addr
        invariant Before(c) + Items(t) + After(c) == items
        invariant if direction == Left then |Before(c)| == |Before(c0)|
                  else |Before(c)| + |Items(t)| == |Before(c0)| + |Items(t0)|
        decreases Size(t)
      {
        last := nodes[last].Child(direction);
        c, t := StepDown(Hung(), items, c, t, direction);
      }
      RootRed(Hung(), t.addr, t.Child(direction));
      FocusAt(c, t, items);
    }

    method First() returns (first: Addr)
      requires Valid()
      ensures first == AddrAt(Items(tree), 0)
    {
      first := root;
      RootAddr(tree);
      if root != 0 {
        StartFocused(nodes, tree);
        TopItems(tree);
        first := Outermost(root, Left, Items(tree), 0, Top, tree);
      }
    }

    method Last() returns (last: Addr)
      requires Valid()
      ensures last == AddrAt(Items(tree), |Items(tree)| - 1)
    {
      last := root;
      RootAddr(tree);
      if root != 0 {
        StartFocused(nodes, tree);
        TopItems(tree);
        last := Outermost(root, Right, Items(tree), |Items(tree)| - 1, Top, tree);
      }
    }

    /** Return to parents until a subtree is left on the far side of the direction. */
    method Climb(fromNode: Addr, direction: Direction, ghost items: seq<Entry>, ghost k: int,
                 ghost c0: Ctx, ghost t0: Tree)
      returns (next: Addr)
      requires Focused(Hung(), c0, t0) && t0.Node? && fromNode == t0.addr
      requires Before(c0) + Items(t0) + After(c0) == items
      requires k == if direction == Right then |Before(c0)| + |Items(t0)| else |Before(c0)| - 1
      ensures next == AddrAt(items, k)
    {
      ghost var c, t := c0, t0;
      var node := fromNode;
      next := nodes[fromNode].parent;
      while next != 0
        invariant Focused(Hung(), c, t) && t.Node? && node == t.addr && next == c.Parent()
        invariant Before(c) + Items(t) + After(c) == items
        invariant if direction == Right then |Before(c)| + |Items(t)| == |Before(c0)| + |Items(t0)|
                  else |Before(c)| == |Before(c0)|
        decreases c
      {
        SideOf(Hung(), c, t);
        FrameAt(c, t, items);
        if node == nodes[next].Child(direction.Other()) {
          return;
        }
        node := next;
        c, t := StepUp(Hung(), items, c, t);
        next := nodes[node].parent;
      }
    }

    /** The neighbor in the given direction of the i'th item's node. */
    method Traverse(fromNode: Addr, direction: Direction, ghost i: nat) returns (next: Addr)
      requires Valid() && i < |Items(tree)| && Items(tree)[i].addr == fromNode
      ensures next == AddrAt(Items(tree), if direction == Right then i + 1 else i - 1)
    {
      ghost var items, k := Items(tree), if direction == Right then i + 1 else i - 1;
      StartFocused(nodes, tree);
      TopItems(tree);
      ghost var c, t := Locate(Hung(), Top, tree, i);
      ghost var c', t' := StepDown(Hung(), items, c, t, direction);
      var child := nodes[fromNode].Child(direction);
      RootRed(Hung(), fromNode, t');
      if child == 0 {
        next := Climb(fromNode, direction, items, k, c, t);
      } else {
        next := Outermost(child, direction.Other(), items, k, c', t');
      }
    }

    /** Find an item that matches the key; if there is none, the first greater one. */
    method Search(compare: Addr -> int) returns (node: Addr, successor: Addr)
      requires Valid() && Monotone(compare, Items(tree))
      ensures node == 0 ==> forall e :: e in Items(tree) ==> compare(e.data) != 0
      ensures node == 0 ==> successor == AddrAt(Items(tree), LowerBound(Items(tree), compare))
      ensures node != 0 ==> successor == 0 && node in nodes && compare(nodes[node].data) == 0
      ensures node != 0 ==> Entry(node, nodes[node].data) in Items(tree)
    {
      ghost var items := Items(tree);
      StartFocused(nodes, tree);
      TopItems(tree);
      ghost var c, t := Top, tree;
      node := root;
      var prevNode, direction := 0, Left;
      while node != 0
        invariant Focused(Hung(), c, t) && node == t.Root() && prevNode == c.Parent()
        invariant Before(c) + Items(t) + After(c) == items && Split(c, compare)
        invariant forall e :: e in After(c) ==> compare(e.data) != 0
        invariant direction == if c.Top? then Left else c.dir
        decreases Size(t)
      {
        var result := compare(nodes[node].data);
        if result == 0 {
          RootItem(t);
          assert Entry(t.addr, t.data) in items;
          return node, 0;
        }
        NextSearch(Hung(), items, c, t, compare);
        prevNode := node;
        direction := if result < 0 then Right else Left;
        node := nodes[node].Child(direction);
        c, t := Down(c, t, direction), t.Child(direction);
      }
      ghost var at := Missed(items, c, compare);
      successor := Successor(prevNode, direction, at);
    }

    /** The node that follows the position a search fell off at. */
    method Successor(prevNode: Addr, direction: Direction, ghost at: nat) returns (successor: Addr)
      requires Valid() && (direction == Left ==> prevNode == AddrAt(Items(tree), at))
      requires direction == Right ==> 0 < at <= |Items(tree)| && prevNode == Items(tree)[at - 1].addr != 0
      ensures successor == AddrAt(Items(tree), at)
    {
      if direction == Left {
        successor := prevNode;
      } else if prevNode == 0 {
        successor := 0;
      } else {
        successor := Traverse(prevNode, Right, at - 1);
      }
    }
  }

  lemma RotatedRep(m: Memory, m': Memory, parent: Addr, t: Tree, d: Direction)
    requires t.Node? && t.Child(d.Other()).Node? && Distinct(t) && Rep(m, parent, t)
    requires m'.Keys == m.Keys
    requires var p := t.Child(d.Other());
      && p.addr in m && t.addr in m
      && m'[p.addr] == RbtNode(parent, 0, 0, p.data, false).WithChild(d, t.addr)
                       .WithChild(d.Other(), p.Child(d.Other()).Root())
      && m'[t.addr] == RbtNode(p.addr, 0, 0, t.data, true).WithChild(d, t.Child(d).Root())
                       .WithChild(d.Other(), p.Child(d).Root())
      && (p.Child(d).Node? ==> p.Child(d).addr in m
                               && m'[p.Child(d).addr] == m[p.Child(d).addr].(parent := t.addr))
      && SameOn(m, m', m.Keys - {p.addr, t.addr} - if p.Child(d).Node? then {p.Child(d).addr} else {})
    ensures Rep(m', parent, Rotated(t, d)) && m'.Keys == m.Keys && SameOn(m, m', m.Keys - Addrs(t))
  {
    var p := t.Child(d.Other());
    RepAddrs(m, parent, t);
    assert Addrs(t) == {t.addr} + Addrs(t.Child(d)) + Addrs(p);
    assert Addrs(p) == {p.addr} + Addrs(p.Child(d)) + Addrs(p.Child(d.Other()));
    RootAddr(p.Child(d));
    RepFrame(m, m', t.addr, t.Child(d));
    RepFrame(m, m', p.addr, p.Child(d.Other()));
    RepNewParent(m, p.addr, p.Child(d), m', t.addr);
  }
}
