/** The tree operations, in place on nodes that are named by their offsets. */
module AvlRoot {
  import opened Avl
  import opened AvlNodes
  import opened AvlRename
  import opened AvlProofs

  class Root {
    var nodes: Nodes
    var node: nat
    ghost var tree: Tree

    ghost predicate Valid()
      reads this
    {
      0 !in nodes && Closed(nodes, node, Top, tree) && Balanced(tree)
    }

    constructor ()
      ensures Valid() && tree == Leaf && nodes == map[]
    {
      nodes, node, tree := map[], 0, Leaf;
    }

    /** The child or root link that points at one node is made to point at another. */
    method SetParentLeftRight(parent: nat, from: nat, to: nat)
      requires 0 !in nodes && (parent == 0 || parent in nodes)
      modifies this
      ensures nodes == SetChild(old(nodes), parent, from, to) && node == SetRoot(old(node), parent, to)
      ensures tree == old(tree)
    {
      if parent == 0 {
        node := to;
      } else if nodes[parent].left == from {
        nodes := nodes[parent := nodes[parent].(left := to)];
      } else {
        nodes := nodes[parent := nodes[parent].(right := to)];
      }
    }

    method SetHeight(x: nat)
      requires x in nodes
      modifies `nodes
      ensures nodes == old(nodes)[x := old(nodes)[x].(height :=
                1 + Max(NodeHeight(old(nodes), old(nodes)[x].left), NodeHeight(old(nodes), old(nodes)[x].right)))]
    {
      var left, right := NodeHeight(nodes, nodes[x].left), NodeHeight(nodes, nodes[x].right);
      nodes := nodes[x := nodes[x].(height := 1 + if left < right then right else left)];
    }

    method RotateRight(d: nat, ghost c: Context, ghost t: Tree)
      requires 0 !in nodes && t.Node? && t.off == d && t.left.Node? && Open(nodes, node, c, d, t.left, t.right)
      modifies this
      ensures Closed(nodes, node, c, Avl.RotateRight(t)) && Framed(old(nodes), nodes, c, Offs(t)) && nodes.Keys == old(nodes).Keys
    {
      hide Open, Closed, Around, ApartAround, Framed, Offs, Rep, OnlyAround, ContextGets, Reparented, Linked, SetChild;
      ghost var ns := nodes;
      RotatesRight(ns, node, c, t);
      var gpa, b := nodes[d].parent, nodes[d].left;
      var m := nodes[b].right;
      SetParentLeftRight(gpa, d, b);
      RelinkGets(ns, old(node), c, Offs(t), d, b);
      ghost var n0 := nodes;
      nodes := nodes[b := nodes[b].(parent := gpa, right := d)];
      nodes := nodes[d := nodes[d].(parent := b, left := m)];
      if m != 0 {
        nodes := nodes[m := nodes[m].(parent := d)];
      }
      ghost var n1 := nodes;
      LinkedIs(ns, n0, n1, old(node), node, c, d, b, t.left.left, t.left.right, t.right);
      SetHeight(d);
      ghost var n2 := nodes;
      SetHeight(b);
      LinkedHeights(ns, n1, n2, nodes, old(node), node, c, d, b, t.left.left, t.left.right, t.right);
      RotatedRight(ns, nodes, old(node), node, c, t);
    }

    method RotateLeft(b: nat, ghost c: Context, ghost t: Tree)
      requires 0 !in nodes && t.Node? && t.off == b && t.right.Node? && Open(nodes, node, c, b, t.left, t.right)
      modifies this
      ensures Closed(nodes, node, c, Avl.RotateLeft(t)) && Framed(old(nodes), nodes, c, Offs(t)) && nodes.Keys == old(nodes).Keys
    {
      hide Open, Closed, Around, ApartAround, Framed, Offs, Rep, OnlyAround, ContextGets, Reparented, Linked, SetChild;
      ghost var ns := nodes;
      RotatesLeft(ns, node, c, t);
      var gpa, d := nodes[b].parent, nodes[b].right;
      var m := nodes[d].left;
      SetParentLeftRight(gpa, b, d);
      RelinkGets(ns, old(node), c, Offs(t), b, d);
      ghost var n0 := nodes;
      nodes := nodes[d := nodes[d].(parent := gpa, left := b)];
      nodes := nodes[b := nodes[b].(parent := d, right := m)];
      if m != 0 {
        nodes := nodes[m := nodes[m].(parent := b)];
      }
      ghost var n1 := nodes;
      LinkedIs(ns, n0, n1, old(node), node, c, b, d, t.left, t.right.left, t.right.right);
      SetHeight(b);
      ghost var n2 := nodes;
      SetHeight(d);
      LinkedHeights(ns, n1, n2, nodes, old(node), node, c, b, d, t.left, t.right.left, t.right.right);
      RotatedLeft(ns, nodes, old(node), node, c, t);
    }

    /** Rotates a node that is out of balance and returns the root of its subtree. */
    method RotateImbalance(x: nat, ghost c: Context, ghost t: Tree) returns (top: nat)
      requires 0 !in nodes && t.Node? && t.off == x && Closed(nodes, node, c, t)
      modifies this
      ensures Closed(nodes, node, c, Rebalanced(t)) && Framed(old(nodes), nodes, c, Offs(t)) && nodes.Keys == old(nodes).Keys
      ensures top == Off(Rebalanced(t))
    {
      hide Open, Closed, Framed, Rep;
      OpenOf(nodes, node, c, t);
      OpenChildren(nodes, node, c, t);
      BalanceIs(nodes, t, Parent(c));
      ghost var ns := nodes;
      var bal := NodeHeight(nodes, nodes[x].right) - NodeHeight(nodes, nodes[x].left);
      if -1 <= bal <= 1 {
        FramedSame(ns, c, Offs(t));
        return x;
      }
      if bal > 0 {
        BalanceIs(nodes, t.right, x);
        var child := nodes[x].right;
        ghost var t1 := t;
        FramedSame(ns, c, Offs(t));
        if NodeHeight(nodes, nodes[child].right) - NodeHeight(nodes, nodes[child].left) < 0 {
          ghost var up := InRight(x, t.left, c);
          RotateRight(child, up, t.right);
          t1 := t.(right := Avl.RotateRight(t.right));
          OpenAbove(nodes, node, up, t1.right);
          RotateRightKeeps(t.right);
          FramedAbove(ns, nodes, c, up, t.right, t1);
        }
        ghost var n1 := nodes;
        RotateLeft(x, c, t1);
        FramedTwice(ns, n1, nodes, c, Offs(t), c, Offs(t1));
        ParentOfLeft(nodes, node, c, Avl.RotateLeft(t1));
      } else {
        BalanceIs(nodes, t.left, x);
        var child := nodes[x].left;
        ghost var t1 := t;
        FramedSame(ns, c, Offs(t));
        if NodeHeight(nodes, nodes[child].right) - NodeHeight(nodes, nodes[child].left) > 0 {
          ghost var up := InLeft(x, t.right, c);
          RotateLeft(child, up, t.left);
          t1 := t.(left := Avl.RotateLeft(t.left));
          OpenAbove(nodes, node, up, t1.left);
          RotateLeftKeeps(t.left);
          FramedAbove(ns, nodes, c, up, t.left, t1);
        }
        ghost var n1 := nodes;
        RotateRight(x, c, t1);
        FramedTwice(ns, n1, nodes, c, Offs(t), c, Offs(t1));
        ParentOfLeft(nodes, node, c, Avl.RotateRight(t1));
      }
      top := nodes[x].parent;
    }

    /** Sets heights and rotates, from the given node up to the root. */
    method Rebalance(start: nat, ghost c0: Context, ghost t0: Tree, ghost h0: nat, ghost order: seq<nat>)
      requires Climbing(nodes, node, c0, t0, h0, order) && start == Parent(c0)
      modifies this
      ensures Valid() && InOrder(tree) == order && Framed(old(nodes), nodes, c0, Offs(t0))
    {
      hide Climbing, Closed, Open, Framed, Rebalanced, InOrder, Offs, ContextOffs, Height, Balanced, BalancedAround, Plug;
      var parent := start;
      ghost var c, t, h, ns := c0, t0, h0, nodes;
      FramedSame(ns, c, Offs(t));
      ClimbingIs(nodes, node, c, t, h, order);
      while parent != 0
        invariant Climbing(nodes, node, c, t, h, order) && parent == Parent(c) && (parent == 0 <==> c.Top?)
        invariant Framed(ns, nodes, c, Offs(t)) && Offs(t) + ContextOffs(c) == Offs(t0) + ContextOffs(c0)
        decreases c
      {
        ClimbingIs(nodes, node, c, t, h, order);
        ClimbingAbove(nodes, node, c, t, h, order);
        ghost var up, n0 := Above(c, t), nodes;
        SetHeight(parent);
        HeightSet(n0, nodes, node, c.up, parent, up.left, up.right);
        FramedTwice(ns, n0, nodes, c, Offs(t), c.up, Offs(up));
        ghost var n1 := nodes;
        var top := RotateImbalance(parent, c.up, up);
        FramedTwice(ns, n1, nodes, c.up, Offs(up), c.up, Offs(up));
        t, h, c := Rebalanced(up), HeightAbove(c, h), c.up;
        RebalancedNode(up);
        TopParent(nodes, node, c, t);
        ClimbingMade(nodes, node, c, t, h, order);
        ClimbingIs(nodes, node, c, t, h, order);
        parent := nodes[top].parent;
      }
      ClimbingIs(nodes, node, c, t, h, order);
      FramedEnd(ns, nodes, c, Offs(t), c0, Offs(t0));
      tree := t;
    }

    /** Adds a node as a child of the node that a search ended at. */
    method Insert(parent: nat, x: nat, cmp: int, ghost c: Context)
      requires Valid() && tree == Plug(c, Leaf) && parent == Parent(c)
      requires x != 0 && x !in Offs(tree) && (c.Top? || (cmp < 0 <==> c.InLeft?))
      modifies this
      ensures Valid() && InOrder(tree) == Before(c) + [x] + After(c)
      ensures nodes.Keys == old(nodes).Keys + {x}
      ensures SameOn(old(nodes), nodes, old(nodes).Keys - old(Offs(tree)) - {x})
    {
      hide Climbing, Closed, InOrder, Offs, ContextOffs, Plug, Before, After, SameOn;
      ghost var ns := nodes;
      InsertClimbs(ns, node, if c.Top? then x else node, c, x, tree);
      nodes := nodes[x := AvlNode(0, 0, 0, 1)];
      if parent == 0 {
        node := x;
        ClimbingIs(nodes, node, c, Node(x, Leaf, Leaf), 0, Before(c) + [x] + After(c));
        tree := Node(x, Leaf, Leaf);
        return;
      }
      if cmp < 0 {
        nodes := nodes[parent := nodes[parent].(left := x)];
      } else {
        nodes := nodes[parent := nodes[parent].(right := x)];
      }
      nodes := nodes[x := nodes[x].(parent := parent)];
      assert nodes == LinkLeaf(ns, c, x);
      ghost var n1 := nodes;
      Rebalance(parent, c, Node(x, Leaf, Leaf), 0, Before(c) + [x] + After(c));
      InsertFrame(ns, n1, nodes, c, x, old(Offs(tree)));
    }

    /** The leftmost node of the right subtree. */
    method Successor(x: nat, ghost c: Context, ghost t: Tree) returns (s: nat, ghost d: Context, ghost sub: Tree)
      requires 0 !in nodes && Closed(nodes, node, c, t) && t.Node? && t.off == x && t.right.Node?
      ensures IsSuccessor(c, t, d, sub) && Closed(nodes, node, d, sub) && s == sub.off
    {
      hide Closed;
      OpenOf(nodes, node, c, t);
      BalanceIs(nodes, t, Parent(c));
      CloseBelow(nodes, node, c, x, t.left, t.right);
      s := nodes[x].right;
      d, sub := InRight(x, t.left, c), t.right;
      OpenOf(nodes, node, d, sub);
      BalanceIs(nodes, sub, x);
      while nodes[s].left != 0
        invariant sub.Node? && s == sub.off && s in nodes && nodes[s].left == Off(sub.left) && Closed(nodes, node, d, sub)
        invariant Plug(d, sub) == Plug(c, t) && Before(d) == Before(c) + InOrder(t.left) + [x] && Offs(sub) <= Offs(t.right)
        invariant (d.InRight? && d.off == t.off && sub == t.right) || (d.InLeft? && d.off in Offs(t.right))
        decreases sub
      {
        OpenOf(nodes, node, d, sub);
        CloseBelow(nodes, node, d, s, sub.left, sub.right);
        d, sub := InLeft(s, sub.right, d), sub.left;
        s := nodes[s].left;
        OpenOf(nodes, node, d, sub);
        BalanceIs(nodes, sub, Parent(d));
      }
      OpenOf(nodes, node, d, sub);
      OffInTree(nodes, sub.left, s);
    }

    /** Trades the places of a node and its successor, which can be its direct child. */
    method SwapLinks(x: nat, s: nat)
      requires 0 !in nodes && x in nodes && s in nodes && Neighbours(nodes, x, s)
      requires nodes[x].parent != 0 ==> nodes[x].parent in nodes
      modifies this
      ensures nodes == SwapLinksTo(old(nodes), x, s)
      ensures node == SetRoot(old(node), old(nodes)[x].parent, s) && tree == old(tree)
    {
      hide SetParent, SetChild, Except, Neighbours;
      NeighboursApart(nodes, x, s);
      var succPar, succRight := nodes[s].parent, nodes[s].right;
      ghost var xn, sn, n := nodes[x], nodes[s], nodes;
      ExceptSelf(n, x, s, nodes[s].(parent := xn.parent));
      nodes := nodes[s := nodes[s].(parent := nodes[x].parent)];
      ExceptChild(nodes, n, x, s, xn.parent, x, s);
      SetParentLeftRight(nodes[s].parent, x, s);
      n := SetChild(n, xn.parent, x, s);
      ExceptAt(nodes, n, x, s, s, nodes[s].(left := xn.left));
      nodes := nodes[s := nodes[s].(left := nodes[x].left)];
      ExceptParent(nodes, n, x, s, xn.left, s);
      nodes, n := SetParent(nodes, nodes[s].left, s), SetParent(n, xn.left, s);
      if succPar == x {
        ExceptAt(nodes, n, x, s, s, nodes[s].(right := x));
        nodes := nodes[s := nodes[s].(right := x)];
        ExceptAt(nodes, n, x, s, x, nodes[x].(parent := s));
        nodes := nodes[x := nodes[x].(parent := s)];
      } else {
        ExceptAt(nodes, n, x, s, s, nodes[s].(right := xn.right));
        nodes := nodes[s := nodes[s].(right := nodes[x].right)];
        ExceptParent(nodes, n, x, s, xn.right, s);
        nodes, n := SetParent(nodes, nodes[s].right, s), SetParent(n, xn.right, s);
        ExceptChild(nodes, n, x, s, succPar, s, x);
        SetParentLeftRight(succPar, s, x);
        n := SetChild(n, succPar, s, x);
        ExceptAt(nodes, n, x, s, x, nodes[x].(parent := succPar));
        nodes := nodes[x := nodes[x].(parent := succPar)];
      }
      ExceptAt(nodes, n, x, s, x, nodes[x].(right := succRight));
      nodes := nodes[x := nodes[x].(right := succRight)];
      ExceptParent(nodes, n, x, s, succRight, x);
      nodes, n := SetParent(nodes, succRight, x), SetParent(n, succRight, x);
      ExceptAt(nodes, n, x, s, x, nodes[x].(left := 0, height := sn.height));
      var xh, sh := nodes[x].height, nodes[s].height;
      nodes := nodes[x := nodes[x].(left := 0, height := sh)];
      ExceptAt(nodes, n, x, s, s, nodes[s].(height := xn.height));
      nodes := nodes[s := nodes[s].(height := xh)];
      ExceptEnds(nodes, n, x, s);
    }

    method SwapWithSuccessor(x: nat, ghost c: Context, ghost t: Tree) returns (ghost a: seq<nat>, ghost s: nat, ghost b: seq<nat>)
      requires Valid() && tree == Plug(c, t) && t.Node? && t.off == x && t.right.Node?
      modifies this
      ensures 0 !in nodes && Closed(nodes, node, Top, tree) && Balanced(tree) && nodes.Keys == old(nodes).Keys
      ensures x in nodes && nodes[x].left == 0 && Offs(tree) == old(Offs(tree)) && x in Offs(tree)
      ensures InOrder(tree) == a + [s] + [x] + b && Drops(old(InOrder(tree)), x, a + [s] + b) && x !in a + [s]
      ensures SameOn(old(nodes), nodes, old(nodes).Keys - old(Offs(tree)))
    {
      hide Closed, Offs, InOrder, Plug, IsSuccessor, Neighbours, Rename, SwapLinksTo, SameOn, Drops, SwapSeq;
      ghost var ns, root, was := nodes, node, tree;
      Focus(nodes, node, c, t);
      var succ, d, sub := Successor(x, c, t);
      SuccessorIn(nodes, node, c, t, d, sub);
      NeighboursIs(nodes, node, c, t, d, sub);
      a, b := SuccessorOrder(nodes, node, c, t, d, sub);
      s := succ;
      SwapLinks(x, succ);
      SwapCloses(ns, root, was, x, s);
      SwapOutside(ns, root, was, x, s);
      tree := Rename(x, s, was);
      RenameShape(x, s, was);
      RenameOrder(x, s, was);
      RenameSame(x, s, was);
      SwapSeqNext(a, x, s, b);
      SwapLeft(ns, x, s);
    }

    /** Takes a node out of the tree. */
    method Delete(x: nat)
      requires Valid() && x in Offs(tree)
      modifies this
      ensures Valid() && Drops(old(InOrder(tree)), x, InOrder(tree))
      ensures nodes.Keys == old(nodes).Keys && SameOn(old(nodes), nodes, old(nodes).Keys - old(Offs(tree)))
    {
      hide Closed, Offs, InOrder, Plug, Drops, SameOn, Climbing, Framed, Unlink, Locate, Balanced, ContextOffs, Before, After, Distinct;
      ghost var order, ns, all := InOrder(tree), nodes, Offs(tree);
      ghost var (c, t) := Locate(tree, x);
      ChildrenOf(nodes, node, c, t);
      SameOnSelf(ns, all);
      ghost var a, s, b;
      ghost var swapped := nodes[x].left != 0 && nodes[x].right != 0;
      if nodes[x].left != 0 && nodes[x].right != 0 {
        a, s, b := SwapWithSuccessor(x, c, t);
        var (c', t') := Locate(tree, x);
        c, t := c', t';
        ChildrenOf(nodes, node, c, t);
      }
      ghost var y := if t.left.Node? then t.left else t.right;
      DeleteClimbs(nodes, node, c, t, y);
      DeleteOrder(c, t, y);
      ghost var after := Before(c) + InOrder(y) + After(c);
      if swapped {
        ClosedDistinct(nodes, node, tree);
        SplitUnique(a + [s], b, Before(c), InOrder(y) + After(c), x);
        assert after == a + [s] + b;
      } else if t.left.Leaf? {
        DropsOne(Before(c), x, InOrder(y) + After(c));
        assert after == Before(c) + (InOrder(y) + After(c));
      } else {
        DropsOne(Before(c) + InOrder(y), x, After(c));
      }
      ghost var n1 := nodes;
      var parent, child := nodes[x].parent, if nodes[x].left != 0 then nodes[x].left else nodes[x].right;
      SetParentLeftRight(parent, x, child);
      nodes := SetParent(nodes, child, parent);
      assert nodes == Unlink(n1, x, child) by { UnlinkIs(n1, x, child); }
      ghost var n2 := nodes;
      Rebalance(parent, c, y, Height(t), after);
      DeleteFrame(ns, n1, n2, nodes, c, Offs(t), Offs(y), all);
    }

    /** Gives a node another place in memory; its place in the tree does not change. */
    method Relocate(to: nat, from: nat)
      requires Valid() && from in Offs(tree) && to !in Offs(tree) && to != 0
      modifies this
      ensures Valid() && InOrder(tree) == SwapSeq(from, to, old(InOrder(tree)))
      ensures nodes.Keys == old(nodes).Keys + {to} && SameOn(old(nodes), nodes, old(nodes).Keys - old(Offs(tree)) - {to})
    {
      hide Closed, Offs, InOrder, SameOn, SetParent, Rename, SwapSeq, Balanced, SetChild;
      ghost var ns, root, was := nodes, node, tree;
      InTree(nodes, node, tree, from);
      RelocateCloses(ns, root, was, to, from);
      var n := nodes[from];
      SetParentLeftRight(n.parent, from, to);
      nodes := SetParent(nodes, n.left, to);
      nodes := SetParent(nodes, n.right, to);
      nodes := nodes[to := n];
      tree := Rename(from, to, was);
      RenameShape(from, to, was);
      RenameOrder(from, to, was);
    }

    /** Finds the node with a key, or where a node with it would go and what would be next to it. */
    method Search(compare: nat -> int) returns (found: nat, cmp: int, par: nat, next: nat, prev: nat, ghost c: Context)
      requires Valid() && Ordered(compare, InOrder(tree))
      ensures found != 0 ==> found in InOrder(tree) && compare(found) == 0
      ensures found == 0 ==> && tree == Plug(c, Leaf) && par == Parent(c) && (c.Top? || (cmp < 0 <==> c.InLeft?))
                             && AllAbove(compare, Before(c)) && AllBelow(compare, After(c))
                             && next == FirstOf(After(c)) && prev == LastOf(Before(c))
    {
      hide Closed, Offs, InOrder, Ordered, AllAbove, AllBelow, Plug, Searching;
      var x := node;
      c := Top;
      ghost var t := tree;
      cmp, par, next, prev := -1, 0, 0, 0;
      SearchStarts(compare, nodes, node, tree);
      while x != 0
        invariant Searching(compare, nodes, node, c, t, tree) && x == Off(t) && par == Parent(c)
        invariant (t.Leaf? <==> x == 0) && (c.Top? || (cmp < 0 <==> c.InLeft?))
        invariant next == FirstOf(After(c)) && prev == LastOf(Before(c))
        decreases t
      {
        SearchingIs(compare, nodes, node, c, t, tree);
        cmp := compare(x);
        par := x;
        if cmp < 0 {
          SearchesLeft(compare, nodes, node, c, t, tree);
          next := x;
          x := nodes[x].left;
          c, t := InLeft(t.off, t.right, c), t.left;
        } else if cmp > 0 {
          SearchesRight(compare, nodes, node, c, t, tree);
          prev := x;
          x := nodes[x].right;
          c, t := InRight(t.off, t.left, c), t.right;
        } else {
          OrderIsOffs(tree);
          return x, cmp, par, next, prev, c;
        }
        SearchingIs(compare, nodes, node, c, t, tree);
      }
      SearchEnds(compare, nodes, node, c, t, tree);
      found := 0;
    }

    method First() returns (x: nat)
      requires Valid()
      ensures x == FirstOf(InOrder(tree))
    {
      hide Closed, Within;
      x := node;
      ghost var c, t := Top, tree;
      WithinStarts(nodes, node, tree);
      WithinIs(nodes, node, c, t, tree);
      while x != 0 && nodes[x].left != 0
        invariant Within(nodes, node, c, t, tree) && x == Off(t) && (t.Leaf? <==> x == 0) && (t.Leaf? ==> c.Top?)
        invariant t.Node? ==> x in nodes && nodes[x].left == Off(t.left) && (Off(t.left) == 0 <==> t.left.Leaf?)
        invariant Before(c) == []
        decreases t
      {
        WithinMoves(nodes, node, c, t, tree);
        x := nodes[x].left;
        c, t := InLeft(t.off, t.right, c), t.left;
        WithinIs(nodes, node, c, t, tree);
      }
      WithinOrder(nodes, node, c, t, tree);
    }

    method Last() returns (x: nat)
      requires Valid()
      ensures x == LastOf(InOrder(tree))
    {
      hide Closed, Within;
      x := node;
      ghost var c, t := Top, tree;
      WithinStarts(nodes, node, tree);
      WithinIs(nodes, node, c, t, tree);
      while x != 0 && nodes[x].right != 0
        invariant Within(nodes, node, c, t, tree) && x == Off(t) && (t.Leaf? <==> x == 0) && (t.Leaf? ==> c.Top?)
        invariant t.Node? ==> x in nodes && nodes[x].right == Off(t.right) && (Off(t.right) == 0 <==> t.right.Leaf?)
        invariant After(c) == []
        decreases t
      {
        WithinMoves(nodes, node, c, t, tree);
        x := nodes[x].right;
        c, t := InRight(t.off, t.left, c), t.right;
        WithinIs(nodes, node, c, t, tree);
      }
      WithinOrder(nodes, node, c, t, tree);
    }

    /** The node that comes after another in the order, or zero. */
    method Next(x: nat) returns (y: nat)
      requires Valid() && x in Offs(tree)
      ensures Follows(InOrder(tree), x, y)
    {
      hide Closed, Within, InOrder, Follows, Offs, Plug;
      ghost var c, t := WithinFound(nodes, node, tree, x);
      WithinIs(nodes, node, c, t, tree);
      WithinOrder(nodes, node, c, t, tree);
      FollowsAt(Before(c) + InOrder(t.left), x, InOrder(t.right) + After(c));
      if nodes[x].right != 0 {
        ghost var w := t;
        WithinMoves(nodes, node, c, t, tree);
        y := nodes[x].right;
        ghost var d := InRight(x, t.left, c);
        t := w.right;
        WithinIs(nodes, node, d, t, tree);
        FirstIsLeft(t);
        while nodes[y].left != 0
          invariant Within(nodes, node, d, t, tree) && t.Node? && y == t.off && y in nodes && nodes[y].left == Off(t.left)
          invariant (Off(t.left) == 0 <==> t.left.Leaf?) && FirstOf(InOrder(t)) == FirstOf(InOrder(w.right))
          decreases t
        {
          WithinMoves(nodes, node, d, t, tree);
          FirstIsLeft(t);
          y := nodes[y].left;
          d, t := InLeft(t.off, t.right, d), t.left;
          WithinIs(nodes, node, d, t, tree);
        }
        FirstIsLeft(t);
        FirstIsLeft(w.right);
        return;
      }
      NoOrder(t.right);
      y := x;
      var parent := nodes[y].parent;
      ghost var after := After(c);
      while parent != 0 && y == nodes[parent].right
        invariant Within(nodes, node, c, t, tree) && t.Node? && y == t.off && parent == Parent(c) && After(c) == after
        invariant (parent == 0 <==> c.Top?) && (parent != 0 ==> parent in nodes)
        invariant c.InLeft? ==> nodes[parent].left == y && nodes[parent].right != y
        invariant c.InRight? ==> nodes[parent].right == y
        decreases c
      {
        WithinUp(nodes, node, c, t, tree);
        y := parent;
        t, c := Node(c.off, c.left, t), c.up;
        WithinIs(nodes, node, c, t, tree);
        parent := nodes[y].parent;
      }
      y := parent;
    }

    /** The node that comes before another in the order, or zero. */
    method Prev(x: nat) returns (y: nat)
      requires Valid() && x in Offs(tree)
      ensures Precedes(InOrder(tree), y, x)
    {
      hide Closed, Within, InOrder, Precedes, Offs, Plug;
      ghost var c, t := WithinFound(nodes, node, tree, x);
      WithinIs(nodes, node, c, t, tree);
      WithinOrder(nodes, node, c, t, tree);
      FollowsAt(Before(c) + InOrder(t.left), x, InOrder(t.right) + After(c));
      if nodes[x].left != 0 {
        ghost var w := t;
        WithinMoves(nodes, node, c, t, tree);
        y := nodes[x].left;
        ghost var d := InLeft(x, t.right, c);
        t := w.left;
        WithinIs(nodes, node, d, t, tree);
        FirstIsLeft(t);
        while nodes[y].right != 0
          invariant Within(nodes, node, d, t, tree) && t.Node? && y == t.off && y in nodes && nodes[y].right == Off(t.right)
          invariant (Off(t.right) == 0 <==> t.right.Leaf?) && LastOf(InOrder(t)) == LastOf(InOrder(w.left))
          decreases t
        {
          WithinMoves(nodes, node, d, t, tree);
          FirstIsLeft(t);
          y := nodes[y].right;
          d, t := InRight(t.off, t.left, d), t.right;
          WithinIs(nodes, node, d, t, tree);
        }
        FirstIsLeft(t);
        FirstIsLeft(w.left);
        return;
      }
      NoOrder(t.left);
      y := x;
      var parent := nodes[y].parent;
      ghost var before := Before(c);
      while parent != 0 && y == nodes[parent].left
        invariant Within(nodes, node, c, t, tree) && t.Node? && y == t.off && parent == Parent(c) && Before(c) == before
        invariant (parent == 0 <==> c.Top?) && (parent != 0 ==> parent in nodes)
        invariant c.InLeft? ==> nodes[parent].left == y
        invariant c.InRight? ==> nodes[parent].right == y && nodes[parent].left != y
        decreases c
      {
        WithinUp(nodes, node, c, t, tree);
        y := parent;
        t, c := Node(c.off, t, c.right), c.up;
        WithinIs(nodes, node, c, t, tree);
        parent := nodes[y].parent;
      }
      y := parent;
    }
  }
}
