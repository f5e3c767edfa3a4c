/** What rotations, links and searches do to a tree and its context. */
module AvlProofs {
  import opened Avl
  import opened AvlNodes
  import opened AvlRename

  function NodeHeight(ns: Nodes, off: nat): nat {
    if off in ns then ns[off].height else 0
  }

  lemma {:induction false} HeightIs(ns: Nodes, t: Tree, par: nat)
    requires Rep(ns, t, par) && 0 !in ns
    ensures NodeHeight(ns, Off(t)) == Height(t)
  {
  }

  /** The child that is not the hole can't be taken for it. */
  lemma {:induction false} SiblingDiffers(ns: Nodes, root: nat, c: Context, s: set<nat>, hole: nat)
    requires Around(ns, root, c, hole) && ApartAround(c, s) && hole in s && hole != 0
    ensures c.InLeft? ==> c.off in ns && c.off != 0 && ns[c.off].left == hole
    ensures c.InRight? ==> c.off in ns && c.off != 0 && ns[c.off].left != hole
  {
    if c.InRight? { OwnOff(c, c.left); }
  }

  /** A subtree's root is apart from the given nodes, and its height is the one that is stored. */
  ghost predicate Fits(ns: Nodes, t: Tree, others: set<nat>) {
    Off(t) !in others && NodeHeight(ns, Off(t)) == Height(t) && (t.Leaf? <==> Off(t) == 0) && (t.Node? ==> t.off in ns)
  }

  /** What a rotation needs to know about the nodes that it changes. */
  ghost predicate Rotates(ns: Nodes, c: Context, d: nat, b: nat, x: Tree, y: Tree, z: Tree) {
    && d in ns && b in ns && d != b && d != 0 && b != 0 && 0 !in ns
    && ns[d].parent == Parent(c)
    && (Parent(c) == 0 <==> c.Top?) && (!c.Top? ==> c.off in ns && c.off != d && c.off != b)
    && Fits(ns, x, {d, b}) && Fits(ns, y, {d, b}) && Fits(ns, z, {d, b})
    && (x.Node? ==> x.off != Off(y) && x.off != Parent(c))
    && (y.Node? ==> y.off != Parent(c))
    && (z.Node? ==> z.off != Off(y) && z.off != Parent(c))
  }

  lemma {:induction false} RotatesIs(ns: Nodes, root: nat, c: Context, d: nat, b: nat,
                                     x: Tree, px: nat, y: Tree, py: nat, z: Tree, pz: nat)
    requires Pieces(c, d, b, x, y, z) && Rep(ns, x, px) && Rep(ns, y, py) && Rep(ns, z, pz) && Around(ns, root, c, d)
    requires d in ns && b in ns && 0 !in ns && ns[d].parent == Parent(c)
    ensures Rotates(ns, c, d, b, x, y, z)
  {
    hide ApartAround, Apart, Around;
    OffsApart(c, {d, b} + Offs(x) + Offs(y) + Offs(z));
    AroundOff(ns, root, c, d);
    OwnOff(c, x);
    OwnOff(c, y);
    OwnOff(c, z);
    HeightIs(ns, x, px);
    HeightIs(ns, y, py);
    HeightIs(ns, z, pz);
  }

  lemma {:induction false} RotatesRight(ns: Nodes, root: nat, c: Context, t: Tree)
    requires 0 !in ns && t.Node? && t.left.Node? && Open(ns, root, c, t.off, t.left, t.right)
    ensures Rotates(ns, c, t.off, t.left.off, t.left.left, t.left.right, t.right)
    ensures ns[t.off].left == t.left.off && ns[t.off].right == Off(t.right)
    ensures ns[t.left.off].left == Off(t.left.left) && ns[t.left.off].right == Off(t.left.right)
    ensures Around(ns, root, c, t.off) && ApartAround(c, Offs(t)) && t.off in Offs(t)
  {
    hide Around, ApartAround;
    PiecesRight(ns, root, c, t);
    RotatesIs(ns, root, c, t.off, t.left.off, t.left.left, t.left.off, t.left.right, t.left.off, t.right, t.off);
  }

  lemma {:induction false} RotatesLeft(ns: Nodes, root: nat, c: Context, t: Tree)
    requires 0 !in ns && t.Node? && t.right.Node? && Open(ns, root, c, t.off, t.left, t.right)
    ensures Rotates(ns, c, t.off, t.right.off, t.left, t.right.left, t.right.right)
    ensures ns[t.off].right == t.right.off && ns[t.off].left == Off(t.left)
    ensures ns[t.right.off].left == Off(t.right.left) && ns[t.right.off].right == Off(t.right.right)
    ensures Around(ns, root, c, t.off) && ApartAround(c, Offs(t)) && t.off in Offs(t)
  {
    hide Around, ApartAround;
    PiecesLeft(ns, root, c, t);
    RotatesIs(ns, root, c, t.off, t.right.off, t.left, t.off, t.right.left, t.right.off, t.right.right, t.right.off);
  }

  /** The links of a rotation are set, heights are not: `d` is now under `b`, which is under the context. */
  ghost predicate Linked(ns: Nodes, ns': Nodes, root: nat, root': nat, c: Context, d: nat, b: nat, y: Tree) {
    && OnlyAround(ns, ns', c, d, b, y) && Reparented(ns, ns', y, d) && ContextGets(ns, ns', root, root', c, b)
    && d in ns' && b in ns' && ns'[b].parent == Parent(c) && ns'[d].parent == b
  }

  /** Only the node above can have changed. */
  ghost predicate OnlyContext(ns: Nodes, ns': Nodes, c: Context) {
    ns'.Keys == ns.Keys && forall x :: x in ns && !(!c.Top? && x == c.off) ==> ns'[x] == ns[x]
  }

  lemma {:induction false} RelinkGets(ns: Nodes, root: nat, c: Context, s: set<nat>, from: nat, to: nat)
    requires 0 !in ns && Around(ns, root, c, from) && ApartAround(c, s) && from in s && from != 0
    ensures var n0 := SetChild(ns, Parent(c), from, to);
            ContextGets(ns, n0, root, SetRoot(root, Parent(c), to), c, to) && OnlyContext(ns, n0, c)
  {
    SiblingDiffers(ns, root, c, s, from);
    AroundOff(ns, root, c, from);
  }

  lemma {:induction false} LinkedIs(ns: Nodes, n0: Nodes, n1: Nodes, root: nat, root': nat, c: Context,
                                    d: nat, b: nat, x: Tree, y: Tree, z: Tree)
    requires Rotates(ns, c, d, b, x, y, z) && OnlyContext(ns, n0, c) && ContextGets(ns, n0, root, root', c, b)
    requires d in n1 && b in n1 && n1[b].parent == Parent(c) && n1[d].parent == b
    requires n1 == if y.Node? then n0[b := n1[b]][d := n1[d]][y.off := n0[y.off].(parent := d)]
                   else n0[b := n1[b]][d := n1[d]]
    ensures Linked(ns, n1, root, root', c, d, b, y)
  {
    hide Height;
  }

  lemma {:induction false} LinkedHeights(ns: Nodes, n1: Nodes, n2: Nodes, n3: Nodes, root: nat, root': nat, c: Context,
                                         d: nat, b: nat, x: Tree, y: Tree, z: Tree)
    requires Rotates(ns, c, d, b, x, y, z) && Linked(ns, n1, root, root', c, d, b, y)
    requires d in n2 && b in n2 && b in n3
    requires n2 == n1[d := n1[d].(height := n2[d].height)] && n3 == n2[b := n2[b].(height := n3[b].height)]
    ensures OnlyAround(ns, n3, c, d, b, y) && Reparented(ns, n3, y, d) && ContextGets(ns, n3, root, root', c, b)
    ensures n3[d] == n1[d].(height := n2[d].height) && n3[b] == n1[b].(height := n3[b].height)
    ensures NodeHeight(n1, Off(x)) == NodeHeight(n2, Off(x)) == Height(x)
    ensures NodeHeight(n1, Off(y)) == NodeHeight(n2, Off(y)) == Height(y)
    ensures NodeHeight(n1, Off(z)) == NodeHeight(n2, Off(z)) == Height(z)
    ensures NodeHeight(n2, d) == n2[d].height
  {
    hide Height;
  }

  lemma {:induction false} AroundOff(ns: Nodes, root: nat, c: Context, hole: nat)
    requires Around(ns, root, c, hole)
    ensures Parent(c) == 0 <==> c.Top?
    ensures !c.Top? ==> c.off in ns
  {
  }

  lemma {:induction false} BalanceIs(ns: Nodes, t: Tree, par: nat)
    requires Rep(ns, t, par) && t.Node? && 0 !in ns
    ensures t.off in ns && ns[t.off].left == Off(t.left) && ns[t.off].right == Off(t.right)
    ensures NodeHeight(ns, Off(t.right)) - NodeHeight(ns, Off(t.left)) == Balance(t)
    ensures Balance(t) > 0 ==> t.right.Node?
    ensures Balance(t) < 0 ==> t.left.Node?
  {
    HeightIs(ns, t.left, t.off);
    HeightIs(ns, t.right, t.off);
  }

  lemma {:induction false} OpenOf(ns: Nodes, root: nat, c: Context, t: Tree)
    requires Closed(ns, root, c, t) && t.Node?
    ensures Open(ns, root, c, t.off, t.left, t.right) && Rep(ns, t, Parent(c))
    ensures Rep(ns, t.left, t.off) && Rep(ns, t.right, t.off)
  {
  }

  /** The children of a node in their contexts. */
  lemma {:induction false} OpenChildren(ns: Nodes, root: nat, c: Context, t: Tree)
    requires Closed(ns, root, c, t) && t.Node?
    ensures t.left.Node? ==> Open(ns, root, InLeft(t.off, t.right, c), t.left.off, t.left.left, t.left.right)
    ensures t.right.Node? ==> Open(ns, root, InRight(t.off, t.left, c), t.right.off, t.right.left, t.right.right)
  {
    hide Open, Closed;
    OpenOf(ns, root, c, t);
    CloseBelow(ns, root, c, t.off, t.left, t.right);
    if t.left.Node? { OpenOf(ns, root, InLeft(t.off, t.right, c), t.left); }
    if t.right.Node? { OpenOf(ns, root, InRight(t.off, t.left, c), t.right); }
  }

  lemma {:induction false} FramedSame(ns: Nodes, c: Context, s: set<nat>)
    ensures Framed(ns, ns, c, s)
  {
  }

  /** What is around a child is around its parent or in it. */
  lemma {:induction false} FramedAbove(ns: Nodes, ns': Nodes, c: Context, up: Context, child: Tree, t: Tree)
    requires Framed(ns, ns', up, Offs(child)) && !up.Top? && up.up == c && t.Node? && up.off == t.off
    requires up.InLeft? ==> Offs(t.left) == Offs(child) && t.right == up.right
    requires up.InRight? ==> Offs(t.right) == Offs(child) && t.left == up.left
    ensures Framed(ns, ns', c, Offs(t)) && Offs(t) == Offs(child) + {up.off} + Offs(if up.InLeft? then up.right else up.left)
  {
    assert ContextOffs(up) == {up.off} + Offs(if up.InLeft? then up.right else up.left) + ContextOffs(c);
    assert Offs(t) == Offs(child) + {up.off} + Offs(if up.InLeft? then up.right else up.left);
  }

  lemma {:induction false} FramedTwice(ns: Nodes, n1: Nodes, n2: Nodes, c1: Context, s1: set<nat>, c2: Context, s2: set<nat>)
    requires Framed(ns, n1, c1, s1) && Framed(n1, n2, c2, s2) && s1 + ContextOffs(c1) == s2 + ContextOffs(c2)
    ensures Framed(ns, n2, c2, s2)
  {
    forall x | x in ns && x !in ContextOffs(c2) && x !in s2 ensures n2[x] == ns[x] {
      assert x !in s2 + ContextOffs(c2);
    }
  }

  lemma {:induction false} ParentOfLeft(ns: Nodes, root: nat, c: Context, t: Tree)
    requires Closed(ns, root, c, t) && t.Node?
    ensures t.left.Node? ==> t.left.off in ns && ns[t.left.off].parent == t.off
    ensures t.right.Node? ==> t.right.off in ns && ns[t.right.off].parent == t.off
  {
    assert Rep(ns, t.left, t.off) && Rep(ns, t.right, t.off);
  }

  /** A node whose height is set from its children. */
  lemma {:induction false} HeightSet(ns: Nodes, ns': Nodes, root: nat, c: Context, o: nat, l: Tree, r: Tree)
    requires 0 !in ns && Open(ns, root, c, o, l, r)
    requires ns' == ns[o := ns[o].(height := 1 + Max(NodeHeight(ns, ns[o].left), NodeHeight(ns, ns[o].right)))]
    ensures Closed(ns', root, c, Node(o, l, r)) && Framed(ns, ns', c, Offs(Node(o, l, r)))
  {
    OffsApart(c, Offs(Node(o, l, r)));
    HeightIs(ns, l, o);
    HeightIs(ns, r, o);
    RepSame(ns, ns', l, o);
    RepSame(ns, ns', r, o);
    AroundSame(ns, ns', root, c, o);
  }

  /** The tree that the loop has reached, with the height that the part it has passed had before. */
  ghost predicate Climbing(ns: Nodes, root: nat, c: Context, t: Tree, h: nat, order: seq<nat>) {
    && 0 !in ns && Closed(ns, root, c, t) && Balanced(t) && BalancedAround(c, h) && -1 <= Height(t) - h <= 1
    && InOrder(Plug(c, t)) == order
  }

  lemma {:induction false} ClimbingIs(ns: Nodes, root: nat, c: Context, t: Tree, h: nat, order: seq<nat>)
    requires Climbing(ns, root, c, t, h, order)
    ensures 0 !in ns && Closed(ns, root, c, t) && (Parent(c) == 0 <==> c.Top?)
    ensures c.Top? ==> Balanced(t) && InOrder(t) == order
  {
    AroundOff(ns, root, c, Off(t));
  }

  lemma {:induction false} ClimbingMade(ns: Nodes, root: nat, c: Context, t: Tree, h: nat, order: seq<nat>)
    requires 0 !in ns && Closed(ns, root, c, t) && Balanced(t) && BalancedAround(c, h) && -1 <= Height(t) - h <= 1
    requires InOrder(Plug(c, t)) == order
    ensures Climbing(ns, root, c, t, h, order)
  {
  }

  lemma {:induction false} FramedEnd(ns: Nodes, ns': Nodes, c1: Context, s1: set<nat>, c2: Context, s2: set<nat>)
    requires Framed(ns, ns', c1, s1) && s1 + ContextOffs(c1) == s2 + ContextOffs(c2)
    ensures Framed(ns, ns', c2, s2)
  {
    FramedSame(ns', c2, s2);
    FramedTwice(ns, ns', ns', c1, s1, c2, s2);
  }

  lemma {:induction false} TopParent(ns: Nodes, root: nat, c: Context, t: Tree)
    requires Closed(ns, root, c, t) && t.Node?
    ensures t.off in ns && ns[t.off].parent == Parent(c)
  {
  }

  lemma {:induction false} RebalancedNode(t: Tree)
    requires t.Node?
    ensures Rebalanced(t).Node?
  {
  }

  ghost function Above(c: Context, t: Tree): Tree
    requires !c.Top?
  {
    if c.InLeft? then Node(c.off, t, c.right) else Node(c.off, c.left, t)
  }

  ghost function HeightAbove(c: Context, h: nat): nat
    requires !c.Top?
  {
    1 + Max(h, Height(if c.InLeft? then c.right else c.left))
  }

  lemma {:induction false} BalancedAbove(c: Context, t: Tree, h: nat)
    requires !c.Top? && Balanced(t) && BalancedAround(c, h) && -1 <= Height(t) - h <= 1
    ensures var a, h' := Rebalanced(Above(c, t)), HeightAbove(c, h);
            Balanced(a) && BalancedAround(c.up, h') && -1 <= Height(a) - h' <= 1
  {
    hide Rebalanced;
    if c.InLeft? {
      RebalancedIs(c.off, t, c.right, h, Height(c.right));
    } else {
      RebalancedIs(c.off, c.left, t, Height(c.left), h);
    }
  }

  lemma {:induction false} OrderAbove(c: Context, t: Tree)
    requires !c.Top?
    ensures var a := Rebalanced(Above(c, t));
            && InOrder(Plug(c.up, a)) == InOrder(Plug(c, t)) && Offs(a) + ContextOffs(c.up) == Offs(t) + ContextOffs(c)
            && Offs(Above(c, t)) == Offs(a)
  {
    hide Rebalanced, InOrder;
    var a := Above(c, t);
    RebalancedKeeps(a);
    PlugInOrder(c.up, a);
    PlugInOrder(c.up, Rebalanced(a));
  }

  lemma {:induction false} ClimbingAbove(ns: Nodes, root: nat, c: Context, t: Tree, h: nat, order: seq<nat>)
    requires Climbing(ns, root, c, t, h, order) && !c.Top?
    ensures c.off in ns && c.off != 0
    ensures var a := Above(c, t); Open(ns, root, c.up, c.off, a.left, a.right)
    ensures var a, h' := Rebalanced(Above(c, t)), HeightAbove(c, h);
            && Balanced(a) && BalancedAround(c.up, h') && -1 <= Height(a) - h' <= 1
            && InOrder(Plug(c.up, a)) == order && Offs(a) + ContextOffs(c.up) == Offs(t) + ContextOffs(c)
            && Offs(Above(c, t)) == Offs(a)
  {
    hide Rebalanced, InOrder, Plug, Offs, ContextOffs, Balanced, BalancedAround, Closed, HeightAbove;
    OpenAbove(ns, root, c, t);
    BalancedAbove(c, t, h);
    OrderAbove(c, t);
  }

  // ---- linking a new node in

  lemma {:induction false} ApartMore(c: Context, s: set<nat>, s': set<nat>)
    requires ApartAround(c, s) && s' !! ContextOffs(c)
    ensures ApartAround(c, s')
    decreases c, 0
  {
    if c.InLeft? { ApartUp(c.up, s, s', c.off, c.right); }
    if c.InRight? { ApartUp(c.up, s, s', c.off, c.left); }
  }

  lemma {:induction false} ApartUp(c: Context, s: set<nat>, s': set<nat>, o: nat, t: Tree)
    requires ApartAround(c, s + {o} + Offs(t)) && s' !! ContextOffs(c)
    ensures ApartAround(c, s' + {o} + Offs(t))
    decreases c, 1
  {
    OffsApart(c, s + {o} + Offs(t));
    ApartMore(c, s + {o} + Offs(t), s' + {o} + Offs(t));
  }

  /** The nodes after a leaf was linked in where there was none. */
  function LinkLeaf(ns: Nodes, c: Context, x: nat): Nodes {
    var n1 := ns[x := AvlNode(Parent(c), 0, 0, 1)];
    if c.InLeft? && c.off in n1 then n1[c.off := n1[c.off].(left := x)]
    else if c.InRight? && c.off in n1 then n1[c.off := n1[c.off].(right := x)]
    else n1
  }

  lemma {:induction false} LinkLeafCloses(ns: Nodes, root: nat, root': nat, c: Context, x: nat)
    requires Closed(ns, root, c, Leaf) && x != 0 && x !in ContextOffs(c) && root' == if c.Top? then x else root
    ensures Closed(LinkLeaf(ns, c, x), root', c, Node(x, Leaf, Leaf))
    ensures SameOn(ns, LinkLeaf(ns, c, x), ns.Keys - ContextOffs(c) - {x})
    ensures LinkLeaf(ns, c, x).Keys == ns.Keys + {x}
  {
    var ns' := LinkLeaf(ns, c, x);
    OwnOff(c, Leaf);
    AroundOff(ns, root, c, 0);
    AroundRelink(ns, ns', root, root', c, {}, 0, x);
    ApartMore(c, {}, {x});
    assert Offs(Node(x, Leaf, Leaf)) == {x};
  }

  lemma {:induction false} InsertClimbs(ns: Nodes, root: nat, root': nat, c: Context, x: nat, tree: Tree)
    requires 0 !in ns && Closed(ns, root, Top, tree) && Balanced(tree) && tree == Plug(c, Leaf)
    requires x != 0 && x !in Offs(tree) && root' == if c.Top? then x else root
    ensures Climbing(LinkLeaf(ns, c, x), root', c, Node(x, Leaf, Leaf), 0, Before(c) + [x] + After(c))
    ensures SameOn(ns, LinkLeaf(ns, c, x), ns.Keys - Offs(tree) - {x}) && LinkLeaf(ns, c, x).Keys == ns.Keys + {x}
    ensures (Parent(c) == 0 <==> c.Top?) && (!c.Top? ==> c.off in ns && c.off != x) && Offs(tree) == ContextOffs(c)
  {
    hide Closed, LinkLeaf;
    Focus(ns, root, c, Leaf);
    PlugOffs(c, Leaf);
    PlugBalanced(c, Leaf);
    PlugInOrder(c, Node(x, Leaf, Leaf));
    LinkLeafCloses(ns, root, root', c, x);
    ClosedOff(ns, root, c, Leaf);
    assert InOrder(Node(x, Leaf, Leaf)) == [x];
  }

  lemma {:induction false} ClosedOff(ns: Nodes, root: nat, c: Context, t: Tree)
    requires Closed(ns, root, c, t)
    ensures (Parent(c) == 0 <==> c.Top?) && (!c.Top? ==> c.off in ns && c.off in ContextOffs(c))
  {
    AroundOff(ns, root, c, Off(t));
    OwnOff(c, t);
  }

  lemma {:induction false} InsertFrame(ns: Nodes, n1: Nodes, n2: Nodes, c: Context, x: nat, all: set<nat>)
    requires SameOn(ns, n1, ns.Keys - all - {x}) && Framed(n1, n2, c, Offs(Node(x, Leaf, Leaf))) && all == ContextOffs(c)
    ensures SameOn(ns, n2, ns.Keys - all - {x}) && n2.Keys == n1.Keys
  {
    assert Offs(Node(x, Leaf, Leaf)) == {x};
  }

  // ---- unlinking a node

  /** What is known when the successor of a node in a subtree has been found: nothing is between the two in the order. */
  ghost predicate IsSuccessor(c: Context, t: Tree, d: Context, sub: Tree) {
    && t.Node? && t.right.Node? && sub.Node? && sub.left.Leaf? && Plug(d, sub) == Plug(c, t)
    && Before(d) == Before(c) + InOrder(t.left) + [t.off]
    && Offs(sub) <= Offs(t.right) && ((d.InRight? && d.off == t.off && sub == t.right) || (d.InLeft? && d.off in Offs(t.right)))
  }

  lemma {:induction false} NeighboursIs(ns: Nodes, root: nat, c: Context, t: Tree, d: Context, sub: Tree)
    requires 0 !in ns && IsSuccessor(c, t, d, sub) && Closed(ns, root, c, t) && Closed(ns, root, d, sub)
    ensures t.off in ns && sub.off in ns && Neighbours(ns, t.off, sub.off) && ns[sub.off].parent == Parent(d)
    ensures ns[t.off].left == Off(t.left) && ns[t.off].right == Off(t.right) && ns[t.off].parent == Parent(c)
    ensures ns[t.off].parent != 0 ==> ns[t.off].parent in ns
  {
    OffsApart(c, Offs(t));
    OffsApart(d, Offs(sub));
    OwnOff(c, t.left);
    OwnOff(d, sub.right);
    OwnOff(c, t.right);
    RepOffs(ns, t, Parent(c));
    AroundOff(ns, root, c, t.off);
    AroundOff(ns, root, d, sub.off);
    assert Rep(ns, t.right, t.off) && Rep(ns, sub.right, sub.off);
  }

  lemma {:induction false} SuccessorIn(ns: Nodes, root: nat, c: Context, t: Tree, d: Context, sub: Tree)
    requires IsSuccessor(c, t, d, sub)
    ensures t.Node? && sub.Node? && t.off in Offs(Plug(c, t)) && sub.off in Offs(Plug(c, t))
  {
    PlugOffs(c, t);
    OwnOff(c, sub);
  }

  /** Trading two of its nodes leaves a tree with the same nodes. */
  lemma {:induction false} RenameSame(x: nat, s: nat, t: Tree)
    requires x in Offs(t) && s in Offs(t)
    ensures Offs(Rename(x, s, t)) == Offs(t)
  {
    RenameOffs(x, s, t);
    forall o ensures o in Offs(Rename(x, s, t)) <==> o in Offs(t) {
      assert o in Offs(Rename(x, s, t)) <==> Swap(x, s, o) in Offs(t);
    }
  }

  lemma {:induction false} SwapLeft(ns: Nodes, x: nat, s: nat)
    requires x in ns && s in ns
    ensures x in SwapLinksTo(ns, x, s) && SwapLinksTo(ns, x, s)[x].left == 0
  {
  }

  /** Two sets of nodes that can only differ at two nodes. */
  ghost predicate Except(m: Nodes, n: Nodes, x: nat, s: nat) {
    m.Keys == n.Keys && forall o :: o in m && o != x && o != s ==> m[o] == n[o]
  }

  lemma {:induction false} ExceptAt(m: Nodes, n: Nodes, x: nat, s: nat, k: nat, v: AvlNode)
    requires Except(m, n, x, s) && (k == x || k == s) && k in m
    ensures Except(m[k := v], n, x, s) && m[k := v].Keys == m.Keys
  {
  }

  lemma {:induction false} ExceptSelf(n: Nodes, x: nat, s: nat, v: AvlNode)
    requires s in n
    ensures Except(n[s := v], n, x, s) && n[s := v].Keys == n.Keys
  {
  }

  lemma {:induction false} NeighboursApart(ns: Nodes, x: nat, s: nat)
    requires 0 !in ns && x in ns && s in ns && Neighbours(ns, x, s)
    ensures var xn, sn := ns[x], ns[s];
            && x != s && xn.parent != x && xn.parent != s && xn.left != x && xn.left != s && sn.right != x && sn.right != s
            && sn.left == 0 && xn.right != x && (sn.parent == x ==> xn.right == s)
            && (sn.parent != x ==> xn.right != s && sn.parent != s && sn.parent in ns && sn.parent != 0)
  {
  }

  lemma {:induction false} ExceptChild(m: Nodes, n: Nodes, x: nat, s: nat, parent: nat, from: nat, to: nat)
    requires Except(m, n, x, s) && x in m && s in m && parent != x && parent != s
    ensures var m', n' := SetChild(m, parent, from, to), SetChild(n, parent, from, to);
            Except(m', n', x, s) && m'.Keys == m.Keys && m'[x] == m[x] && m'[s] == m[s]
  {
  }

  lemma {:induction false} ExceptParent(m: Nodes, n: Nodes, x: nat, s: nat, o: nat, parent: nat)
    requires Except(m, n, x, s) && x in m && s in m && o != x && o != s
    ensures var m', n' := SetParent(m, o, parent), SetParent(n, o, parent);
            Except(m', n', x, s) && m'.Keys == m.Keys && m'[x] == m[x] && m'[s] == m[s]
  {
  }

  lemma {:induction false} ExceptEnds(m: Nodes, n: Nodes, x: nat, s: nat)
    requires Except(m, n, x, s) && x in m && s in m
    ensures m == n[s := m[s]][x := m[x]]
  {
  }

  lemma {:induction false} SplitUnique(p: seq<nat>, q: seq<nat>, p': seq<nat>, q': seq<nat>, x: nat)
    requires p + [x] + q == p' + [x] + q' && Distinct(p + [x] + q)
    ensures p == p' && q == q'
  {
    var s := p + [x] + q;
    assert s[|p|] == x && s[|p'|] == x;
    assert s[..|p|] == p && s[..|p'|] == p' && s[|p| + 1..] == q && s[|p'| + 1..] == q';
  }

  /** The tree's order around a node and its successor. */
  lemma {:induction false} SuccessorOrder(ns: Nodes, root: nat, c: Context, t: Tree, d: Context, sub: Tree)
    returns (a: seq<nat>, b: seq<nat>)
    requires Closed(ns, root, Top, Plug(c, t)) && IsSuccessor(c, t, d, sub)
    ensures InOrder(Plug(c, t)) == a + [t.off, sub.off] + b && t.off != sub.off
    ensures t.off !in a && t.off !in b && sub.off !in a && sub.off !in b
  {
    hide Closed;
    a, b := Before(c) + InOrder(t.left), InOrder(sub.right) + After(d);
    PlugInOrder(d, sub);
    assert InOrder(sub) == [sub.off] + InOrder(sub.right);
    assert Before(d) + InOrder(sub) + After(d) == a + [t.off, sub.off] + b;
    ClosedDistinct(ns, root, Plug(c, t));
    DistinctPair(a, t.off, sub.off, b);
  }

  lemma {:induction false} ClosedDistinct(ns: Nodes, root: nat, t: Tree)
    requires Closed(ns, root, Top, t)
    ensures Distinct(InOrder(t))
  {
    OrderDistinct(t);
  }

  lemma {:induction false} DistinctPair(a: seq<nat>, x: nat, s: nat, b: seq<nat>)
    requires Distinct(a + [x, s] + b)
    ensures x != s && x !in a && x !in b && s !in a && s !in b
  {
    var w := a + [x, s] + b;
    assert w[|a|] == x && w[|a| + 1] == s;
    forall i | 0 <= i < |a| ensures a[i] != x && a[i] != s { assert w[i] == a[i]; }
    forall i | 0 <= i < |b| ensures b[i] != x && b[i] != s { assert w[|a| + 2 + i] == b[i]; }
  }

  /** A node has no other child than `y`, which can be empty. */
  ghost predicate OnlyChild(t: Tree, y: Tree) {
    t.Node? && ((t.left == y && t.right.Leaf?) || (t.left.Leaf? && t.right == y))
  }

  /** The links after a node with at most one child was taken out. */
  function Unlink(ns: Nodes, x: nat, child: nat): Nodes
    requires x in ns
  {
    SetParent(SetChild(ns, ns[x].parent, x, child), child, ns[x].parent)
  }

  lemma {:induction false} UnlinkCloses(ns: Nodes, root: nat, c: Context, t: Tree, y: Tree)
    requires 0 !in ns && Closed(ns, root, c, t) && OnlyChild(t, y)
    ensures t.off in ns && ns[t.off].parent == Parent(c)
    ensures Closed(Unlink(ns, t.off, Off(y)), SetRoot(root, Parent(c), Off(y)), c, y)
    ensures Framed(ns, Unlink(ns, t.off, Off(y)), c, Offs(t)) && Offs(t) == Offs(y) + {t.off}
  {
    hide Around, ApartAround, ContextGets;
    var x, n0 := t.off, SetChild(ns, Parent(c), t.off, Off(y));
    var root' := SetRoot(root, Parent(c), Off(y));
    assert Offs(t) == Offs(y) + {x} && Rep(ns, y, x);
    OffsApart(c, Offs(t));
    OwnOff(c, y);
    RelinkGets(ns, root, c, Offs(t), x, Off(y));
    ClosedOff(ns, root, c, t);
    OffInTree(ns, y, x);
    UnlinkRest(ns, n0, SetParent(n0, Off(y), Parent(c)), root, root', c, x, y);
    ApartMore(c, Offs(t), Offs(y));
  }

  lemma {:induction false} UnlinkRest(ns: Nodes, n0: Nodes, n1: Nodes, root: nat, root': nat, c: Context, x: nat, y: Tree)
    requires Around(ns, root, c, x) && ApartAround(c, Offs(y) + {x}) && Rep(ns, y, x) && Apart(y) && 0 !in ns
    requires ContextGets(ns, n0, root, root', c, Off(y)) && OnlyContext(ns, n0, c) && n1 == SetParent(n0, Off(y), Parent(c))
    ensures Rep(n1, y, Parent(c)) && Around(n1, root', c, Off(y)) && Framed(ns, n1, c, Offs(y) + {x})
  {
    hide Around, ApartAround, Rep, Offs, ContextOffs, Apart;
    OffsApart(c, Offs(y) + {x});
    OwnOff(c, y);
    OffInTree(ns, y, x);
    AroundRelink(ns, n1, root, root', c, Offs(y) + {x}, x, Off(y));
    RepReparent(ns, n1, y, x, Parent(c));
  }

  lemma {:induction false} DeleteOrder(c: Context, t: Tree, y: Tree)
    requires OnlyChild(t, y)
    ensures InOrder(Plug(c, y)) == Before(c) + InOrder(y) + After(c)
    ensures t.left.Leaf? ==> InOrder(Plug(c, t)) == Before(c) + [t.off] + (InOrder(y) + After(c))
    ensures t.right.Leaf? ==> InOrder(Plug(c, t)) == (Before(c) + InOrder(y)) + [t.off] + After(c)
  {
    PlugInOrder(c, t);
    PlugInOrder(c, y);
    hide Plug, Before, After;
    assert InOrder(t) == InOrder(t.left) + [t.off] + InOrder(t.right);
    if t.left.Leaf? { assert Before(c) + InOrder(t) + After(c) == Before(c) + [t.off] + (InOrder(y) + After(c)); }
    if t.right.Leaf? { assert Before(c) + InOrder(t) + After(c) == (Before(c) + InOrder(y)) + [t.off] + After(c); }
  }

  lemma {:induction false} DeleteBalance(c: Context, t: Tree, y: Tree)
    requires OnlyChild(t, y) && Balanced(Plug(c, t))
    ensures Balanced(y) && BalancedAround(c, Height(t)) && Height(t) == Height(y) + 1
  {
    PlugBalanced(c, t);
  }

  lemma {:induction false} DeleteClimbs(ns: Nodes, root: nat, c: Context, t: Tree, y: Tree)
    requires 0 !in ns && Closed(ns, root, Top, Plug(c, t)) && Balanced(Plug(c, t)) && OnlyChild(t, y)
    ensures t.off in ns && ns[t.off].parent == Parent(c) && ns[t.off].left == Off(t.left) && ns[t.off].right == Off(t.right)
    ensures Parent(c) == 0 || Parent(c) in ns
    ensures Climbing(Unlink(ns, t.off, Off(y)), SetRoot(root, Parent(c), Off(y)), c, y, Height(t), Before(c) + InOrder(y) + After(c))
    ensures Framed(ns, Unlink(ns, t.off, Off(y)), c, Offs(t)) && Offs(t) + ContextOffs(c) == Offs(Plug(c, t)) && Offs(t) == Offs(y) + {t.off}
  {
    hide Closed, Unlink, Framed, Balanced, BalancedAround, Height, InOrder, Plug, Before, After, Offs;
    ChildrenOf(ns, root, c, t);
    ClosedOff(ns, root, c, t);
    UnlinkCloses(ns, root, c, t, y);
    DeleteBalance(c, t, y);
    DeleteOrder(c, t, y);
    PlugOffs(c, t);
    UnlinkKeys(ns, t.off, Off(y));
  }

  lemma {:induction false} UnlinkIs(ns: Nodes, x: nat, child: nat)
    requires x in ns
    ensures Unlink(ns, x, child) == SetParent(SetChild(ns, ns[x].parent, x, child), child, ns[x].parent)
  {
  }

  lemma {:induction false} SameOnSelf(ns: Nodes, all: set<nat>)
    ensures SameOn(ns, ns, ns.Keys - all)
  {
  }

  lemma {:induction false} ChildrenOf(ns: Nodes, root: nat, c: Context, t: Tree)
    requires 0 !in ns && Closed(ns, root, Top, Plug(c, t)) && t.Node?
    ensures Closed(ns, root, c, t) && t.off in ns && ns[t.off].left == Off(t.left) && ns[t.off].right == Off(t.right)
    ensures (t.left.Leaf? <==> Off(t.left) == 0) && (t.right.Leaf? <==> Off(t.right) == 0)
  {
    hide Closed;
    Focus(ns, root, c, t);
    OpenOf(ns, root, c, t);
    BalanceIs(ns, t, Parent(c));
    OffInTree(ns, t.left, t.off);
    OffInTree(ns, t.right, t.off);
  }

  lemma {:induction false} DeleteFrame(ns: Nodes, n1: Nodes, n2: Nodes, n3: Nodes, c: Context, s1: set<nat>, s2: set<nat>, all: set<nat>)
    requires SameOn(ns, n1, ns.Keys - all) && n1.Keys == ns.Keys && Framed(n1, n2, c, s1) && Framed(n2, n3, c, s2)
    requires s1 + ContextOffs(c) == all && s2 <= s1
    ensures SameOn(ns, n3, ns.Keys - all) && n3.Keys == ns.Keys
  {
    forall x | x in ns.Keys - all && x in ns ensures x in n3 && n3[x] == ns[x] {
      assert x !in s1 + ContextOffs(c);
    }
  }

  lemma {:induction false} UnlinkKeys(ns: Nodes, x: nat, child: nat)
    requires x in ns
    ensures Unlink(ns, x, child).Keys == ns.Keys
  {
  }

  // ---- searching and walking

  /** Nodes are in the order of their keys, which are all different: `compare` says how the searched key compares with a node's. */
  ghost predicate Ordered(compare: nat -> int, s: seq<nat>) {
    forall i, j :: 0 <= i < j < |s| ==> compare(s[i]) > 0 || compare(s[j]) < 0
  }

  ghost predicate AllAbove(compare: nat -> int, s: seq<nat>) {
    forall i :: 0 <= i < |s| ==> compare(s[i]) > 0
  }

  ghost predicate AllBelow(compare: nat -> int, s: seq<nat>) {
    forall i :: 0 <= i < |s| ==> compare(s[i]) < 0
  }

  function FirstOf(s: seq<nat>): nat {
    if s == [] then 0 else s[0]
  }

  function LastOf(s: seq<nat>): nat {
    if s == [] then 0 else s[|s| - 1]
  }

  /** Everything on one side of the searched key is on one side of the subtree that is left to search. */
  ghost predicate Searching(compare: nat -> int, ns: Nodes, root: nat, c: Context, t: Tree, whole: Tree) {
    0 !in ns && Closed(ns, root, c, t) && Plug(c, t) == whole && AllAbove(compare, Before(c)) && AllBelow(compare, After(c))
  }

  lemma {:induction false} OrderedSplit(compare: nat -> int, p: seq<nat>, x: nat, q: seq<nat>)
    requires Ordered(compare, p + [x] + q)
    ensures compare(x) < 0 ==> AllBelow(compare, [x] + q)
    ensures compare(x) > 0 ==> AllAbove(compare, p + [x])
  {
    var w := p + [x] + q;
    assert w[|p|] == x;
    forall i | 0 <= i < |q| ensures compare(x) < 0 ==> compare(q[i]) < 0 { assert w[|p| + 1 + i] == q[i]; }
    forall i | 0 <= i < |p| ensures compare(x) > 0 ==> compare(p[i]) > 0 { assert w[i] == p[i]; }
  }

  lemma {:induction false} OrderAt(c: Context, t: Tree)
    requires t.Node?
    ensures InOrder(Plug(c, t)) == (Before(c) + InOrder(t.left)) + [t.off] + (InOrder(t.right) + After(c))
    ensures After(InLeft(t.off, t.right, c)) == [t.off] + (InOrder(t.right) + After(c))
    ensures Before(InRight(t.off, t.left, c)) == (Before(c) + InOrder(t.left)) + [t.off]
  {
    PlugInOrder(c, t);
    assert InOrder(t) == InOrder(t.left) + [t.off] + InOrder(t.right);
  }

  lemma {:induction false} SearchesLeft(compare: nat -> int, ns: Nodes, root: nat, c: Context, t: Tree, whole: Tree)
    requires Searching(compare, ns, root, c, t, whole) && Ordered(compare, InOrder(whole)) && t.Node? && compare(t.off) < 0
    ensures Searching(compare, ns, root, InLeft(t.off, t.right, c), t.left, whole)
    ensures FirstOf(After(InLeft(t.off, t.right, c))) == t.off
    ensures Before(InLeft(t.off, t.right, c)) == Before(c)
  {
    hide Closed, Ordered, InOrder, AllAbove, AllBelow, Open;
    OpenOf(ns, root, c, t);
    CloseBelow(ns, root, c, t.off, t.left, t.right);
    OrderAt(c, t);
    OrderedSplit(compare, Before(c) + InOrder(t.left), t.off, InOrder(t.right) + After(c));
  }

  lemma {:induction false} SearchesRight(compare: nat -> int, ns: Nodes, root: nat, c: Context, t: Tree, whole: Tree)
    requires Searching(compare, ns, root, c, t, whole) && Ordered(compare, InOrder(whole)) && t.Node? && compare(t.off) > 0
    ensures Searching(compare, ns, root, InRight(t.off, t.left, c), t.right, whole)
    ensures LastOf(Before(InRight(t.off, t.left, c))) == t.off
    ensures After(InRight(t.off, t.left, c)) == After(c)
  {
    hide Closed, Ordered, InOrder, AllAbove, AllBelow, Open;
    OpenOf(ns, root, c, t);
    CloseBelow(ns, root, c, t.off, t.left, t.right);
    OrderAt(c, t);
    OrderedSplit(compare, Before(c) + InOrder(t.left), t.off, InOrder(t.right) + After(c));
  }

  lemma {:induction false} SearchingIs(compare: nat -> int, ns: Nodes, root: nat, c: Context, t: Tree, whole: Tree)
    requires Searching(compare, ns, root, c, t, whole)
    ensures t.Leaf? <==> Off(t) == 0
    ensures t.Node? ==> t.off in ns && ns[t.off].left == Off(t.left) && ns[t.off].right == Off(t.right) && t.off in Offs(whole)
  {
    OffInTree(ns, t, Parent(c));
    PlugOffs(c, t);
  }

  lemma {:induction false} SearchStarts(compare: nat -> int, ns: Nodes, root: nat, t: Tree)
    requires 0 !in ns && Closed(ns, root, Top, t)
    ensures Searching(compare, ns, root, Top, t, t) && root == Off(t) && (t.Leaf? <==> root == 0)
  {
    OffInTree(ns, t, 0);
  }

  lemma {:induction false} SearchEnds(compare: nat -> int, ns: Nodes, root: nat, c: Context, t: Tree, whole: Tree)
    requires Searching(compare, ns, root, c, t, whole) && t.Leaf?
    ensures whole == Plug(c, Leaf) && AllAbove(compare, Before(c)) && AllBelow(compare, After(c))
  {
  }

  lemma {:induction false} InTree(ns: Nodes, root: nat, t: Tree, x: nat)
    requires 0 !in ns && Closed(ns, root, Top, t) && x in Offs(t)
    ensures x in ns && x != 0 && (ns[x].parent == 0 || ns[x].parent in ns)
  {
    AllAgree(ns, root, t, x);
  }

  // ---- neighbours in the order

  /** `y` comes right after `x`, or nothing does when it is zero. */
  ghost predicate Follows(s: seq<nat>, x: nat, y: nat) {
    exists i :: 0 <= i < |s| && s[i] == x && y == FirstOf(s[i + 1..])
  }

  ghost predicate Precedes(s: seq<nat>, y: nat, x: nat) {
    exists i :: 0 <= i < |s| && s[i] == x && y == LastOf(s[..i])
  }

  lemma {:induction false} FollowsAt(a: seq<nat>, x: nat, b: seq<nat>)
    ensures Follows(a + [x] + b, x, FirstOf(b)) && Precedes(a + [x] + b, LastOf(a), x)
  {
    var s := a + [x] + b;
    assert s[|a|] == x && s[|a| + 1..] == b && s[..|a|] == a;
  }

  /** A subtree of the whole tree, and what its root links to. */
  ghost predicate Within(ns: Nodes, root: nat, c: Context, t: Tree, whole: Tree) {
    0 !in ns && Closed(ns, root, c, t) && Plug(c, t) == whole
  }

  lemma {:induction false} WithinIs(ns: Nodes, root: nat, c: Context, t: Tree, whole: Tree)
    requires Within(ns, root, c, t, whole)
    ensures (t.Leaf? <==> Off(t) == 0) && (Parent(c) == 0 <==> c.Top?)
    ensures t.Node? ==> && t.off in ns && ns[t.off].parent == Parent(c)
                        && ns[t.off].left == Off(t.left) && ns[t.off].right == Off(t.right)
                        && (Off(t.left) == 0 <==> t.left.Leaf?) && (Off(t.right) == 0 <==> t.right.Leaf?)
    ensures t.Node? && c.InLeft? ==> c.off in ns && ns[c.off].left == t.off && ns[c.off].right != t.off
    ensures t.Node? && c.InRight? ==> c.off in ns && ns[c.off].right == t.off && ns[c.off].left != t.off
  {
    OffInTree(ns, t, Parent(c));
    AroundOff(ns, root, c, Off(t));
    if t.Node? {
      OffInTree(ns, t.left, t.off);
      OffInTree(ns, t.right, t.off);
      OwnOff(c, t);
      if c.InLeft? { OwnOff(c, c.right); }
      if c.InRight? { OwnOff(c, c.left); }
    }
  }

  lemma {:induction false} WithinMoves(ns: Nodes, root: nat, c: Context, t: Tree, whole: Tree)
    requires Within(ns, root, c, t, whole)
    ensures t.Node? ==> Within(ns, root, InLeft(t.off, t.right, c), t.left, whole)
    ensures t.Node? ==> Within(ns, root, InRight(t.off, t.left, c), t.right, whole)
  {
    if t.Node? {
      OpenOf(ns, root, c, t);
      CloseBelow(ns, root, c, t.off, t.left, t.right);
    }
  }

  lemma {:induction false} WithinOrder(ns: Nodes, root: nat, c: Context, t: Tree, whole: Tree)
    requires Within(ns, root, c, t, whole)
    ensures t.Node? ==> InOrder(whole) == (Before(c) + InOrder(t.left)) + [t.off] + (InOrder(t.right) + After(c))
    ensures t.Leaf? && c.Top? ==> InOrder(whole) == []
    ensures t.Leaf? ==> InOrder(t) == []
  {
    if t.Node? { OrderAt(c, t); }
  }

  lemma {:induction false} NoOrder(t: Tree)
    requires t.Leaf?
    ensures InOrder(t) == []
  {
  }

  lemma {:induction false} FirstIsLeft(t: Tree)
    requires t.Node?
    ensures InOrder(t) != [] && FirstOf(InOrder(t)) == (if t.left.Leaf? then t.off else FirstOf(InOrder(t.left)))
    ensures LastOf(InOrder(t)) == (if t.right.Leaf? then t.off else LastOf(InOrder(t.right)))
    ensures t.left.Node? ==> InOrder(t.left) != []
    ensures t.right.Node? ==> InOrder(t.right) != []
  {
  }

  lemma {:induction false} WithinStarts(ns: Nodes, root: nat, t: Tree)
    requires 0 !in ns && Closed(ns, root, Top, t)
    ensures Within(ns, root, Top, t, t) && root == Off(t)
  {
  }

  lemma {:induction false} WithinFound(ns: Nodes, root: nat, t: Tree, x: nat) returns (c: Context, sub: Tree)
    requires 0 !in ns && Closed(ns, root, Top, t) && x in Offs(t)
    ensures Within(ns, root, c, sub, t) && sub.Node? && sub.off == x
  {
    var (c', sub') := Locate(t, x);
    c, sub := c', sub';
    Focus(ns, root, c, sub);
  }

  /** Going up keeps what is on the other side of the subtree. */
  lemma {:induction false} WithinUp(ns: Nodes, root: nat, c: Context, t: Tree, whole: Tree)
    requires Within(ns, root, c, t, whole) && 0 !in ns && Closed(ns, root, Top, whole)
    ensures c.InLeft? ==> Within(ns, root, c.up, Node(c.off, t, c.right), whole) && Before(c.up) == Before(c)
    ensures c.InRight? ==> Within(ns, root, c.up, Node(c.off, c.left, t), whole) && After(c.up) == After(c)
  {
    if c.InLeft? { Focus(ns, root, c.up, Node(c.off, t, c.right)); }
    if c.InRight? { Focus(ns, root, c.up, Node(c.off, c.left, t)); }
  }
}
