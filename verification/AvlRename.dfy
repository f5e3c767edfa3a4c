/** Two nodes trade places in a tree: every link to one becomes a link to the other. */
module AvlRename {
  import opened Avl
  import opened AvlNodes

  function Swap(x: nat, y: nat, o: nat): nat {
    if o == x then y else if o == y then x else o
  }

  function SwapNode(x: nat, y: nat, n: AvlNode): AvlNode {
    AvlNode(Swap(x, y, n.parent), Swap(x, y, n.left), Swap(x, y, n.right), n.height)
  }

  function SwapSeq(x: nat, y: nat, s: seq<nat>): seq<nat> {
    seq(|s|, i requires 0 <= i < |s| => Swap(x, y, s[i]))
  }

  function Rename(x: nat, y: nat, t: Tree): Tree {
    match t
    case Leaf => Leaf
    case Node(o, l, r) => Node(Swap(x, y, o), Rename(x, y, l), Rename(x, y, r))
  }

  lemma {:induction false} RenameShape(x: nat, y: nat, t: Tree)
    ensures Height(Rename(x, y, t)) == Height(t) && (Balanced(Rename(x, y, t)) <==> Balanced(t))
  {
    if t.Node? {
      RenameShape(x, y, t.left);
      RenameShape(x, y, t.right);
    }
  }

  lemma {:induction false} RenameOrder(x: nat, y: nat, t: Tree)
    ensures InOrder(Rename(x, y, t)) == SwapSeq(x, y, InOrder(t))
  {
    if t.Node? {
      RenameOrder(x, y, t.left);
      RenameOrder(x, y, t.right);
    }
  }

  lemma {:induction false} RenameOffs(x: nat, y: nat, t: Tree)
    ensures forall o :: o in Offs(Rename(x, y, t)) <==> Swap(x, y, o) in Offs(t)
  {
    if t.Node? {
      RenameOffs(x, y, t.left);
      RenameOffs(x, y, t.right);
    }
  }

  lemma {:induction false} RenameApart(x: nat, y: nat, t: Tree)
    requires Apart(t)
    ensures Apart(Rename(x, y, t))
  {
    if t.Node? {
      RenameApart(x, y, t.left);
      RenameApart(x, y, t.right);
      RenameOffs(x, y, t.left);
      RenameOffs(x, y, t.right);
      forall o | o in Offs(Rename(x, y, t.left)) ensures o !in Offs(Rename(x, y, t.right)) {
        assert Swap(x, y, o) in Offs(t.left);
      }
    }
  }

  /** Every node of the tree is found under its other name, with its links to other names. */
  ghost predicate Swapped(x: nat, y: nat, ns: Nodes, ns': Nodes, s: set<nat>) {
    forall o :: o in s && o in ns ==> Swap(x, y, o) in ns' && ns'[Swap(x, y, o)] == SwapNode(x, y, ns[o])
  }

  lemma {:induction false} RenameRep(x: nat, y: nat, ns: Nodes, ns': Nodes, t: Tree, par: nat)
    requires x != 0 && y != 0 && Rep(ns, t, par) && Swapped(x, y, ns, ns', Offs(t))
    ensures Rep(ns', Rename(x, y, t), Swap(x, y, par))
  {
    if t.Node? {
      RenameRep(x, y, ns, ns', t.left, t.off);
      RenameRep(x, y, ns, ns', t.right, t.off);
      RenameShape(x, y, t);
      assert Swap(x, y, Off(t.left)) == Off(Rename(x, y, t.left)) && Swap(x, y, Off(t.right)) == Off(Rename(x, y, t.right));
    }
  }

  /** A whole tree after two nodes traded places. */
  lemma {:induction false} RenameClosed(x: nat, y: nat, ns: Nodes, ns': Nodes, root: nat, t: Tree)
    requires x != 0 && y != 0 && Closed(ns, root, Top, t) && Swapped(x, y, ns, ns', Offs(t))
    ensures Closed(ns', Swap(x, y, root), Top, Rename(x, y, t))
  {
    RenameRep(x, y, ns, ns', t, 0);
    RenameApart(x, y, t);
  }

  // ---- links agree in both directions

  /** The node that links to `o` and the nodes that it links to agree with it. */
  ghost predicate Agrees(ns: Nodes, root: nat, s: set<nat>, o: nat) {
    && o in ns && o != 0
    && (ns[o].left != 0 ==> ns[o].left in s && ns[o].left in ns && ns[ns[o].left].parent == o)
    && (ns[o].right != 0 ==> ns[o].right in s && ns[o].right in ns && ns[ns[o].right].parent == o)
    && (ns[o].left != 0 ==> ns[o].left != ns[o].right)
    && (ns[o].parent == 0 ==> root == o)
    && (ns[o].parent != 0 ==> && ns[o].parent in s && ns[o].parent in ns && ns[o].parent != o && root != o
                              && (ns[ns[o].parent].left == o || ns[ns[o].parent].right == o))
  }

  lemma {:induction false} AgreesAt(ns: Nodes, root: nat, c: Context, t: Tree, whole: Tree)
    requires Closed(ns, root, c, t) && t.Node? && Plug(c, t) == whole
    ensures Agrees(ns, root, Offs(whole), t.off)
  {
    PlugOffs(c, t);
    OffInTree(ns, t.left, t.off);
    OffInTree(ns, t.right, t.off);
    OffsApart(c, Offs(t));
    OwnOff(c, t);
    RootOff(ns, root, c, t);
  }

  /** The root is the node without a parent. */
  lemma {:induction false} RootOff(ns: Nodes, root: nat, c: Context, t: Tree)
    requires Closed(ns, root, c, t)
    ensures c.Top? ==> root == Off(t)
    ensures !c.Top? ==> root in ContextOffs(c) && c.off != 0
    decreases c
  {
    if !c.Top? {
      OpenAbove(ns, root, c, t);
      var o, l, r := c.off, if c.InLeft? then t else c.left, if c.InLeft? then c.right else t;
      RootAbove(ns, root, c.up, o);
    }
  }

  lemma {:induction false} RootAbove(ns: Nodes, root: nat, c: Context, hole: nat)
    requires Around(ns, root, c, hole)
    ensures c.Top? ==> root == hole
    ensures !c.Top? ==> root in ContextOffs(c)
  {
    if !c.Top? { RootAbove(ns, root, c.up, c.off); }
  }

  lemma {:induction false} AllAgree(ns: Nodes, root: nat, t: Tree, o: nat)
    requires Closed(ns, root, Top, t) && o in Offs(t)
    ensures Agrees(ns, root, Offs(t), o)
  {
    var (c, sub) := Locate(t, o);
    Focus(ns, root, c, sub);
    AgreesAt(ns, root, c, sub, t);
  }

  // ---- what the code does to the links

  /** A field of one node changes; links to no node change nothing. */
  function SetParent(ns: Nodes, o: nat, parent: nat): Nodes {
    if o in ns then ns[o := ns[o].(parent := parent)] else ns
  }

  /** The child link, or the root link when there is no parent, that pointed at one node points at another. */
  function SetChild(ns: Nodes, parent: nat, from: nat, to: nat): Nodes {
    if parent !in ns then ns
    else if ns[parent].left == from then ns[parent := ns[parent].(left := to)]
    else ns[parent := ns[parent].(right := to)]
  }

  function SetRoot(root: nat, parent: nat, to: nat): nat {
    if parent == 0 then to else root
  }

  /** Two nodes have traded places, the second being the direct right child of the first. */
  function SwapWithChild(ns: Nodes, x: nat, s: nat): Nodes
    requires x in ns && s in ns
  {
    var xn, sn := ns[x], ns[s];
    var n1 := SetChild(ns, xn.parent, x, s);
    var n2 := SetParent(n1, xn.left, s);
    var n3 := SetParent(n2, sn.right, x);
    n3[s := AvlNode(xn.parent, xn.left, x, xn.height)][x := AvlNode(s, 0, sn.right, sn.height)]
  }

  /** Two nodes have traded places, the second being further down. */
  function SwapWithFar(ns: Nodes, x: nat, s: nat): Nodes
    requires x in ns && s in ns
  {
    var xn, sn := ns[x], ns[s];
    var n1 := SetChild(ns, xn.parent, x, s);
    var n2 := SetParent(n1, xn.left, s);
    var n3 := SetParent(n2, xn.right, s);
    var n4 := SetChild(n3, sn.parent, s, x);
    var n5 := SetParent(n4, sn.right, x);
    n5[s := AvlNode(xn.parent, xn.left, xn.right, xn.height)][x := AvlNode(sn.parent, 0, sn.right, sn.height)]
  }

  /** The neighbours of a node and of one in its right subtree are apart. */
  ghost predicate Neighbours(ns: Nodes, x: nat, s: nat)
    requires x in ns && s in ns
  {
    var xn, sn := ns[x], ns[s];
    && x != s && s != xn.parent && s != xn.left && sn.left == 0 && xn.left != x && xn.right != x && sn.right != s
    && (sn.right != 0 ==> sn.right != xn.parent && sn.right != xn.left && sn.right != x && sn.right != xn.right && sn.right != sn.parent)
    && (xn.parent != 0 ==> xn.parent != xn.left && xn.parent != xn.right && xn.parent != x)
    && (sn.parent != x ==> sn.parent != xn.parent && sn.parent != xn.left && sn.parent != 0 && sn.parent in ns
                           && ns[sn.parent].left == s && xn.right != s && xn.right != 0)
    && (sn.parent == x ==> xn.right == s)
  }

  lemma {:induction false} SwapChildAt(ns: Nodes, root: nat, all: set<nat>, x: nat, s: nat, o: nat)
    requires 0 !in ns && Agrees(ns, root, all, o) && Agrees(ns, root, all, x) && Agrees(ns, root, all, s)
    requires Neighbours(ns, x, s) && ns[s].parent == x
    ensures Swap(x, s, o) in SwapWithChild(ns, x, s)
    ensures SwapWithChild(ns, x, s)[Swap(x, s, o)] == SwapNode(x, s, ns[o])
  {
  }

  lemma {:induction false} SwapFarAt(ns: Nodes, root: nat, all: set<nat>, x: nat, s: nat, o: nat)
    requires 0 !in ns && Agrees(ns, root, all, o) && Agrees(ns, root, all, x) && Agrees(ns, root, all, s)
    requires Neighbours(ns, x, s) && ns[s].parent != x
    ensures Swap(x, s, o) in SwapWithFar(ns, x, s)
    ensures SwapWithFar(ns, x, s)[Swap(x, s, o)] == SwapNode(x, s, ns[o])
  {
    if o != x && o != s {
      var xn, sn := ns[x], ns[s];
      var n1 := SetChild(ns, xn.parent, x, s);
      var n2 := SetParent(n1, xn.left, s);
      var n3 := SetParent(n2, xn.right, s);
      assert n3.Keys == ns.Keys;
      assert n3[o].right == Swap(x, s, ns[o].right) && n3[o].height == ns[o].height;
      assert n3[o].left == if ns[o].left == x then s else ns[o].left;
      assert n3[o].parent == if ns[o].parent == x then s else ns[o].parent;
      hide SetParent;
    }
  }

  /** A node moved to a place in memory that the tree does not use. */
  function RelocateLinks(ns: Nodes, to: nat, from: nat): Nodes
    requires from in ns
  {
    var n := ns[from];
    var n1 := SetChild(ns, n.parent, from, to);
    var n2 := SetParent(n1, n.left, to);
    var n3 := SetParent(n2, n.right, to);
    n3[to := n]
  }

  lemma {:induction false} RelocateAt(ns: Nodes, root: nat, all: set<nat>, to: nat, from: nat, o: nat)
    requires 0 !in ns && Agrees(ns, root, all, o) && Agrees(ns, root, all, from)
    requires to != from && to != 0 && to !in all && o in all && from in all
    requires ns[from].parent != 0 ==> ns[from].parent != ns[from].left && ns[from].parent != ns[from].right
    ensures Swap(from, to, o) in RelocateLinks(ns, to, from)
    ensures RelocateLinks(ns, to, from)[Swap(from, to, o)] == SwapNode(from, to, ns[o])
  {
  }

  // ---- the order of nodes that trade places

  /** One sequence is another without `x`. */
  ghost predicate Drops(s: seq<nat>, x: nat, r: seq<nat>) {
    exists i :: 0 <= i < |s| && s[i] == x && r == s[..i] + s[i + 1..]
  }

  lemma {:induction false} DropsOne(a: seq<nat>, x: nat, b: seq<nat>)
    ensures Drops(a + [x] + b, x, a + b)
  {
    var s := a + [x] + b;
    assert s[|a|] == x && s[..|a|] == a && s[|a| + 1..] == b;
  }

  /** A node and its successor trade places in the order, and it makes no difference to what is left without the node. */
  lemma {:induction false} SwapSeqNext(a: seq<nat>, x: nat, s: nat, b: seq<nat>)
    requires x !in a && x !in b && s !in a && s !in b && x != s
    ensures SwapSeq(x, s, a + [x, s] + b) == a + [s] + [x] + b
    ensures Drops(a + [x, s] + b, x, a + [s] + b)
  {
    assert a + [x, s] + b == a + [x] + ([s] + b) && a + [s] + b == a + ([s] + b);
    DropsOne(a, x, [s] + b);
  }

  lemma {:induction false} OrderIsOffs(t: Tree)
    ensures forall o :: o in InOrder(t) <==> o in Offs(t)
  {
    if t.Node? {
      OrderIsOffs(t.left);
      OrderIsOffs(t.right);
    }
  }

  lemma {:induction false} ContextIsOffs(c: Context)
    ensures forall o :: o in Before(c) || o in After(c) <==> o in ContextOffs(c)
  {
    if c.InLeft? { ContextIsOffs(c.up); OrderIsOffs(c.right); }
    if c.InRight? { ContextIsOffs(c.up); OrderIsOffs(c.left); }
  }

  /** The links after a node traded places with its successor. */
  function SwapLinksTo(ns: Nodes, x: nat, s: nat): Nodes
    requires x in ns && s in ns
  {
    if ns[s].parent == x then SwapWithChild(ns, x, s) else SwapWithFar(ns, x, s)
  }

  lemma {:induction false} SwapAt(ns: Nodes, root: nat, all: set<nat>, x: nat, s: nat, o: nat)
    requires 0 !in ns && Agrees(ns, root, all, o) && Agrees(ns, root, all, x) && Agrees(ns, root, all, s)
    requires x in ns && s in ns && o in ns && Neighbours(ns, x, s)
    ensures Swap(x, s, o) in SwapLinksTo(ns, x, s)
    ensures SwapLinksTo(ns, x, s)[Swap(x, s, o)] == SwapNode(x, s, ns[o])
  {
    hide SwapWithChild, SwapWithFar, Agrees;
    if ns[s].parent == x { SwapChildAt(ns, root, all, x, s, o); } else { SwapFarAt(ns, root, all, x, s, o); }
  }

  lemma {:induction false} SwapKeys(ns: Nodes, x: nat, s: nat)
    requires x in ns && s in ns
    ensures SwapLinksTo(ns, x, s).Keys == ns.Keys
  {
  }

  lemma {:induction false} SwapRoot(ns: Nodes, root: nat, all: set<nat>, x: nat, s: nat)
    requires 0 !in ns && Agrees(ns, root, all, x) && Agrees(ns, root, all, s) && Neighbours(ns, x, s)
    ensures SetRoot(root, ns[x].parent, s) == Swap(x, s, root)
  {
  }

  lemma {:induction false} SwapCloses(ns: Nodes, root: nat, t: Tree, x: nat, s: nat)
    requires 0 !in ns && Closed(ns, root, Top, t) && x in Offs(t) && s in Offs(t) && x in ns && s in ns && Neighbours(ns, x, s)
    ensures Closed(SwapLinksTo(ns, x, s), SetRoot(root, ns[x].parent, s), Top, Rename(x, s, t))
    ensures SwapLinksTo(ns, x, s).Keys == ns.Keys
  {
    hide Closed, Agrees, Neighbours, SwapLinksTo, Swap, SwapNode, Offs, Rename;
    AllAgree(ns, root, t, x);
    AllAgree(ns, root, t, s);
    forall o | o in Offs(t) && o in ns
      ensures Swap(x, s, o) in SwapLinksTo(ns, x, s) && SwapLinksTo(ns, x, s)[Swap(x, s, o)] == SwapNode(x, s, ns[o])
    {
      AllAgree(ns, root, t, o);
      SwapAt(ns, root, Offs(t), x, s, o);
    }
    RenameClosed(x, s, ns, SwapLinksTo(ns, x, s), root, t);
    SwapRoot(ns, root, Offs(t), x, s);
    SwapKeys(ns, x, s);
  }

  /** Nodes outside the tree keep their contents. */
  lemma {:induction false} SwapOutside(ns: Nodes, root: nat, t: Tree, x: nat, s: nat)
    requires 0 !in ns && Closed(ns, root, Top, t) && x in Offs(t) && s in Offs(t) && x in ns && s in ns && Neighbours(ns, x, s)
    ensures SameOn(ns, SwapLinksTo(ns, x, s), ns.Keys - Offs(t))
  {
    hide Closed, Offs;
    AllAgree(ns, root, t, x);
    AllAgree(ns, root, t, s);
  }

  lemma {:induction false} RelocateCloses(ns: Nodes, root: nat, t: Tree, to: nat, from: nat)
    requires 0 !in ns && Closed(ns, root, Top, t) && from in Offs(t) && from in ns && to !in Offs(t) && to != 0
    ensures Closed(RelocateLinks(ns, to, from), SetRoot(root, ns[from].parent, to), Top, Rename(from, to, t))
    ensures RelocateLinks(ns, to, from).Keys == ns.Keys + {to}
    ensures SameOn(ns, RelocateLinks(ns, to, from), ns.Keys - Offs(t) - {to})
  {
    hide Closed, Rename, RelocateLinks;
    AllAgree(ns, root, t, from);
    ParentApart(ns, root, t, from);
    forall o | o in Offs(t) && o in ns
      ensures Swap(from, to, o) in RelocateLinks(ns, to, from) && RelocateLinks(ns, to, from)[Swap(from, to, o)] == SwapNode(from, to, ns[o])
    {
      AllAgree(ns, root, t, o);
      RelocateAt(ns, root, Offs(t), to, from, o);
    }
    RenameClosed(from, to, ns, RelocateLinks(ns, to, from), root, t);
    RelocateOutside(ns, root, Offs(t), to, from);
  }

  lemma {:induction false} RelocateOutside(ns: Nodes, root: nat, all: set<nat>, to: nat, from: nat)
    requires 0 !in ns && Agrees(ns, root, all, from) && from in all && to !in all && to != 0
    ensures RelocateLinks(ns, to, from).Keys == ns.Keys + {to}
    ensures SameOn(ns, RelocateLinks(ns, to, from), ns.Keys - all - {to})
  {
  }

  /** A node's parent is not one of its children. */
  lemma {:induction false} ParentApart(ns: Nodes, root: nat, t: Tree, x: nat)
    requires Closed(ns, root, Top, t) && x in Offs(t) && x in ns
    ensures ns[x].parent != 0 ==> ns[x].parent != ns[x].left && ns[x].parent != ns[x].right
    ensures ns[x].parent == 0 <==> root == x
    ensures root in Offs(t)
  {
    var (c, sub) := Locate(t, x);
    Focus(ns, root, c, sub);
    OffsApart(c, Offs(sub));
    OwnOff(c, sub.left);
    OwnOff(c, sub.right);
    AgreesAt(ns, root, c, sub, t);
    RootOff(ns, root, Top, t);
  }

  ghost predicate Distinct(s: seq<nat>) {
    forall i, j :: 0 <= i < j < |s| ==> s[i] != s[j]
  }

  lemma {:induction false} DistinctJoin(a: seq<nat>, x: nat, b: seq<nat>)
    requires Distinct(a) && Distinct(b) && x !in a && x !in b && forall o :: o in a ==> o !in b
    ensures Distinct(a + [x] + b)
  {
    var s := a + [x] + b;
    forall i, j | 0 <= i < j < |s| ensures s[i] != s[j] {
      assert i < |a| ==> s[i] in a;
      assert j > |a| ==> s[j] in b;
    }
  }

  /** No node is in a tree's order twice. */
  lemma {:induction false} OrderDistinct(t: Tree)
    requires Apart(t)
    ensures Distinct(InOrder(t))
  {
    if t.Node? {
      OrderDistinct(t.left);
      OrderDistinct(t.right);
      OrderIsOffs(t.left);
      OrderIsOffs(t.right);
      DistinctJoin(InOrder(t.left), t.off, InOrder(t.right));
    }
  }
}
