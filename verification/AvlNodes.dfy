/** Nodes with parent pointers, left and right children and stored heights, that represent a tree. */
module AvlNodes {
  import opened Avl

  datatype AvlNode = AvlNode(parent: nat, left: nat, right: nat, height: nat)

  type Nodes = map<nat, AvlNode>

  /** The nodes represent a tree whose root has the given parent; heights are exact. */
  ghost predicate Rep(ns: Nodes, t: Tree, par: nat) {
    match t
    case Leaf => true
    case Node(o, l, r) =>
      o != 0 && o in ns && ns[o] == AvlNode(par, Off(l), Off(r), Height(t)) && Rep(ns, l, o) && Rep(ns, r, o)
  }

  /** No node is in a tree twice. */
  ghost predicate Apart(t: Tree) {
    match t
    case Leaf => true
    case Node(o, l, r) => o !in Offs(l) && o !in Offs(r) && Offs(l) !! Offs(r) && Apart(l) && Apart(r)
  }

  ghost predicate ApartAround(c: Context, s: set<nat>) {
    match c
    case Top => true
    case InLeft(o, t, up) => o !in s && o !in Offs(t) && Offs(t) !! s && Apart(t) && ApartAround(up, s + {o} + Offs(t))
    case InRight(o, t, up) => o !in s && o !in Offs(t) && Offs(t) !! s && Apart(t) && ApartAround(up, s + {o} + Offs(t))
  }

  /** The nodes around a subtree that is linked in at `hole`. Their heights can be stale. */
  ghost predicate Around(ns: Nodes, root: nat, c: Context, hole: nat) {
    match c
    case Top => root == hole
    case InLeft(o, t, up) =>
      && o != 0 && o in ns && ns[o].left == hole && ns[o].right == Off(t) && ns[o].parent == Parent(up)
      && Rep(ns, t, o) && Around(ns, root, up, o)
    case InRight(o, t, up) =>
      && o != 0 && o in ns && ns[o].right == hole && ns[o].left == Off(t) && ns[o].parent == Parent(up)
      && Rep(ns, t, o) && Around(ns, root, up, o)
  }

  /** A subtree in its context. */
  ghost predicate Closed(ns: Nodes, root: nat, c: Context, t: Tree) {
    Rep(ns, t, Parent(c)) && Around(ns, root, c, Off(t)) && Apart(t) && ApartAround(c, Offs(t))
  }

  /** A node in its context, whose own height can be stale. */
  ghost predicate Open(ns: Nodes, root: nat, c: Context, o: nat, l: Tree, r: Tree) {
    && o != 0 && o in ns && ns[o].parent == Parent(c) && ns[o].left == Off(l) && ns[o].right == Off(r)
    && Rep(ns, l, o) && Rep(ns, r, o) && Around(ns, root, c, o)
    && Apart(Node(o, l, r)) && ApartAround(c, Offs(Node(o, l, r)))
  }

  lemma {:induction false} OpenAbove(ns: Nodes, root: nat, c: Context, t: Tree)
    requires Closed(ns, root, c, t) && !c.Top?
    ensures c.InLeft? ==> Open(ns, root, c.up, c.off, t, c.right)
    ensures c.InRight? ==> Open(ns, root, c.up, c.off, c.left, t)
  {
    if c.InLeft? {
      assert Offs(Node(c.off, t, c.right)) == Offs(t) + {c.off} + Offs(c.right);
    } else {
      assert Offs(Node(c.off, c.left, t)) == Offs(t) + {c.off} + Offs(c.left);
    }
  }

  lemma {:induction false} CloseBelow(ns: Nodes, root: nat, c: Context, o: nat, l: Tree, r: Tree)
    requires Open(ns, root, c, o, l, r)
    ensures Closed(ns, root, InLeft(o, r, c), l) && Closed(ns, root, InRight(o, l, c), r)
  {
    assert Offs(Node(o, l, r)) == Offs(l) + {o} + Offs(r) == Offs(r) + {o} + Offs(l);
  }

  // ---- what a change of other nodes keeps

  ghost predicate SameOn(ns: Nodes, ns': Nodes, s: set<nat>) {
    forall x :: x in s && x in ns ==> x in ns' && ns'[x] == ns[x]
  }

  lemma {:induction false} RepSame(ns: Nodes, ns': Nodes, t: Tree, par: nat)
    requires Rep(ns, t, par) && SameOn(ns, ns', Offs(t))
    ensures Rep(ns', t, par)
  {
    if t.Node? {
      RepSame(ns, ns', t.left, t.off);
      RepSame(ns, ns', t.right, t.off);
    }
  }

  lemma {:induction false} AroundSame(ns: Nodes, ns': Nodes, root: nat, c: Context, hole: nat)
    requires Around(ns, root, c, hole) && SameOn(ns, ns', ContextOffs(c))
    ensures Around(ns', root, c, hole)
  {
    match c
    case Top =>
    case InLeft(o, t, up) => RepSame(ns, ns', t, o); AroundSame(ns, ns', root, up, o);
    case InRight(o, t, up) => RepSame(ns, ns', t, o); AroundSame(ns, ns', root, up, o);
  }

  /** A subtree is linked to another parent. */
  lemma {:induction false} RepReparent(ns: Nodes, ns': Nodes, t: Tree, par: nat, par': nat)
    requires Rep(ns, t, par) && Apart(t) && SameOn(ns, ns', Offs(t) - {Off(t)})
    requires t.Node? ==> t.off in ns' && ns'[t.off] == ns[t.off].(parent := par')
    ensures Rep(ns', t, par')
  {
    if t.Node? {
      RepSame(ns, ns', t.left, t.off);
      RepSame(ns, ns', t.right, t.off);
    }
  }

  lemma {:induction false} OffInTree(ns: Nodes, t: Tree, par: nat)
    requires Rep(ns, t, par)
    ensures Off(t) == 0 <==> t.Leaf?
    ensures t.Node? ==> t.off in Offs(t) && t.off in ns
  {
  }

  lemma {:induction false} OffsApart(c: Context, s: set<nat>)
    requires ApartAround(c, s)
    ensures ContextOffs(c) !! s
  {
    if c.InLeft? { OffsApart(c.up, s + {c.off} + Offs(c.right)); }
    if c.InRight? { OffsApart(c.up, s + {c.off} + Offs(c.left)); }
  }

  /** Linking another subtree in: only the parent's child or the root changes. */
  lemma {:induction false} AroundRelink(ns: Nodes, ns': Nodes, root: nat, root': nat, c: Context, s: set<nat>, hole: nat, hole': nat)
    requires Around(ns, root, c, hole) && ApartAround(c, s)
    requires c.Top? ==> root' == hole'
    requires !c.Top? ==> root' == root && SameOn(ns, ns', ContextOffs(c) - {c.off}) && c.off in ns'
    requires c.InLeft? ==> ns'[c.off] == ns[c.off].(left := hole')
    requires c.InRight? ==> ns'[c.off] == ns[c.off].(right := hole')
    ensures Around(ns', root', c, hole')
  {
    match c
    case Top =>
    case InLeft(o, t, up) =>
      OffsApart(up, s + {o} + Offs(t));
      RepSame(ns, ns', t, o);
      AroundSame(ns, ns', root, up, o);
    case InRight(o, t, up) =>
      OffsApart(up, s + {o} + Offs(t));
      RepSame(ns, ns', t, o);
      AroundSame(ns, ns', root, up, o);
  }

  /** Nodes that are neither in a subtree nor around it are as they were. */
  ghost predicate Framed(ns: Nodes, ns': Nodes, c: Context, s: set<nat>) {
    ns'.Keys == ns.Keys && forall x :: x in ns && x !in ContextOffs(c) && x !in s ==> ns'[x] == ns[x]
  }

  lemma {:induction false} RepOffs(ns: Nodes, t: Tree, par: nat)
    requires Rep(ns, t, par)
    ensures 0 !in Offs(t) && Offs(t) <= ns.Keys
  {
    if t.Node? {
      RepOffs(ns, t.left, t.off);
      RepOffs(ns, t.right, t.off);
    }
  }

  lemma {:induction false} OwnOff(c: Context, t: Tree)
    ensures !c.Top? ==> c.off in ContextOffs(c)
    ensures t.Node? ==> t.off in Offs(t)
  {
  }

  /** Two nodes and three subtrees that are all apart, in a context. */
  ghost predicate Pieces(c: Context, d: nat, b: nat, x: Tree, y: Tree, z: Tree) {
    && Apart(x) && Apart(y) && Apart(z) && d != b
    && d !in Offs(x) && d !in Offs(y) && d !in Offs(z) && b !in Offs(x) && b !in Offs(y) && b !in Offs(z)
    && Offs(x) !! Offs(y) && Offs(x) !! Offs(z) && Offs(y) !! Offs(z)
    && ApartAround(c, {d, b} + Offs(x) + Offs(y) + Offs(z))
  }

  /** The nodes that a rotation changes: the two nodes, the subtree between them and their parent. */
  ghost predicate OnlyAround(ns: Nodes, ns': Nodes, c: Context, d: nat, b: nat, y: Tree) {
    && ns'.Keys == ns.Keys
    && forall x :: x in ns && x != d && x != b && !(y.Node? && x == y.off) && !(!c.Top? && x == c.off) ==> ns'[x] == ns[x]
  }

  /** The outer subtrees are untouched, the inner one has another parent, and the context another child. */
  lemma {:induction false} RotatedPieces(ns: Nodes, ns': Nodes, root: nat, root': nat, c: Context,
                                         d: nat, b: nat, x: Tree, px: nat, y: Tree, py: nat, py': nat, z: Tree, pz: nat)
    requires Pieces(c, d, b, x, y, z) && Rep(ns, x, px) && Rep(ns, y, py) && Rep(ns, z, pz) && Around(ns, root, c, d)
    requires OnlyAround(ns, ns', c, d, b, y) && b in ns
    requires y.Node? ==> y.off in ns' && ns'[y.off] == ns[y.off].(parent := py')
    requires c.Top? ==> root' == b
    requires !c.Top? ==> root' == root && c.off in ns && ns'[c.off] == (if c.InLeft? then ns[c.off].(left := b) else ns[c.off].(right := b))
    ensures Rep(ns', x, px) && Rep(ns', y, py') && Rep(ns', z, pz) && Around(ns', root', c, b)
    ensures Framed(ns, ns', c, {d, b} + Offs(x) + Offs(y) + Offs(z))
  {
    hide Rep, Around, ApartAround, Apart, Offs, ContextOffs;
    var s := {d, b} + Offs(x) + Offs(y) + Offs(z);
    OffsApart(c, s);
    RepOffs(ns, x, px);
    RepOffs(ns, y, py);
    RepOffs(ns, z, pz);
    OwnOff(c, y);
    RepSame(ns, ns', x, px);
    RepSame(ns, ns', z, pz);
    RepReparent(ns, ns', y, py, py');
    AroundRelink(ns, ns', root, root', c, s, d, b);
  }

  lemma {:induction false} PiecesRight(ns: Nodes, root: nat, c: Context, t: Tree)
    requires t.Node? && t.left.Node? && Open(ns, root, c, t.off, t.left, t.right)
    ensures Pieces(c, t.off, t.left.off, t.left.left, t.left.right, t.right)
    ensures Offs(t) == {t.off, t.left.off} + Offs(t.left.left) + Offs(t.left.right) + Offs(t.right)
  {
    assert Apart(t.left) && Offs(t.left) == {t.left.off} + Offs(t.left.left) + Offs(t.left.right);
    assert Offs(t) == {t.off, t.left.off} + Offs(t.left.left) + Offs(t.left.right) + Offs(t.right);
  }

  lemma {:induction false} PiecesLeft(ns: Nodes, root: nat, c: Context, t: Tree)
    requires t.Node? && t.right.Node? && Open(ns, root, c, t.off, t.left, t.right)
    ensures Pieces(c, t.off, t.right.off, t.left, t.right.left, t.right.right)
    ensures Offs(t) == {t.off, t.right.off} + Offs(t.left) + Offs(t.right.left) + Offs(t.right.right)
  {
    assert Apart(t.right) && Offs(t.right) == {t.right.off} + Offs(t.right.left) + Offs(t.right.right);
    assert Offs(t) == {t.off, t.right.off} + Offs(t.left) + Offs(t.right.left) + Offs(t.right.right);
  }

  /** The two nodes have their new links and heights. */
  ghost predicate IsRotatedRight(ns': Nodes, c: Context, t: Tree)
    requires t.Node? && t.left.Node?
  {
    var low := Node(t.off, t.left.right, t.right);
    && t.left.off in ns' && t.off in ns'
    && ns'[t.left.off] == AvlNode(Parent(c), Off(t.left.left), t.off, 1 + Max(Height(t.left.left), Height(low)))
    && ns'[t.off] == AvlNode(t.left.off, Off(t.left.right), Off(t.right), Height(low))
  }

  ghost predicate IsRotatedLeft(ns': Nodes, c: Context, t: Tree)
    requires t.Node? && t.right.Node?
  {
    var low := Node(t.off, t.left, t.right.left);
    && t.right.off in ns' && t.off in ns'
    && ns'[t.right.off] == AvlNode(Parent(c), t.off, Off(t.right.right), 1 + Max(Height(low), Height(t.right.right)))
    && ns'[t.off] == AvlNode(t.right.off, Off(t.left), Off(t.right.left), Height(low))
  }

  ghost predicate ContextGets(ns: Nodes, ns': Nodes, root: nat, root': nat, c: Context, b: nat) {
    && (c.Top? ==> root' == b)
    && (!c.Top? ==> && root' == root && c.off in ns && c.off in ns'
                    && ns'[c.off] == (if c.InLeft? then ns[c.off].(left := b) else ns[c.off].(right := b)))
  }

  ghost predicate Reparented(ns: Nodes, ns': Nodes, y: Tree, par: nat) {
    y.Node? ==> y.off in ns && y.off in ns' && ns'[y.off] == ns[y.off].(parent := par)
  }

  lemma {:induction false} RotatedRight(ns: Nodes, ns': Nodes, root: nat, root': nat, c: Context, t: Tree)
    requires t.Node? && t.left.Node? && Open(ns, root, c, t.off, t.left, t.right)
    requires OnlyAround(ns, ns', c, t.off, t.left.off, t.left.right) && IsRotatedRight(ns', c, t)
    requires Reparented(ns, ns', t.left.right, t.off) && ContextGets(ns, ns', root, root', c, t.left.off)
    ensures Closed(ns', root', c, RotateRight(t)) && Framed(ns, ns', c, Offs(t))
  {
    hide Around, ApartAround, Framed, OnlyAround;
    var d, b := t.off, t.left.off;
    PiecesRight(ns, root, c, t);
    RotateRightKeeps(t);
    RotatedPieces(ns, ns', root, root', c, d, b, t.left.left, b, t.left.right, b, d, t.right, d);
    var low := Node(d, t.left.right, t.right);
    assert Rep(ns', low, b) && Apart(low) && Offs(low) == {d} + Offs(t.left.right) + Offs(t.right);
  }

  lemma {:induction false} RotatedLeft(ns: Nodes, ns': Nodes, root: nat, root': nat, c: Context, t: Tree)
    requires t.Node? && t.right.Node? && Open(ns, root, c, t.off, t.left, t.right)
    requires OnlyAround(ns, ns', c, t.off, t.right.off, t.right.left) && IsRotatedLeft(ns', c, t)
    requires Reparented(ns, ns', t.right.left, t.off) && ContextGets(ns, ns', root, root', c, t.right.off)
    ensures Closed(ns', root', c, RotateLeft(t)) && Framed(ns, ns', c, Offs(t))
  {
    hide Around, ApartAround, Framed, OnlyAround;
    var b, d := t.off, t.right.off;
    PiecesLeft(ns, root, c, t);
    RotateLeftKeeps(t);
    RotatedPieces(ns, ns', root, root', c, b, d, t.left, b, t.right.left, d, b, t.right.right, d);
    var low := Node(b, t.left, t.right.left);
    assert Rep(ns', low, d) && Apart(low) && Offs(low) == {b} + Offs(t.left) + Offs(t.right.left);
  }

  // ---- a subtree of a whole tree, and the node above a subtree

  /** Every subtree of a represented tree is in its context. */
  lemma {:induction false} Focus(ns: Nodes, root: nat, c: Context, t: Tree)
    requires Closed(ns, root, Top, Plug(c, t))
    ensures Closed(ns, root, c, t)
  {
    match c
    case Top =>
    case InLeft(o, r, up) =>
      Focus(ns, root, up, Node(o, t, r));
      CloseBelow(ns, root, up, o, t, r);
    case InRight(o, l, up) =>
      Focus(ns, root, up, Node(o, l, t));
      CloseBelow(ns, root, up, o, l, t);
  }

  /** Every node is the root of a subtree. */
  ghost function Locate(t: Tree, x: nat): (r: (Context, Tree))
    requires x in Offs(t)
    ensures Plug(r.0, r.1) == t && r.1.Node? && r.1.off == x
  {
    LocateIn(Top, t, x)
  }

  ghost function LocateIn(c: Context, t: Tree, x: nat): (r: (Context, Tree))
    requires x in Offs(t)
    ensures Plug(r.0, r.1) == Plug(c, t) && r.1.Node? && r.1.off == x
    decreases t
  {
    if t.off == x then (c, t)
    else if x in Offs(t.left) then LocateIn(InLeft(t.off, t.right, c), t.left, x)
    else LocateIn(InRight(t.off, t.left, c), t.right, x)
  }
}
