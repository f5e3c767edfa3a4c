/**
  Balanced trees as values: shapes, in-order contents, heights and rotations, and
  contexts that say what is around a subtree.
*/
module Avl {
  /** The shape of a tree; a node is known by its offset. */
  datatype Tree = Leaf | Node(off: nat, left: Tree, right: Tree)

  /** What is around a subtree: it is the whole tree, or a child of a node with a sibling. */
  datatype Context =
    | Top
    | InLeft(off: nat, right: Tree, up: Context)
    | InRight(off: nat, left: Tree, up: Context)

  function Max(a: nat, b: nat): nat {
    if a < b then b else a
  }

  function Off(t: Tree): nat {
    if t.Leaf? then 0 else t.off
  }

  function Parent(c: Context): nat {
    if c.Top? then 0 else c.off
  }

  ghost function Offs(t: Tree): set<nat> {
    match t
    case Leaf => {}
    case Node(o, l, r) => {o} + Offs(l) + Offs(r)
  }

  ghost function ContextOffs(c: Context): set<nat> {
    match c
    case Top => {}
    case InLeft(o, t, up) => {o} + Offs(t) + ContextOffs(up)
    case InRight(o, t, up) => {o} + Offs(t) + ContextOffs(up)
  }

  function InOrder(t: Tree): seq<nat> {
    match t
    case Leaf => []
    case Node(o, l, r) => InOrder(l) + [o] + InOrder(r)
  }

  /** What comes before and after a subtree in the whole tree. */
  function Before(c: Context): seq<nat> {
    match c
    case Top => []
    case InLeft(_, _, up) => Before(up)
    case InRight(o, l, up) => Before(up) + InOrder(l) + [o]
  }

  function After(c: Context): seq<nat> {
    match c
    case Top => []
    case InLeft(o, r, up) => [o] + InOrder(r) + After(up)
    case InRight(_, _, up) => After(up)
  }

  function Plug(c: Context, t: Tree): Tree {
    match c
    case Top => t
    case InLeft(o, r, up) => Plug(up, Node(o, t, r))
    case InRight(o, l, up) => Plug(up, Node(o, l, t))
  }

  lemma {:induction false} PlugInOrder(c: Context, t: Tree)
    ensures InOrder(Plug(c, t)) == Before(c) + InOrder(t) + After(c)
  {
    match c
    case Top =>
    case InLeft(o, r, up) => PlugInOrder(up, Node(o, t, r));
    case InRight(o, l, up) => PlugInOrder(up, Node(o, l, t));
  }

  lemma {:induction false} PlugOffs(c: Context, t: Tree)
    ensures Offs(Plug(c, t)) == Offs(t) + ContextOffs(c)
  {
    match c
    case Top =>
    case InLeft(o, r, up) => PlugOffs(up, Node(o, t, r));
    case InRight(o, l, up) => PlugOffs(up, Node(o, l, t));
  }

  function Height(t: Tree): nat {
    match t
    case Leaf => 0
    case Node(_, l, r) => 1 + Max(Height(l), Height(r))
  }

  predicate Balanced(t: Tree) {
    match t
    case Leaf => true
    case Node(_, l, r) => Balanced(l) && Balanced(r) && -1 <= Height(r) - Height(l) <= 1
  }

  /** A context is balanced around a subtree of the given height. */
  predicate BalancedAround(c: Context, h: nat) {
    match c
    case Top => true
    case InLeft(_, t, up) => Balanced(t) && -1 <= Height(t) - h <= 1 && BalancedAround(up, 1 + Max(h, Height(t)))
    case InRight(_, t, up) => Balanced(t) && -1 <= Height(t) - h <= 1 && BalancedAround(up, 1 + Max(h, Height(t)))
  }

  lemma {:induction false} PlugBalanced(c: Context, t: Tree)
    ensures Balanced(Plug(c, t)) <==> Balanced(t) && BalancedAround(c, Height(t))
  {
    match c
    case Top =>
    case InLeft(o, r, up) =>
      PlugBalanced(up, Node(o, t, r));
      assert Height(Node(o, t, r)) == 1 + Max(Height(t), Height(r));
      hide Height, Plug;
    case InRight(o, l, up) =>
      PlugBalanced(up, Node(o, l, t));
      assert Height(Node(o, l, t)) == 1 + Max(Height(t), Height(l));
      hide Height, Plug;
  }

  // ---- rotations

  function RotateRight(t: Tree): Tree
    requires t.Node? && t.left.Node?
  {
    Node(t.left.off, t.left.left, Node(t.off, t.left.right, t.right))
  }

  function RotateLeft(t: Tree): Tree
    requires t.Node? && t.right.Node?
  {
    Node(t.right.off, Node(t.off, t.left, t.right.left), t.right.right)
  }

  function Balance(t: Tree): int {
    if t.Leaf? then 0 else Height(t.right) - Height(t.left)
  }

  /** The rotations that follow when a node is found out of balance. */
  function Rebalanced(t: Tree): Tree {
    var bal := Balance(t);
    if -1 <= bal <= 1 then
      t
    else if bal > 0 then
      var right := if Balance(t.right) < 0 then RotateRight(t.right) else t.right;
      RotateLeft(t.(right := right))
    else
      var left := if Balance(t.left) > 0 then RotateLeft(t.left) else t.left;
      RotateRight(t.(left := left))
  }

  /** Rotations keep the nodes and their order. */
  lemma {:induction false} RebalancedKeeps(t: Tree)
    ensures InOrder(Rebalanced(t)) == InOrder(t) && Offs(Rebalanced(t)) == Offs(t)
  {
    if t.Node? && t.right.Node? { RotateLeftKeeps(t); }
    if t.Node? && t.left.Node? { RotateRightKeeps(t); }
    var bal := Balance(t);
    if bal > 1 && Balance(t.right) < 0 {
      RotateRightKeeps(t.right);
      RotateLeftKeeps(t.(right := RotateRight(t.right)));
    } else if bal < -1 && Balance(t.left) > 0 {
      RotateLeftKeeps(t.left);
      RotateRightKeeps(t.(left := RotateLeft(t.left)));
    }
  }

  lemma {:induction false} RotateRightKeeps(t: Tree)
    requires t.Node? && t.left.Node?
    ensures InOrder(RotateRight(t)) == InOrder(t) && Offs(RotateRight(t)) == Offs(t)
  {
  }

  lemma {:induction false} RotateLeftKeeps(t: Tree)
    requires t.Node? && t.right.Node?
    ensures InOrder(RotateLeft(t)) == InOrder(t) && Offs(RotateLeft(t)) == Offs(t)
  {
  }

  lemma {:induction false} RightHeavy(o: nat, l: Tree, r: Tree)
    requires Balanced(l) && Balanced(r) && Height(r) == Height(l) + 2
    ensures var t := Rebalanced(Node(o, l, r)); Balanced(t) && Height(r) <= Height(t) <= Height(r) + 1
  {
    if Balance(r) < 0 { assert r.left.Node?; }
  }

  lemma {:induction false} LeftHeavy(o: nat, l: Tree, r: Tree)
    requires Balanced(l) && Balanced(r) && Height(l) == Height(r) + 2
    ensures var t := Rebalanced(Node(o, l, r)); Balanced(t) && Height(l) <= Height(t) <= Height(l) + 1
  {
    if Balance(l) > 0 { assert l.right.Node?; }
  }

  /** When one child grew or shrank by one the node is balanced again, and its own height is off by at most one. */
  lemma {:induction false} RebalancedIs(o: nat, l: Tree, r: Tree, hl: nat, hr: nat)
    requires Balanced(l) && Balanced(r) && -1 <= hr - hl <= 1
    requires (hl == Height(l) && -1 <= Height(r) - hr <= 1) || (hr == Height(r) && -1 <= Height(l) - hl <= 1)
    ensures var t := Rebalanced(Node(o, l, r)); Balanced(t) && -1 <= Height(t) - (1 + Max(hl, hr)) <= 1
  {
    if Height(r) == Height(l) + 2 {
      RightHeavy(o, l, r);
    } else if Height(l) == Height(r) + 2 {
      LeftHeavy(o, l, r);
    } else {
      assert Rebalanced(Node(o, l, r)) == Node(o, l, r);
    }
    hide Rebalanced, Balanced;
  }

  // ---- how high a balanced tree can be

  function Size(t: Tree): nat {
    match t
    case Leaf => 0
    case Node(_, l, r) => 1 + Size(l) + Size(r)
  }

  /** The fewest nodes of a balanced tree of a given height: these are Fibonacci numbers less one. */
  function Fewest(h: nat): nat {
    if h < 2 then h else 1 + Fewest(h - 1) + Fewest(h - 2)
  }

  function Fib(n: nat): nat {
    if n < 2 then n else Fib(n - 1) + Fib(n - 2)
  }

  lemma {:induction false} FewestIsFib(h: nat)
    ensures Fewest(h) + 1 == Fib(h + 2)
  {
    if h >= 2 {
      FewestIsFib(h - 1);
      FewestIsFib(h - 2);
    }
  }

  lemma {:induction false} FewestGrows(a: nat, b: nat)
    requires a <= b
    ensures Fewest(a) <= Fewest(b)
    decreases b
  {
    if a < b { FewestGrows(a, b - 1); }
  }

  lemma {:induction false} HeightNeedsNodes(t: Tree)
    requires Balanced(t)
    ensures Fib(Height(t) + 2) <= Size(t) + 1 && Fewest(Height(t)) <= Size(t)
  {
    FewestIsFib(Height(t));
    if t.Node? {
      HeightNeedsNodes(t.left);
      HeightNeedsNodes(t.right);
      if Height(t) >= 2 {
        FewestGrows(Height(t) - 2, Height(t.left));
        FewestGrows(Height(t) - 2, Height(t.right));
      }
    }
  }

  lemma {:induction false} SizeIsContents(t: Tree)
    ensures |InOrder(t)| == Size(t)
  {
    if t.Node? {
      SizeIsContents(t.left);
      SizeIsContents(t.right);
    }
  }

  /** A block holds at most 1723 items of 38 bytes, so the height of their tree fits in a byte. */
  lemma {:induction false} HeightFits(t: Tree)
    requires Balanced(t) && |InOrder(t)| <= (65536 - 45) / 38
    ensures Height(t) <= 15 < 256
  {
    SizeIsContents(t);
    HeightNeedsNodes(t);
    assert Fewest(16) == 2583;
    if Height(t) > 15 { FewestGrows(16, Height(t)); }
  }
}
