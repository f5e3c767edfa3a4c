/**
  Items move from the end of one leaf to the near end of its neighbour, as leaves
  are split and joined. Both are blocks with their item arrays, hash tables, trees
  and values, and each item that moves is created in one and deleted in the other.
*/
module LeafMove {
  import opened Avl
  import opened AvlRename
  import opened AvlProofs
  import opened LeafValues
  import opened LeafArea
  import opened LeafItems
  import opened LeafBlock
  import LeafHash
  import BTree

  // ---- the keys of a leaf in order

  function KeysOf(order: seq<nat>, keys: seq<nat>): (ks: seq<nat>)
    ensures |ks| == |order|
  {
    seq(|order|, i requires 0 <= i < |order| => KeyAt(keys, order[i]))
  }

  ghost predicate Rising(s: seq<nat>) {
    forall i, j :: 0 <= i < j < |s| ==> s[i] < s[j]
  }

  lemma {:induction false} KeysOfIs(order: seq<nat>, keys: seq<nat>)
    requires Sorted(order, keys)
    ensures Rising(KeysOf(order, keys)) && forall k :: k in KeysOf(order, keys) <==> k in keys
  {
    hide KeyAt, IsItem;
    var ks := KeysOf(order, keys);
    forall i | 0 <= i < |order| ensures ks[i] in keys {
      assert order[i] in order;
      ItemInKeys(keys, order[i]);
    }
    forall i: nat | i < |keys| ensures keys[i] in ks {
      ItemIs(|keys|, i);
      KeyAtItem(keys, i);
      var j :| 0 <= j < |order| && order[j] == ItemOff(i);
      assert ks[j] == keys[i];
    }
  }

  /** A set of keys has one order. */
  lemma {:induction false} RisingSame(s: seq<nat>, t: seq<nat>)
    requires Rising(s) && Rising(t) && forall x :: x in s <==> x in t
    ensures s == t
  {
    assert s != [] ==> s[|s| - 1] in t;
    assert t != [] ==> t[0] in s;
    if s != [] {
      SameLast(s, t);
      RisingWithout(s, true);
      RisingWithout(t, true);
      RisingSame(Without(s, true), Without(t, true));
      assert s == Without(s, true) + [s[|s| - 1]] && t == Without(t, true) + [t[|t| - 1]];
    }
  }

  lemma {:induction false} SameLast(s: seq<nat>, t: seq<nat>)
    requires Rising(s) && Rising(t) && s != [] && t != [] && forall x :: x in s <==> x in t
    ensures s[|s| - 1] == t[|t| - 1]
  {
    assert s[|s| - 1] in t && t[|t| - 1] in s;
  }

  // ---- either end of a sequence

  function Side(s: seq<nat>, last: bool): nat {
    if last then LastOf(s) else FirstOf(s)
  }

  function Without(s: seq<nat>, last: bool): seq<nat>
    requires s != []
  {
    if last then s[..|s| - 1] else s[1..]
  }

  function With(s: seq<nat>, x: nat, last: bool): seq<nat> {
    if last then s + [x] else [x] + s
  }

  /** Every key of the source is below those of the destination, or above them. */
  ghost predicate Beside(src: seq<nat>, dst: seq<nat>, right: bool) {
    forall a, b :: a in src && b in dst ==> if right then a < b else b < a
  }

  ghost function InKeyOrder(l: Leaf): seq<nat>
    reads l, l.avl
  {
    KeysOf(InOrder(l.avl.tree), l.keys)
  }

  lemma {:induction false} RisingWithout(s: seq<nat>, last: bool)
    requires Rising(s) && s != []
    ensures Rising(Without(s, last)) && forall x :: x in Without(s, last) <==> x in s && x != Side(s, last)
  {
    var t := Without(s, last);
    forall x ensures x in t <==> x in s && x != Side(s, last) {
      if x in s && x != Side(s, last) {
        var i :| 0 <= i < |s| && s[i] == x;
        assert t[if last then i else i - 1] == x;
      }
    }
  }

  lemma {:induction false} RisingWith(s: seq<nat>, x: nat, last: bool)
    requires Rising(s) && forall y :: y in s ==> if last then y < x else x < y
    ensures Rising(With(s, x, last)) && forall y :: y in With(s, x, last) <==> y in s || y == x
  {
    var t := With(s, x, last);
    forall i, j | 0 <= i < j < |t| ensures t[i] < t[j] {
      var d := if last then 0 else 1;
      if last && j == |s| {
        assert s[i] in s;
      } else if !last && i == 0 {
        assert s[j - 1] in s;
      } else {
        assert t[i] == s[i - d] && t[j] == s[j - d];
      }
    }
  }

  lemma {:induction false} OrderDiffers(order: seq<nat>, keys: seq<nat>, i: nat, j: nat)
    requires Sorted(order, keys) && i < |order| && j < |order| && order[i] == order[j]
    ensures i == j
  {
    if i != j { IncreasingAt(order, keys, i, j); }
  }

  // ---- the hole at either end of a tree

  function Hole(t: Tree, last: bool, c: Context): Context {
    if t.Leaf? then c
    else if last then Hole(t.right, last, InRight(t.off, t.left, c))
    else Hole(t.left, last, InLeft(t.off, t.right, c))
  }

  ghost predicate IsHole(t: Tree, last: bool, c: Context, h: Context) {
    && Plug(h, Tree.Leaf) == Plug(c, t)
    && Before(h) == (if last then Before(c) + InOrder(t) else Before(c))
    && After(h) == (if last then After(c) else InOrder(t) + After(c))
    && (t.Node? ==> Parent(h) == Side(InOrder(t), last) && !h.Top? && h.InLeft? == !last)
    && (t.Leaf? ==> h == c)
  }

  lemma {:induction false} HoleIs(t: Tree, last: bool, c: Context)
    ensures IsHole(t, last, c, Hole(t, last, c))
  {
    if t.Node? {
      if last {
        HoleIs(t.right, last, InRight(t.off, t.left, c));
        HoleOnRight(t, c, Hole(t.right, last, InRight(t.off, t.left, c)));
      } else {
        HoleIs(t.left, last, InLeft(t.off, t.right, c));
        HoleOnLeft(t, c, Hole(t.left, last, InLeft(t.off, t.right, c)));
      }
      hide IsHole;
    }
  }

  /** What is around the children of a node. */
  lemma {:induction false} ChildContexts(t: Tree, c: Context)
    requires t.Node?
    ensures var l, r := InLeft(t.off, t.right, c), InRight(t.off, t.left, c);
            && Plug(l, t.left) == Plug(c, t) && Before(l) == Before(c) && After(l) == [t.off] + InOrder(t.right) + After(c)
            && Plug(r, t.right) == Plug(c, t) && After(r) == After(c) && Before(r) == Before(c) + InOrder(t.left) + [t.off]
    ensures InOrder(t) == InOrder(t.left) + [t.off] + InOrder(t.right)
  {
    assert t == Node(t.off, t.left, t.right);
  }

  lemma {:induction false} HoleOnRight(t: Tree, c: Context, h: Context)
    requires t.Node? && IsHole(t.right, true, InRight(t.off, t.left, c), h)
    ensures IsHole(t, true, c, h)
  {
    FirstIsLeft(t);
    ChildContexts(t, c);
    hide Side, Plug, Before, After, InOrder;
    SidesAre(InOrder(t));
    SidesAre(InOrder(t.right));
    assert Before(InRight(t.off, t.left, c)) + InOrder(t.right) == Before(c) + InOrder(t);
  }

  lemma {:induction false} HoleOnLeft(t: Tree, c: Context, h: Context)
    requires t.Node? && IsHole(t.left, false, InLeft(t.off, t.right, c), h)
    ensures IsHole(t, false, c, h)
  {
    FirstIsLeft(t);
    ChildContexts(t, c);
    hide Side, Plug, Before, After, InOrder;
    SidesAre(InOrder(t));
    SidesAre(InOrder(t.left));
    assert InOrder(t.left) + After(InLeft(t.off, t.right, c)) == InOrder(t) + After(c);
  }

  lemma SidesAre(s: seq<nat>)
    ensures Side(s, true) == LastOf(s) && Side(s, false) == FirstOf(s)
  {
  }

  // ---- one item

  ghost predicate Apart(a: Leaf, b: Leaf) {
    && a != b && a.area != b.area && a.avl != b.avl
    && {a.area.mem, a.buckets} !! {b.area.mem, b.buckets}
  }

  lemma ApartIs(a: Leaf, b: Leaf)
    requires Apart(a, b)
    ensures a != b && a.area != b.area && a.avl != b.avl
    ensures a.area.mem != b.area.mem && a.area.mem != b.buckets && a.buckets != b.area.mem && a.buckets != b.buckets
  {
  }

  lemma {:induction false} LeafOrder(l: Leaf)
    requires l.Valid()
    ensures Rising(InKeyOrder(l)) && (forall k :: k in InKeyOrder(l) <==> k in l.keys)
    ensures forall k :: k in l.Contents() <==> k in InKeyOrder(l)
  {
    hide KeysOf, Hashed, Sorted, MapOf, Rising, InOrder;
    KeysOfIs(InOrder(l.avl.tree), l.keys);
    l.KeysInContents();
  }

  lemma {:induction false} SideItem(order: seq<nat>, keys: seq<nat>, last: bool) returns (k: nat)
    requires Sorted(order, keys) && order != []
    ensures k < |keys| && Side(order, last) == ItemOff(k) && keys[k] == Side(KeysOf(order, keys), last)
    ensures Side(order, last) in order && k == IndexOf(Side(order, last))
  {
    hide Increasing;
    var x := Side(order, last);
    assert x in order && IsItem(|keys|, x);
    k :| k < |keys| && x == ItemOff(k);
    KeyAtItem(keys, k);
  }

  lemma {:induction false} StepIs(order: seq<nat>, keys: seq<nat>, right: bool, next: nat)
    requires Sorted(order, keys) && order != []
    requires if right then Precedes(order, next, Side(order, right)) else Follows(order, Side(order, right), next)
    ensures next == Side(Without(order, right), right)
  {
    hide Sorted;
    var x := Side(order, right);
    if right {
      var i :| 0 <= i < |order| && order[i] == x && next == LastOf(order[..i]);
      OrderDiffers(order, keys, i, |order| - 1);
    } else {
      var i :| 0 <= i < |order| && order[i] == x && next == FirstOf(order[i + 1..]);
      OrderDiffers(order, keys, i, 0);
    }
  }

  /** The key and the value of the item at an end, and the item that is next to it. */
  method ReadItem(src: Leaf, right: bool, from: nat) returns (k: nat, val: seq<nat>, next: nat)
    requires src.Valid() && InKeyOrder(src) != [] && from == Side(InOrder(src.avl.tree), right)
    ensures k < |src.keys| && from == ItemOff(k) && src.keys[k] == Side(InKeyOrder(src), right)
    ensures val == src.area.Values()[k] && src.keys[k] in src.Contents() && val == src.Contents()[src.keys[k]]
    ensures next == Side(Without(InOrder(src.avl.tree), right), right)
  {
    hide *;
    ghost var order := InOrder(src.avl.tree);
    LeafSorted(src);
    ghost var at := SideItem(order, src.keys, right);
    k := IndexOf(from);
    val := LeafValues.Bytes(src.area.mem[..], src.area.vals[k]);
    ValueIs(src, k);
    OrderIsOffs(src.avl.tree);
    if right { next := src.avl.Prev(from); } else { next := src.avl.Next(from); }
    StepIs(order, src.keys, right, next);
  }

  lemma {:induction false} ValueIs(l: Leaf, k: nat)
    requires l.Valid() && k < |l.keys|
    ensures |l.area.vals| == |l.area.Values()| == |l.keys|
    ensures LeafValues.Bytes(l.area.mem[..], l.area.vals[k]) == l.area.Values()[k]
    ensures |l.area.Values()[k]| == l.area.vals[k].len
    ensures l.keys[k] in l.Contents() && l.Contents()[l.keys[k]] == l.area.Values()[k]
  {
    hide Hashed, Sorted, MapOf, Balanced, Heap, LastFree, InOrder, NoRepeats, LeafValues.Bytes;
    SortedNoRepeats(InOrder(l.avl.tree), l.keys);
    MapOfAt(l.keys, l.area.Values());
    ValueLen(l.area.mem[..], l.area.vals, l.area.tiles, l.area.MidEnd(), l.area.end, k);
  }

  /** An item with a key beyond the others is linked at that end of the tree. */
  method AddItem(dst: Leaf, right: bool, par: nat, key: nat, val: seq<nat>) returns (end: nat)
    requires dst.Valid() && par == Side(InOrder(dst.avl.tree), !right) && dst.area.midLen >= ItemLenBytes(|val|)
    requires forall k :: k in InKeyOrder(dst) ==> if right then key < k else k < key
    modifies dst, dst.area, dst.area.mem, dst.avl, dst.buckets
    ensures dst.Valid() && InKeyOrder(dst) == With(old(InKeyOrder(dst)), key, !right)
    ensures key !in old(dst.Contents()) && dst.Contents() == old(dst.Contents())[key := val]
    ensures end == Side(InOrder(dst.avl.tree), !right)
    ensures dst.area.midLen == old(dst.area.midLen) - ItemLenBytes(|val|)
    ensures dst.area.total == old(dst.area.total) + ItemLenBytes(|val|)
  {
    hide *;
    ghost var c, order, ks := Hole(dst.avl.tree, !right, Top), InOrder(dst.avl.tree), InKeyOrder(dst);
    LeafOrder(dst);
    LeafSorted(dst);
    HoleHolds(dst.avl.tree, dst.keys, right, key);
    var cmp := if right then -1 else 1;
    dst.CreateItem(key, val, par, cmp, c);
    AddedOrder(dst, ks, key, right);
    WithIs(order, ItemOff(|old(dst.keys)|), right, Before(c), After(c));
    end := NewEnd(dst, right, par, order, ItemOff(|old(dst.keys)|));
  }

  lemma LeafSorted(l: Leaf)
    requires l.Valid()
    ensures InKeyOrder(l) == KeysOf(InOrder(l.avl.tree), l.keys) && Sorted(InOrder(l.avl.tree), l.keys) && l.avl.Valid()
    ensures |l.keys| == |l.area.vals|
  {
  }

  lemma {:induction false} AddedOrder(l: Leaf, ks: seq<nat>, key: nat, right: bool)
    requires l.Valid() && Rising(ks) && (forall k :: k in l.keys <==> k in ks || k == key)
    requires forall k :: k in ks ==> if right then key < k else k < key
    ensures InKeyOrder(l) == With(ks, key, !right)
  {
    hide *;
    LeafOrder(l);
    RisingWith(ks, key, !right);
    RisingSame(InKeyOrder(l), With(ks, key, !right));
  }

  /** The node before the first or after the last, once there is one. */
  method NewEnd(dst: Leaf, right: bool, par: nat, ghost order: seq<nat>, ghost x: nat) returns (end: nat)
    requires dst.Valid() && par == Side(order, !right)
    requires InOrder(dst.avl.tree) == With(order, x, !right)
    ensures end == Side(InOrder(dst.avl.tree), !right)
  {
    hide *;
    LeafSorted(dst);
    EndsAre(InOrder(dst.avl.tree), dst.keys, order, x, right);
    OrderIsOffs(dst.avl.tree);
    if par != 0 {
      if right { end := dst.avl.Prev(par); } else { end := dst.avl.Next(par); }
      SecondIs(InOrder(dst.avl.tree), dst.keys, order, x, right, end);
    } else {
      if right { end := dst.avl.First(); } else { end := dst.avl.Last(); }
      SidesAre(InOrder(dst.avl.tree));
    }
  }

  lemma {:induction false} EndsAre(s: seq<nat>, keys: seq<nat>, order: seq<nat>, x: nat, right: bool)
    requires Sorted(s, keys) && s == With(order, x, !right)
    ensures Side(order, !right) != 0 ==> Side(order, !right) in s && order != []
  {
    if order != [] { assert order[0] in order && order[|order| - 1] in order; }
  }

  lemma {:induction false} SecondIs(s: seq<nat>, keys: seq<nat>, order: seq<nat>, x: nat, right: bool, end: nat)
    requires Sorted(s, keys) && s == With(order, x, !right) && order != []
    requires if right then Precedes(s, end, Side(order, !right)) else Follows(s, Side(order, !right), end)
    ensures end == Side(s, !right)
  {
    hide Sorted;
    var p := Side(order, !right);
    if right {
      var i :| 0 <= i < |s| && s[i] == p && end == LastOf(s[..i]);
      OrderDiffers(s, keys, i, 1);
    } else {
      var i :| 0 <= i < |s| && s[i] == p && end == FirstOf(s[i + 1..]);
      OrderDiffers(s, keys, i, |s| - 2);
    }
  }

  lemma {:induction false} HoleHolds(tree: Tree, keys: seq<nat>, right: bool, key: nat)
    requires Sorted(InOrder(tree), keys)
    requires forall k :: k in KeysOf(InOrder(tree), keys) ==> if right then key < k else k < key
    ensures var c, order, par, cmp := Hole(tree, !right, Top), InOrder(tree), Side(InOrder(tree), !right), if right then -1 else 1;
            && tree == Plug(c, Tree.Leaf) && par == Parent(c) && (c.Top? || (cmp < 0 <==> c.InLeft?))
            && AllAbove(Compare(keys, key), Before(c)) && AllBelow(Compare(keys, key), After(c))
            && (right ==> Before(c) == [] && After(c) == order) && (!right ==> Before(c) == order && After(c) == [])
  {
    hide Sorted, Plug, InOrder, KeyAt;
    var order, ks := InOrder(tree), KeysOf(InOrder(tree), keys);
    HoleIs(tree, !right, Top);
    NoOrder'(tree);
    forall i | 0 <= i < |order| ensures if right then key < KeyAt(keys, order[i]) else KeyAt(keys, order[i]) < key {
      assert ks[i] in ks;
    }
  }

  lemma NoOrder'(tree: Tree)
    ensures tree.Leaf? ==> InOrder(tree) == []
    ensures Plug(Top, tree) == tree
  {
  }

  lemma WithIs(order: seq<nat>, x: nat, right: bool, a: seq<nat>, b: seq<nat>)
    requires (right ==> a == [] && b == order) && (!right ==> a == order && b == [])
    ensures a + [x] + b == With(order, x, !right)
  {
  }

  /** The item at an end is deleted; the one next to it may take its place in the item array. */
  method RemoveItem(src: Leaf, right: bool, k: nat, next: nat) returns (end: nat)
    requires src.Valid() && InKeyOrder(src) != [] && k < |src.keys| && ItemOff(k) == Side(InOrder(src.avl.tree), right)
    requires src.keys[k] == Side(InKeyOrder(src), right) && next == Side(Without(InOrder(src.avl.tree), right), right)
    modifies src, src.area, src.area.mem, src.avl, src.buckets
    ensures src.Valid() && InKeyOrder(src) == Without(old(InKeyOrder(src)), right)
    ensures src.Contents() == old(src.Contents()) - {old(src.keys)[k]}
    ensures end == Side(InOrder(src.avl.tree), right)
    ensures src.area.total == old(src.area.total) - ItemLenBytes(|old(src.area.Values())[k]|)
  {
    hide *;
    ghost var order, keys, ks := InOrder(src.avl.tree), src.keys, InKeyOrder(src);
    LeafSorted(src);
    LeafOrder(src);
    NextItem(order, keys, right, k);
    end := src.DeleteItem(k, next);
    SortedNoRepeats(order, keys);
    SwapRemoveNoRepeats(keys, k);
    RemovedOrder(src, ks, keys[k], right);
    LeafSorted(src);
    EndFound(InOrder(src.avl.tree), src.keys, ks, right, end);
  }

  /** What is next to an end is an item, with the key that comes next, or there is nothing. */
  lemma {:induction false} NextItem(order: seq<nat>, keys: seq<nat>, right: bool, k: nat)
    requires Sorted(order, keys) && order != [] && k < |keys| && ItemOff(k) == Side(order, right)
    ensures var next, ks := Side(Without(order, right), right), KeysOf(order, keys);
            && ks != []
            && (|ks| == 1 ==> next == 0)
            && (|ks| > 1 ==> IsItem(|keys|, next) && next != ItemOff(k) && KeyAt(keys, next) == Side(Without(ks, right), right))
  {
    hide Sorted, KeyAt, IsItem;
    var i := if right then |order| - 2 else 1;
    if |order| > 1 {
      assert order[i] in order;
      SortedHas(order, keys, i);
      assert Side(Without(order, right), right) == order[i];
      if order[i] == ItemOff(k) { OrderDiffers(order, keys, i, if right then |order| - 1 else 0); }
    }
  }

  lemma SortedHas(order: seq<nat>, keys: seq<nat>, i: nat)
    requires Sorted(order, keys) && i < |order|
    ensures IsItem(|keys|, order[i])
  {
    assert order[i] in order;
  }

  lemma {:induction false} RemovedOrder(l: Leaf, ks: seq<nat>, key: nat, right: bool)
    requires l.Valid() && Rising(ks) && ks != [] && key == Side(ks, right)
    requires forall k :: k in l.keys <==> k in ks && k != key
    ensures InKeyOrder(l) == Without(ks, right)
  {
    hide *;
    LeafOrder(l);
    RisingWithout(ks, right);
    RisingSame(InKeyOrder(l), Without(ks, right));
  }

  /** The item that was followed is at the end now. */
  lemma {:induction false} EndFound(order: seq<nat>, keys: seq<nat>, ks: seq<nat>, right: bool, end: nat)
    requires Sorted(order, keys) && ks != [] && KeysOf(order, keys) == Without(ks, right)
    requires |ks| == 1 ==> end == 0
    requires |ks| > 1 ==> IsItem(|keys|, end) && KeyAt(keys, end) == Side(Without(ks, right), right)
    ensures end == Side(order, right)
  {
    hide Sorted, KeyAt, IsItem;
    if |ks| > 1 {
      var i := if right then |order| - 1 else 0;
      SortedHas(order, keys, i);
      assert KeysOf(order, keys)[i] == KeyAt(keys, order[i]);
      SortedNoRepeats(order, keys);
      SameItem(keys, end, order[i]);
    }
  }

  lemma {:induction false} SameItem(keys: seq<nat>, x: nat, y: nat)
    requires NoRepeats(keys) && IsItem(|keys|, x) && IsItem(|keys|, y) && KeyAt(keys, x) == KeyAt(keys, y)
    ensures x == y
  {
    hide KeyAt;
    var i: nat, j: nat :| i < |keys| && j < |keys| && x == ItemOff(i) && y == ItemOff(j);
    KeyAtItem(keys, i);
    KeyAtItem(keys, j);
  }

  // ---- moving

  function SizeOf(m: map<nat, seq<nat>>, k: nat): nat {
    if k in m then ItemLenBytes(|m[k]|) else 0
  }

  /** The bytes of the items that move: whole items, until there are enough. */
  function MovedBytes(ks: seq<nat>, m: map<nat, seq<nat>>, right: bool, toMove: int): nat
    decreases |ks|
  {
    if toMove <= 0 || ks == [] then 0
    else
      var size := SizeOf(m, Side(ks, right));
      size + MovedBytes(Without(ks, right), m, right, toMove - size)
  }

  /** Some items left the end of the source, and are in the same order at the near end of the destination. */
  ghost predicate IsMoved(src: seq<nat>, dst: seq<nat>, src': seq<nat>, dst': seq<nat>, right: bool, n: nat) {
    && n <= |src|
    && (right ==> src' == src[..|src| - n] && dst' == src[|src| - n..] + dst)
    && (!right ==> src' == src[n..] && dst' == dst + src[..n])
  }

  datatype View = View(src: seq<nat>, dst: seq<nat>, from: map<nat, seq<nat>>, to: map<nat, seq<nat>>)

  ghost function Seen(src: Leaf, dst: Leaf): View
    reads src, src.area, src.area.mem, src.avl, src.buckets, dst, dst.area, dst.area.mem, dst.avl, dst.buckets
    requires src.Valid() && dst.Valid()
  {
    View(InKeyOrder(src), InKeyOrder(dst), src.Contents(), dst.Contents())
  }

  /** What holds of two leaves while `moved` bytes have moved from one to the other. */
  ghost predicate Moving(v: View, w: View, right: bool, toMove: int, moved: nat, n: nat) {
    && IsMoved(v.src, v.dst, w.src, w.dst, right, n) && w.to + w.from == v.to + v.from
    && (forall k :: k in w.from ==> k in v.from && w.from[k] == v.from[k])
    && moved + MovedBytes(w.src, v.from, right, toMove - moved) == MovedBytes(v.src, v.from, right, toMove)
    && (n > 0 ==> moved - SizeOf(w.to, Side(w.dst, !right)) < toMove)
  }

  /** The keys of a view are those of its leaves, and one leaf is beside the other. */
  ghost predicate Neighbours(v: View, right: bool) {
    && Rising(v.src) && Rising(v.dst) && Beside(v.src, v.dst, right)
    && (forall k :: k in v.from <==> k in v.src) && (forall k :: k in v.to <==> k in v.dst)
  }

  lemma {:induction false} MoveStep(v: View, w: View, u: View, right: bool, toMove: int, moved: nat, n: nat)
    requires Moving(v, w, right, toMove, moved, n) && Neighbours(w, right) && OneMoved(w, u, right) && moved < toMove
    ensures |u.src| < |w.src|
    ensures Moving(v, u, right, toMove, moved + SizeOf(w.from, Side(w.src, right)), n + 1)
    ensures moved + SizeOf(w.from, Side(w.src, right)) <= MovedBytes(v.src, v.from, right, toMove)
  {
    hide Rising, Side, With, Without, MovedBytes, IsMoved, SizeOf, Beside;
    var key := Side(w.src, right);
    WithoutSize(w.src, right);
    EndsOf(w.src, w.dst, right);
    MovedMore(v, w, u, right, n);
    MovedUnion(v, w, u, key);
    SizeSame(v.from, w.from, key);
    SizeSame(u.to, w.from, key);
    BytesUnfold(w.src, v.from, right, toMove - moved);
  }

  lemma WithoutSize(s: seq<nat>, last: bool)
    requires s != []
    ensures |Without(s, last)| == |s| - 1
  {
  }

  lemma {:induction false} EndsOf(s: seq<nat>, d: seq<nat>, right: bool)
    requires s != [] && Beside(s, d, right)
    ensures var key := Side(s, right); key in s && key !in d && Side(With(d, key, !right), !right) == key
  {
  }

  lemma {:induction false} MovedUnion(v: View, w: View, u: View, key: nat)
    requires w.to + w.from == v.to + v.from && key in w.from && key !in w.to
    requires u.from == w.from - {key} && u.to == w.to[key := w.from[key]]
    ensures u.to + u.from == v.to + v.from
  {
    assert u.to + u.from == w.to + w.from;
  }

  lemma SizeSame(m: map<nat, seq<nat>>, m': map<nat, seq<nat>>, k: nat)
    requires k in m && k in m' && m[k] == m'[k]
    ensures SizeOf(m, k) == SizeOf(m', k) > 0
  {
  }

  lemma BytesUnfold(ks: seq<nat>, m: map<nat, seq<nat>>, right: bool, toMove: int)
    requires ks != [] && toMove > 0
    ensures MovedBytes(ks, m, right, toMove)
            == SizeOf(m, Side(ks, right)) + MovedBytes(Without(ks, right), m, right, toMove - SizeOf(m, Side(ks, right)))
  {
  }

  lemma {:induction false} MovedMore(v: View, w: View, u: View, right: bool, n: nat)
    requires IsMoved(v.src, v.dst, w.src, w.dst, right, n) && w.src != []
    requires u.src == Without(w.src, right) && u.dst == With(w.dst, Side(w.src, right), !right)
    ensures IsMoved(v.src, v.dst, u.src, u.dst, right, n + 1)
  {
    var s := v.src;
    if right {
      assert s[|s| - n - 1..] == [s[|s| - n - 1]] + s[|s| - n..];
    } else {
      assert s[..n + 1] == s[..n] + [s[n]];
    }
  }

  lemma {:induction false} BesideStep(s: seq<nat>, d: seq<nat>, right: bool)
    requires s != [] && Rising(s) && Rising(d) && Beside(s, d, right)
    ensures var key := Side(s, right);
            && (forall k :: k in d ==> if right then key < k else k < key)
            && Beside(Without(s, right), With(d, key, !right), right)
  {
    var key, t, e := Side(s, right), Without(s, right), With(d, Side(s, right), !right);
    assert key in s;
    forall a, b | a in t && b in e ensures if right then a < b else b < a {
      RisingWithout(s, right);
      var i :| 0 <= i < |s| && s[i] == a;
      if b != key { assert b in d && a in s; }
    }
  }

  lemma {:induction false} LeavesSeen(src: Leaf, dst: Leaf, right: bool)
    requires src.Valid() && dst.Valid() && Beside(InKeyOrder(src), InKeyOrder(dst), right)
    ensures Neighbours(Seen(src, dst), right)
  {
    hide Leaf.Valid, Rising, Beside, KeysOf, MapOf;
    LeafSorted(src);
    LeafSorted(dst);
    LeafOrder(src);
    LeafOrder(dst);
  }

  lemma {:induction false} EndIsItem(l: Leaf, last: bool)
    requires l.Valid()
    ensures Side(InOrder(l.avl.tree), last) != 0 <==> InKeyOrder(l) != []
  {
    hide Hashed, Sorted, InOrder;
    if InOrder(l.avl.tree) != [] { var k := SideItem(InOrder(l.avl.tree), l.keys, last); }
  }

  lemma {:induction false} MoveStarts(v: View, right: bool, toMove: int)
    ensures Moving(v, v, right, toMove, 0, 0)
  {
  }

  lemma {:induction false} MoveEnds(v: View, w: View, right: bool, toMove: int, moved: nat, n: nat)
    requires Moving(v, w, right, toMove, moved, n) && (moved >= toMove || w.src == [])
    ensures moved == MovedBytes(v.src, v.from, right, toMove)
  {
  }

  /** An item that is still to move counts. */
  lemma {:induction false} MoveNeeds(v: View, w: View, right: bool, toMove: int, moved: nat, n: nat)
    requires Moving(v, w, right, toMove, moved, n) && moved < toMove && w.src != [] && Side(w.src, right) in w.from
    ensures moved + SizeOf(w.from, Side(w.src, right)) <= MovedBytes(v.src, v.from, right, toMove)
  {
    hide IsMoved, Side, Without, SizeOf, MovedBytes;
    SizeSame(v.from, w.from, Side(w.src, right));
    BytesUnfold(w.src, v.from, right, toMove - moved);
  }

  /** An item at the end of one leaf is at the near end of the other. */
  ghost predicate OneMoved(w: View, u: View, right: bool) {
    && w.src != []
    && var key := Side(w.src, right);
       && u.src == Without(w.src, right) && u.dst == With(w.dst, key, !right)
       && key in w.from && u.from == w.from - {key} && u.to == w.to[key := w.from[key]]
  }

  /** Moves one item, if it fits. */
  method MoveItem(dst: Leaf, src: Leaf, right: bool, from: nat, par: nat) returns (bug: bool, size: nat, from': nat, par': nat)
    requires dst.Valid() && src.Valid() && Apart(dst, src) && Neighbours(Seen(src, dst), right) && from != 0
    requires from == Side(InOrder(src.avl.tree), right) && par == Side(InOrder(dst.avl.tree), !right)
    modifies dst, dst.area, dst.area.mem, dst.avl, dst.buckets, src, src.area, src.area.mem, src.avl, src.buckets
    ensures dst.Valid() && src.Valid() && Neighbours(Seen(src, dst), right)
    ensures old(Seen(src, dst)).src != [] && Side(old(Seen(src, dst)).src, right) in old(Seen(src, dst)).from
    ensures size == SizeOf(old(Seen(src, dst)).from, Side(old(Seen(src, dst)).src, right))
    ensures bug <==> size > old(dst.area.midLen)
    ensures bug ==> Seen(src, dst) == old(Seen(src, dst)) && dst.area.total == old(dst.area.total) && src.area.total == old(src.area.total)
    ensures !bug ==> OneMoved(old(Seen(src, dst)), Seen(src, dst), right)
    ensures !bug ==> from' == Side(InOrder(src.avl.tree), right) && par' == Side(InOrder(dst.avl.tree), !right)
    ensures !bug ==> dst.area.total == old(dst.area.total) + size && src.area.total == old(src.area.total) - size
    ensures !bug ==> dst.area.midLen == old(dst.area.midLen) - size
  {
    hide *;
    ghost var w := Seen(src, dst);
    ApartIs(dst, src);
    SeenIs(src, dst);
    EndIsItem(src, right);
    NeighboursStep(w, right);
    var k, val, next := ReadItem(src, right, from);
    size := ItemLenBytes(|val|);
    SizeIs(w.from, src.keys[k], val);
    bug, from', par' := dst.area.midLen < size, 0, 0;
    if bug { return; }
    par' := AddItem(dst, right, par, src.keys[k], val);
    from' := RemoveItem(src, right, k, next);
    SeenIs(src, dst);
    LeavesSeen(src, dst, right);
    OneMovedIs(w, Seen(src, dst), right);
  }

  lemma OneMovedIs(w: View, u: View, right: bool)
    requires w.src != []
    requires var key := Side(w.src, right);
             && u.src == Without(w.src, right) && u.dst == With(w.dst, key, !right)
             && key in w.from && u.from == w.from - {key} && u.to == w.to[key := w.from[key]]
    ensures OneMoved(w, u, right)
  {
  }

  lemma SeenIs(src: Leaf, dst: Leaf)
    requires src.Valid() && dst.Valid()
    ensures |src.keys| == |src.area.vals| && |dst.keys| == |dst.area.vals| && src.avl.Valid() && dst.avl.Valid()
    ensures Seen(src, dst) == View(InKeyOrder(src), InKeyOrder(dst), src.Contents(), dst.Contents())
  {
  }

  lemma SizeIs(m: map<nat, seq<nat>>, k: nat, val: seq<nat>)
    requires k in m && m[k] == val
    ensures SizeOf(m, k) == ItemLenBytes(|val|)
  {
  }

  lemma {:induction false} NeighboursStep(w: View, right: bool)
    requires Neighbours(w, right) && w.src != []
    ensures var key := Side(w.src, right);
            && key in w.from && (forall k :: k in w.dst ==> if right then key < k else k < key)
            && Beside(Without(w.src, right), With(w.dst, key, !right), right)
  {
    hide Side, Without, With, Rising;
    BesideStep(w.src, w.dst, right);
    EndsOf(w.src, w.dst, right);
  }

  /**
    Moves items from an end of one leaf to the near end of another until enough bytes
    have moved. `bug` says that an item did not fit, which ends the system there.
  */
  method MoveItems(dst: Leaf, src: Leaf, right: bool, toMove: int) returns (bug: bool, ghost moved: nat, ghost n: nat)
    requires dst.Valid() && src.Valid() && Apart(dst, src) && Beside(InKeyOrder(src), InKeyOrder(dst), right)
    modifies dst, dst.area, dst.area.mem, dst.avl, dst.buckets, src, src.area, src.area.mem, src.avl, src.buckets
    ensures dst.Valid() && src.Valid() && Neighbours(Seen(src, dst), right)
    ensures Moving(old(Seen(src, dst)), Seen(src, dst), right, toMove, moved, n)
    ensures dst.area.total == old(dst.area.total) + moved && src.area.total == old(src.area.total) - moved
    ensures bug <==> MovedBytes(old(InKeyOrder(src)), old(src.Contents()), right, toMove) > old(dst.area.midLen)
    ensures !bug ==> moved == MovedBytes(old(InKeyOrder(src)), old(src.Contents()), right, toMove)
    ensures !bug ==> moved >= toMove || InKeyOrder(src) == []
  {
    hide *;
    SeenIs(src, dst);
    LeavesSeen(src, dst, right);
    SidesAre(InOrder(src.avl.tree));
    SidesAre(InOrder(dst.avl.tree));
    var from, par;
    if right {
      from := src.avl.Last();
      par := dst.avl.First();
    } else {
      from := src.avl.First();
      par := dst.avl.Last();
    }
    bug, moved, n := false, 0, 0;
    var left := toMove;
    ghost var v := Seen(src, dst);
    MoveStarts(v, right, toMove);
    while left > 0 && from != 0
      invariant dst.Valid() && src.Valid() && Neighbours(Seen(src, dst), right)
      invariant Moving(v, Seen(src, dst), right, toMove, moved, n) && left == toMove - moved
      invariant from == Side(InOrder(src.avl.tree), right) && par == Side(InOrder(dst.avl.tree), !right)
      invariant dst.area.total == old(dst.area.total) + moved && src.area.total == old(src.area.total) - moved
      invariant dst.area.midLen == old(dst.area.midLen) - moved
      decreases |Seen(src, dst).src|
    {
      ghost var w := Seen(src, dst);
      var size;
      bug, size, from, par := MoveItem(dst, src, right, from, par);
      MoveNeeds(v, w, right, toMove, moved, n);
      if bug { return; }
      ghost var u := Seen(src, dst);
      MoveStep(v, w, u, right, toMove, moved, n);
      left := left - size;
      moved, n := moved + size, n + 1;
    }
    SeenIs(src, dst);
    EndIsItem(src, right);
    MoveEnds(v, Seen(src, dst), right, toMove, moved, n);
  }

  // ---- splits and joins of leaves

  /** No value is longer than an insert allows. */
  ghost predicate SmallValues(m: map<nat, seq<nat>>) {
    forall k :: k in m ==> |m[k]| <= MAX_VAL_LEN
  }

  lemma {:induction false} MovedBound(ks: seq<nat>, m: map<nat, seq<nat>>, right: bool, toMove: nat)
    requires SmallValues(m)
    ensures MovedBytes(ks, m, right, toMove) < toMove + ItemLenBytes(MAX_VAL_LEN)
    decreases |ks|
  {
    if toMove > 0 && ks != [] {
      var size := SizeOf(m, Side(ks, right));
      if toMove > size { MovedBound(Without(ks, right), m, right, toMove - size); }
    }
  }

  lemma {:induction false} UsedBound(ts: seq<Tile>, lo: nat, hi: nat)
    requires Tiled(ts, lo, hi)
    ensures UsedLen(ts) <= hi - lo
  {
    if ts == [] {
      assert UsedLen(ts) == 0;
    } else {
      UsedBound(ts[..|ts| - 1], lo, ts[|ts| - 1].off);
    }
  }

  lemma {:induction false} TotalFits(l: Leaf)
    requires l.Valid()
    ensures HEADER_BYTES + l.area.total + l.area.midLen <= LEAF_END
  {
    hide Hashed, Sorted, MapOf, Balanced, LastFree, InOrder, UsedLen, Tiled, TilesOK, Owned, TotalOf;
    UsedBound(l.area.tiles, l.area.MidEnd(), l.area.end);
  }

  /** What moved is as many bytes as asked for, and less than one item more. */
  lemma {:induction false} MovedAmount(v: View, w: View, right: bool, toMove: nat, moved: nat, n: nat)
    requires Moving(v, w, right, toMove, moved, n) && (moved >= toMove || w.src == []) && SmallValues(v.from)
    ensures moved < toMove + ItemLenBytes(MAX_VAL_LEN)
  {
    hide Moving, MovedBytes;
    MoveEnds(v, w, right, toMove, moved, n);
    MovedBound(v.src, v.from, right, toMove);
  }

  lemma {:induction false} SplitIs(v: View, w: View, toMove: int, moved: nat, n: nat)
    requires Moving(v, w, false, toMove, moved, n) && v.dst == [] && v.to == map[]
    ensures n <= |v.src| && w.dst == v.src[..n] && w.src == v.src[n..] && w.to + w.from == v.from
  {
    hide MovedBytes, SizeOf;
    assert v.to + v.from == v.from;
    assert [] + v.src[..n] == v.src[..n];
  }

  lemma {:induction false} NewLeafSeen(l: Leaf, src: Leaf)
    requires l.Valid() && src.Valid() && l.keys == [] && l.Contents() == map[] && InOrder(l.avl.tree) == []
    ensures Seen(src, l).dst == [] && Seen(src, l).to == map[] && InKeyOrder(l) == [] && Beside(InKeyOrder(src), InKeyOrder(l), false)
  {
  }

  /** A leaf with no items has none of their bytes. */
  lemma {:induction false} EmptyTotal(l: Leaf)
    requires l.Valid() && InKeyOrder(l) == []
    ensures l.area.total == 0
  {
    hide Hashed, MapOf, Balanced, LastFree, Heap, InOrder, UsedLen, Sorted, Rising;
    assert l.keys != [] ==> l.keys[0] in l.keys;
    LeafOrder(l);
    assert TotalOf(l.area.Values()) == 0;
  }

  /** Half of a leaf's items, by size, go to a new leaf on its left. */
  method SplitLeaf(right: Leaf) returns (left: Leaf, ghost n: nat)
    requires right.Valid() && SmallValues(right.Contents())
    modifies right, right.area, right.area.mem, right.avl, right.buckets
    ensures left.Valid() && right.Valid() && Apart(left, right)
    ensures n <= |old(InKeyOrder(right))|
    ensures InKeyOrder(left) == old(InKeyOrder(right))[..n] && InKeyOrder(right) == old(InKeyOrder(right))[n..]
    ensures left.Contents() + right.Contents() == old(right.Contents())
    ensures left.area.total + right.area.total == old(right.area.total)
    ensures old(right.area.total) / 2 <= left.area.total < old(right.area.total) / 2 + ItemLenBytes(MAX_VAL_LEN)
  {
    hide *;
    HashesFit(right);
    left := new Leaf(right.hash);
    MakeApart(left, right);
    ghost var v := Seen(right, left);
    NewLeafSeen(left, right);
    SeenIs(right, left);
    TotalFits(right);
    var toMove := right.area.total / 2;
    MovedBound(InKeyOrder(right), right.Contents(), false, toMove);
    ItemBound();
    var bug;
    ghost var moved;
    bug, moved, n := MoveItems(left, right, false, toMove);
    SeenIs(right, left);
    SplitIs(v, Seen(right, left), toMove, moved, n);
    MovedAmount(v, Seen(right, left), false, toMove, moved, n);
    if InKeyOrder(right) == [] { EmptyTotal(right); }
  }

  lemma ItemBound()
    ensures ItemLenBytes(MAX_VAL_LEN) == 936 && LEAF_END - HEADER_BYTES == 61127 && BTree.WATERMARK == 16372
  {
  }

  lemma HashesFit(l: Leaf)
    requires l.Valid()
    ensures forall k :: l.hash(k) < LeafHash.HASH_NR
  {
  }

  lemma MakeApart(a: Leaf, b: Leaf)
    requires a != b && a.area != b.area && a.avl != b.avl
    requires a.area.mem != b.area.mem && a.area.mem != b.buckets && a.buckets != b.area.mem && a.buckets != b.buckets
    ensures Apart(a, b)
  {
  }
}
