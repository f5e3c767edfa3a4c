/** The leaf that a key leads to: its items among all of them, its range, and what changing it does to the tree. */
module BTreeLeaf {
  import opened LeafValues
  import opened BTree
  import opened BTreeMoves
  import opened BTreeDescend

  /** The entries of the leaf for a key. */
  function LeafFor(b: Block, key: nat): seq<Entry>
    decreases b
  {
    var i := Below(b.entries, key);
    if b.level > 0 && i < |b.entries| then LeafUnder(b.entries[i], key) else b.entries
  }

  function LeafUnder(e: Entry, key: nat): seq<Entry>
    decreases e
  {
    match e
    case Item(_, _) => []
    case Child(_, b) => LeafFor(b, key)
  }

  /** The tree with other entries in that leaf. */
  function WithLeaf(b: Block, key: nat, es: seq<Entry>): Block
    decreases b
  {
    var i := Below(b.entries, key);
    if b.level > 0 && i < |b.entries| then Block(b.level, b.entries[i := WithLeafUnder(b.entries[i], key, es)]) else Block(b.level, es)
  }

  function WithLeafUnder(e: Entry, key: nat, es: seq<Entry>): Entry
    decreases e
  {
    match e
    case Item(_, _) => e
    case Child(k, b) => Child(k, WithLeaf(b, key, es))
  }

  /** The first and last keys that the leaf could hold. */
  function StartFor(b: Block, key: nat, lo: nat): nat
    decreases b
  {
    var i := Below(b.entries, key);
    if b.level > 0 && i < |b.entries| then StartUnder(b.entries[i], key, Start(b.entries, i, lo)) else lo
  }

  function StartUnder(e: Entry, key: nat, lo: nat): nat
    decreases e
  {
    match e
    case Item(_, _) => lo
    case Child(_, b) => StartFor(b, key, lo)
  }

  function EndFor(b: Block, key: nat, hi: nat): nat
    decreases b
  {
    var i := Below(b.entries, key);
    if b.level > 0 && i < |b.entries| then EndUnder(b.entries[i], key) else hi
  }

  function EndUnder(e: Entry, key: nat): nat
    decreases e
  {
    match e
    case Item(k, _) => k
    case Child(k, b) => EndFor(b, key, k)
  }

  /** The items in the leaves before and after. */
  ghost function ItemsBefore(b: Block, key: nat): seq<Entry>
    decreases b
  {
    var i := Below(b.entries, key);
    if b.level > 0 && i < |b.entries| then ItemsOf(b.entries[..i]) + BeforeUnder(b.entries[i], key) else []
  }

  ghost function BeforeUnder(e: Entry, key: nat): seq<Entry>
    decreases e
  {
    match e
    case Item(_, _) => []
    case Child(_, b) => ItemsBefore(b, key)
  }

  ghost function ItemsAfter(b: Block, key: nat): seq<Entry>
    decreases b
  {
    var i := Below(b.entries, key);
    if b.level > 0 && i < |b.entries| then AfterUnder(b.entries[i], key) + ItemsOf(b.entries[i + 1..]) else []
  }

  ghost function AfterUnder(e: Entry, key: nat): seq<Entry>
    decreases e
  {
    match e
    case Item(_, _) => []
    case Child(_, b) => ItemsAfter(b, key)
  }

  /** The functions of a block in terms of its child for the key. */
  lemma {:induction false} AtChild(b: Block, key: nat, lo: nat, hi: nat, es: seq<Entry>)
    requires b.level > 0 && Below(b.entries, key) < |b.entries| && b.entries[Below(b.entries, key)].Child?
    ensures var i := Below(b.entries, key);
            var e := b.entries[i];
            && LeafFor(b, key) == LeafFor(e.block, key)
            && WithLeaf(b, key, es) == Block(b.level, b.entries[i := Child(e.key, WithLeaf(e.block, key, es))])
            && StartFor(b, key, lo) == StartFor(e.block, key, Start(b.entries, i, lo))
            && EndFor(b, key, hi) == EndFor(e.block, key, e.key)
            && ItemsBefore(b, key) == ItemsOf(b.entries[..i]) + ItemsBefore(e.block, key)
            && ItemsAfter(b, key) == ItemsAfter(e.block, key) + ItemsOf(b.entries[i + 1..])
  {
  }

  lemma {:induction false} AtLeaf(b: Block, key: nat, lo: nat, hi: nat, es: seq<Entry>)
    requires b.level == 0
    ensures LeafFor(b, key) == b.entries && WithLeaf(b, key, es) == Block(0, es) && StartFor(b, key, lo) == lo && EndFor(b, key, hi) == hi
    ensures ItemsBefore(b, key) == [] && ItemsAfter(b, key) == [] && Items(b) == b.entries
  {
  }

  lemma {:induction false} Regroup(p: seq<Entry>, x: seq<Entry>, l: seq<Entry>, y: seq<Entry>, q: seq<Entry>)
    ensures p + (x + l + y) + q == (p + x) + l + (y + q)
  {
  }

  /** All items are those before the leaf, in it and after it. */
  lemma {:induction false} ItemsSplit(b: Block, key: nat, lo: nat, hi: nat)
    requires OK(b, lo, hi) && lo <= key <= hi
    ensures Items(b) == ItemsBefore(b, key) + LeafFor(b, key) + ItemsAfter(b, key)
    decreases b.level
  {
    hide Shape, EntryOK, Below, LeafFor, ItemsBefore, ItemsAfter, Items, ItemsOf, WithLeaf, StartFor, EndFor;
    if b.level == 0 {
      AtLeaf(b, key, lo, hi, []);
    } else {
      ChildFor(b.level, b.entries, lo, hi, key);
      AtChild(b, key, lo, hi, []);
      var i := Below(b.entries, key);
      var c := b.entries[i].block;
      ItemsSplit(c, key, Start(b.entries, i, lo), b.entries[i].key);
      ItemsAround(b.entries, i);
      HoldsUnder(b.entries[i]);
      ParentHolds(b.level, b.entries);
      assert b == Block(b.level, b.entries);
      Regroup(ItemsOf(b.entries[..i]), ItemsBefore(c, key), LeafFor(c, key), ItemsAfter(c, key), ItemsOf(b.entries[i + 1..]));
    }
  }

  /** Items with keys from `lo` up to but not `end`. */
  ghost predicate KeysIn(es: seq<Entry>, lo: nat, end: nat) {
    forall e :: e in es ==> e.Item? && lo <= e.key < end
  }

  lemma {:induction false} KeysJoin(a: seq<Entry>, b: seq<Entry>, lo: nat, mid: nat, end: nat)
    requires KeysIn(a, lo, mid) && KeysIn(b, mid, end) && lo <= mid <= end
    ensures KeysIn(a + b, lo, end)
  {
  }

  /** Items are in the range of their block. */
  lemma {:induction false} ItemsInRange(level: nat, es: seq<Entry>, lo: nat, hi: nat)
    requires Shape(level, es, lo, hi)
    ensures KeysIn(Items(Block(level, es)), lo, hi + 1)
    decreases level, |es|
  {
    hide EntryOK, Children, Increasing;
    if level > 0 {
      var n := |es| - 1;
      ShapeAt(level, es, lo, hi, n);
      EntryIs(level, es[n], Start(es, n, lo));
      ItemsInRange(level - 1, es[n].block.entries, Start(es, n, lo), es[n].key);
      assert Block(level - 1, es[n].block.entries) == es[n].block;
      HoldsUnder(es[n]);
      ParentHolds(level, es);
      if n > 0 {
        SplitShape(level, es, lo, hi, n);
        ItemsInRange(level, es[..n], lo, es[n - 1].key);
        ParentHolds(level, es[..n]);
      }
      KeysJoin(ItemsOf(es[..n]), ItemsUnder(es[n]), lo, Start(es, n, lo), hi + 1);
    }
  }

  lemma {:induction false} AroundChild(level: nat, es: seq<Entry>, lo: nat, hi: nat, i: nat)
    requires level > 0 && Shape(level, es, lo, hi) && i < |es|
    ensures lo <= Start(es, i, lo) && KeysIn(ItemsOf(es[..i]), lo, Start(es, i, lo))
    ensures es[i].key <= hi && KeysIn(ItemsOf(es[i + 1..]), es[i].key + 1, hi + 1)
  {
    hide Shape, EntryOK, Items;
    ShapeAt(level, es, lo, hi, i);
    if i > 0 {
      SplitShape(level, es, lo, hi, i);
      ItemsInRange(level, es[..i], lo, es[i - 1].key);
      ParentHolds(level, es[..i]);
    }
    if i + 1 < |es| {
      SplitShape(level, es, lo, hi, i + 1);
      ItemsInRange(level, es[i + 1..], es[i].key + 1, hi);
      ParentHolds(level, es[i + 1..]);
    }
  }

  /** The leaf for a key covers it, and all other items are outside of the leaf's range. */
  lemma {:induction false} LeafIs(b: Block, key: nat, lo: nat, hi: nat)
    requires OK(b, lo, hi) && lo <= key <= hi
    ensures var s, e := StartFor(b, key, lo), EndFor(b, key, hi);
            && lo <= s <= key <= e <= hi && Shape(0, LeafFor(b, key), s, e) && Total(LeafFor(b, key)) <= Capacity(0)
            && (b.entries != [] ==> LeafFor(b, key) != [])
            && KeysIn(ItemsBefore(b, key), lo, s) && KeysIn(ItemsAfter(b, key), e + 1, hi + 1)
    decreases b.level
  {
    hide Shape, EntryOK, Below, LeafFor, ItemsBefore, ItemsAfter, Items, ItemsOf, WithLeaf, StartFor, EndFor, KeysIn, Total;
    if b.level == 0 {
      AtLeaf(b, key, lo, hi, []);
      NoKeys(lo, lo);
      NoKeys(hi + 1, hi + 1);
    } else {
      ChildFor(b.level, b.entries, lo, hi, key);
      AtChild(b, key, lo, hi, []);
      var es, i := b.entries, Below(b.entries, key);
      LeafIs(es[i].block, key, Start(es, i, lo), es[i].key);
      AroundChild(b.level, es, lo, hi, i);
      KeysJoin(ItemsOf(es[..i]), ItemsBefore(es[i].block, key), lo, Start(es, i, lo), StartFor(b, key, lo));
      KeysJoin(ItemsAfter(es[i].block, key), ItemsOf(es[i + 1..]), EndFor(b, key, hi) + 1, es[i].key + 1, hi + 1);
    }
  }

  lemma {:induction false} NoKeys(lo: nat, end: nat)
    ensures KeysIn([], lo, end)
  {
  }

  /** Changing the leaf changes its items and nothing else. */
  lemma {:induction false} WithLeafIs(b: Block, key: nat, lo: nat, hi: nat, es: seq<Entry>)
    requires OK(b, lo, hi) && lo <= key <= hi && Shape(0, es, StartFor(b, key, lo), EndFor(b, key, hi)) && Total(es) <= Capacity(0)
    requires b.level > 0 ==> es != []
    ensures OK(WithLeaf(b, key, es), lo, hi) && WithLeaf(b, key, es).level == b.level
    ensures b.level > 0 ==> |WithLeaf(b, key, es).entries| == |b.entries|
    ensures b.level == 0 ==> WithLeaf(b, key, es).entries == es
    ensures Items(WithLeaf(b, key, es)) == ItemsBefore(b, key) + es + ItemsAfter(b, key)
    decreases b.level
  {
    hide Shape, EntryOK, Below, LeafFor, ItemsBefore, ItemsAfter, Items, ItemsOf, WithLeaf, StartFor, EndFor, Total;
    if b.level == 0 {
      AtLeaf(b, key, lo, hi, es);
      AtLeaf(Block(0, es), key, lo, hi, es);
      assert [] + es + [] == es;
    } else {
      ChildFor(b.level, b.entries, lo, hi, key);
      AtChild(b, key, lo, hi, es);
      var i := Below(b.entries, key);
      var e, c' := b.entries[i], WithLeaf(b.entries[i].block, key, es);
      WithLeafIs(e.block, key, Start(b.entries, i, lo), e.key, es);
      WithKid(b.level, b.entries, lo, hi, i, c');
      Regroup(ItemsOf(b.entries[..i]), ItemsBefore(e.block, key), es, ItemsAfter(e.block, key), ItemsOf(b.entries[i + 1..]));
    }
  }

  lemma {:induction false} WithKid(level: nat, es: seq<Entry>, lo: nat, hi: nat, i: nat, c': Block)
    requires level > 0 && Shape(level, es, lo, hi) && Total(es) <= Capacity(level) && i < |es| && es[i].Child?
    requires OK(c', Start(es, i, lo), es[i].key) && c'.level == level - 1 && c'.entries != []
    ensures OK(Block(level, es[i := Child(es[i].key, c')]), lo, hi)
    ensures Items(Block(level, es[i := Child(es[i].key, c')])) == ItemsOf(es[..i]) + Items(c') + ItemsOf(es[i + 1..])
  {
    hide Shape, EntryOK, Items, Total;
    var e, es' := Child(es[i].key, c'), es[i := Child(es[i].key, c')];
    ShapeAt(level, es, lo, hi, i);
    DividedOne(level - 1, Start(es, i, lo), es[i].key, c'.entries);
    assert c' == Block(level - 1, c'.entries);
    ReplaceShape(level, es, lo, hi, i, i + 1, [e]);
    assert es' == es[..i] + [e] + es[i + 1..];
    KidTotal(es, i, e);
    ItemsAround(es', i);
    HoldsUnder(e);
    ParentHolds(level, es');
    assert es'[..i] == es[..i] && es'[i + 1..] == es[i + 1..];
  }

  /** Keys in a leaf's range lead to it. */
  lemma {:induction false} SameLeaf(b: Block, key: nat, key': nat, lo: nat, hi: nat, es: seq<Entry>)
    requires OK(b, lo, hi) && lo <= key <= hi && StartFor(b, key, lo) <= key' <= EndFor(b, key, hi)
    ensures LeafFor(b, key') == LeafFor(b, key) && WithLeaf(b, key', es) == WithLeaf(b, key, es)
    ensures StartFor(b, key', lo) == StartFor(b, key, lo) && EndFor(b, key', hi) == EndFor(b, key, hi)
    ensures ItemsBefore(b, key') == ItemsBefore(b, key) && ItemsAfter(b, key') == ItemsAfter(b, key)
    decreases b.level
  {
    hide Shape, EntryOK, Below, LeafFor, ItemsBefore, ItemsAfter, Items, ItemsOf, WithLeaf, StartFor, EndFor;
    if b.level == 0 {
      AtLeaf(b, key, lo, hi, es);
      AtLeaf(b, key', lo, hi, es);
    } else {
      ChildFor(b.level, b.entries, lo, hi, key);
      AtChild(b, key, lo, hi, es);
      var i := Below(b.entries, key);
      var c, s, e := b.entries[i].block, Start(b.entries, i, lo), b.entries[i].key;
      LeafIs(c, key, s, e);
      SameLeaf(c, key, key', s, e, es);
      SameChild(b.level, b.entries, lo, hi, i, key');
      AtChild(b, key', lo, hi, es);
    }
  }

  lemma {:induction false} SameChild(level: nat, es: seq<Entry>, lo: nat, hi: nat, i: nat, key: nat)
    requires level > 0 && Shape(level, es, lo, hi) && i < |es| && Start(es, i, lo) <= key <= es[i].key
    ensures Below(es, key) == i
  {
    hide EntryOK, Children;
    BelowUnique(es, key, i);
  }

  /** When a walk has arrived its leaf has room, and when it was to delete the leaf is not low or it is the root. */
  lemma {:induction false} ReadyLeaf(b: Block, key: nat, lo: nat, hi: nat, len: nat, del: bool, top: bool)
    requires OK(b, lo, hi) && lo <= key <= hi && Ready(b, key, len, del, top)
    ensures Total(LeafFor(b, key)) + ItemLenBytes(len) <= Capacity(0)
    ensures del && (b.level > 0 || !top) ==> Total(LeafFor(b, key)) >= WATERMARK
    decreases b.level
  {
    hide Shape, EntryOK, Below, LeafFor, WithLeaf, StartFor, EndFor, ItemsBefore, ItemsAfter, Total;
    if b.level == 0 {
      AtLeaf(b, key, lo, hi, []);
    } else {
      ChildFor(b.level, b.entries, lo, hi, key);
      AtChild(b, key, lo, hi, []);
      var i := Below(b.entries, key);
      ReadyLeaf(b.entries[i].block, key, Start(b.entries, i, lo), b.entries[i].key, len, del, false);
    }
  }

  lemma {:induction false} KidBelow(level: nat, es: seq<Entry>, lo: nat, hi: nat, i: nat, e: Entry, key: nat)
    requires Shape(level, es, lo, hi) && i < |es| && Below(es, key) == i && e.key == es[i].key
    ensures Below(es[i := e], key) == i
  {
    hide EntryOK, Children, Below;
    BelowAt(es, key, i);
    SameKeysIncrease(es, es[i := e]);
    BelowUnique(es[i := e], key, i);
  }

  /** A changed leaf is found where the leaf was. */
  lemma {:induction false} FindsChanged(b: Block, key: nat, lo: nat, hi: nat, es: seq<Entry>)
    requires OK(b, lo, hi) && lo <= key <= hi
    ensures var b' := WithLeaf(b, key, es);
            && LeafFor(b', key) == es && StartFor(b', key, lo) == StartFor(b, key, lo) && EndFor(b', key, hi) == EndFor(b, key, hi)
    decreases b.level
  {
    hide Shape, EntryOK, Below, LeafFor, ItemsBefore, ItemsAfter, Items, WithLeaf, StartFor, EndFor;
    if b.level == 0 {
      AtLeaf(b, key, lo, hi, es);
      AtLeaf(Block(0, es), key, lo, hi, es);
    } else {
      ChildFor(b.level, b.entries, lo, hi, key);
      AtChild(b, key, lo, hi, es);
      var i := Below(b.entries, key);
      var e := b.entries[i];
      var es' := b.entries[i := Child(e.key, WithLeaf(e.block, key, es))];
      FindsChanged(e.block, key, Start(b.entries, i, lo), e.key, es);
      KidBelow(b.level, b.entries, lo, hi, i, es'[i], key);
      AtChild(Block(b.level, es'), key, lo, hi, es);
    }
  }
}
