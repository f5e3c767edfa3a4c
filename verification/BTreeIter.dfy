/** Iterating from a key to the nearest item, from leaf to leaf. */
module BTreeIter {
  import opened LeafValues
  import opened Errno
  import opened Wrappers
  import opened BTree
  import opened BTreeWalk
  import opened BTreeMoves
  import opened BTreeDescend
  import opened BTreeLeaf
  import opened BTreeMap
  import opened BTreeRoot

  /** The nearest key past the leaf of a key, or zero. */
  function NextKeyFor(b: Block, key: nat, acc: nat): nat
    decreases b
  {
    var i := Below(b.entries, key);
    if b.level > 0 && i < |b.entries| then
      NextKeyUnder(b.entries[i], key, if i + 1 < |b.entries| then b.entries[i].key + 1 else acc)
    else
      acc
  }

  function NextKeyUnder(e: Entry, key: nat, acc: nat): nat
    decreases e
  {
    match e
    case Item(_, _) => acc
    case Child(_, b) => NextKeyFor(b, key, acc)
  }

  /** The nearest key before the leaf of a key, or zero. */
  function PrevKeyFor(b: Block, key: nat, acc: nat): nat
    decreases b
  {
    var i := Below(b.entries, key);
    if b.level > 0 && i < |b.entries| then
      PrevKeyUnder(b.entries[i], key, if 0 < i <= |b.entries| then b.entries[i - 1].key else acc)
    else
      acc
  }

  function PrevKeyUnder(e: Entry, key: nat, acc: nat): nat
    decreases e
  {
    match e
    case Item(_, _) => acc
    case Child(_, b) => PrevKeyFor(b, key, acc)
  }

  lemma {:induction false} KeysAtChild(b: Block, key: nat, acc: nat)
    requires b.level > 0 && Below(b.entries, key) < |b.entries| && b.entries[Below(b.entries, key)].Child?
    ensures var i := Below(b.entries, key);
            var c := b.entries[i].block;
            && NextKeyFor(b, key, acc) == NextKeyFor(c, key, if i + 1 < |b.entries| then b.entries[i].key + 1 else acc)
            && PrevKeyFor(b, key, acc) == PrevKeyFor(c, key, if i > 0 then b.entries[i - 1].key else acc)
  {
  }

  lemma {:induction false} KeysAtLeaf(b: Block, key: nat, acc: nat)
    requires b.level == 0
    ensures NextKeyFor(b, key, acc) == acc && PrevKeyFor(b, key, acc) == acc
  {
  }

  /** The keys that a walk gives are those right outside of the leaf's range. */
  lemma {:induction false} KeysOutside(b: Block, key: nat, lo: nat, hi: nat, next: nat, prev: nat)
    requires OK(b, lo, hi) && lo <= key <= hi
    ensures NextKeyFor(b, key, next) == if EndFor(b, key, hi) == hi then next else EndFor(b, key, hi) + 1
    ensures PrevKeyFor(b, key, prev) == if StartFor(b, key, lo) == lo then prev else StartFor(b, key, lo) - 1
    decreases b.level
  {
    hide Shape, EntryOK, Below, LeafFor, ItemsBefore, ItemsAfter, Items, WithLeaf, StartFor, EndFor, NextKeyFor, PrevKeyFor;
    if b.level == 0 {
      AtLeaf(b, key, lo, hi, []);
      KeysAtLeaf(b, key, next);
      KeysAtLeaf(b, key, prev);
    } else {
      ChildFor(b.level, b.entries, lo, hi, key);
      AtChild(b, key, lo, hi, []);
      KeysAtChild(b, key, next);
      KeysAtChild(b, key, prev);
      var es, i := b.entries, Below(b.entries, key);
      var c, s, e := es[i].block, Start(es, i, lo), es[i].key;
      LeafIs(c, key, s, e);
      KeyBounds(b.level, es, lo, hi, i);
      KeysOutside(c, key, s, e, if i + 1 < |es| then e + 1 else next, if i > 0 then es[i - 1].key else prev);
    }
  }

  lemma {:induction false} KeyBounds(level: nat, es: seq<Entry>, lo: nat, hi: nat, i: nat)
    requires level > 0 && Shape(level, es, lo, hi) && i < |es|
    ensures (i + 1 < |es| ==> es[i].key < hi) && (i + 1 == |es| ==> es[i].key == hi) && (i > 0 ==> lo <= es[i - 1].key)
  {
    if i + 1 < |es| { KeyOrder(es, i, i + 1); }
  }

  // ---- the items of one leaf among all

  /** An item is in the tree exactly when it is in the leaf for its key. */
  lemma {:induction false} InRangeInLeaf(b: Block, walk: nat, k: nat)
    requires TreeOK(b) && walk <= MAX_KEY && StartFor(b, walk, 0) <= k <= EndFor(b, walk, MAX_KEY)
    ensures var l := LeafFor(b, walk);
            && Increasing(l) && (k in AllOf(b) <==> HasKey(l, k)) && (HasKey(l, k) ==> AllOf(b)[k] == ValueOf(l[Below(l, k)]))
  {
    hide Shape, AllOf, HasKey, LeafFor, StartFor, EndFor, Below;
    LeafIs(b, walk, 0, MAX_KEY);
    SameLeaf(b, walk, k, 0, MAX_KEY, []);
    LeafSpeaks(b, k);
  }

  lemma {:induction false} LeafItem(b: Block, walk: nat, i: nat)
    requires TreeOK(b) && walk <= MAX_KEY && i < |LeafFor(b, walk)|
    ensures var e := LeafFor(b, walk)[i];
            && StartFor(b, walk, 0) <= e.key <= EndFor(b, walk, MAX_KEY) && e.key in AllOf(b) && AllOf(b)[e.key] == ValueOf(e)
  {
    hide Shape, AllOf, LeafFor, StartFor, EndFor, Below, Increasing;
    TreeLeaf(b, walk);
    var l := LeafFor(b, walk);
    ShapeKeys(0, l, StartFor(b, walk, 0), EndFor(b, walk, MAX_KEY));
    InRangeInLeaf(b, walk, l[i].key);
    BelowSelf(l, i);
  }

  lemma {:induction false} BelowSelf(es: seq<Entry>, i: nat)
    requires Increasing(es) && i < |es|
    ensures Below(es, es[i].key) == i
  {
    BelowUnique(es, es[i].key, i);
  }

  lemma {:induction false} KeysAreSmall(b: Block, k: nat)
    requires TreeOK(b) && k in AllOf(b)
    ensures k <= MAX_KEY
  {
    ItemsInRange(b.level, b.entries, 0, MAX_KEY);
    assert b == Block(b.level, b.entries);
    ToMapHas(Items(b), k);
  }

  /** Nothing in a leaf is at or past the key: neither is anything in the leaf's range. */
  lemma {:induction false} NothingAbove(b: Block, walk: nat, key: nat)
    requires TreeOK(b) && walk <= MAX_KEY && Below(LeafFor(b, walk), key) >= |LeafFor(b, walk)|
    ensures forall k :: k in AllOf(b) && key <= k && StartFor(b, walk, 0) <= k ==> k > EndFor(b, walk, MAX_KEY)
  {
    hide Shape, AllOf, LeafFor, StartFor, EndFor;
    TreeLeaf(b, walk);
    var l := LeafFor(b, walk);
    BelowIs(l, key);
    forall k | k in AllOf(b) && key <= k && StartFor(b, walk, 0) <= k ensures k > EndFor(b, walk, MAX_KEY) {
      if k <= EndFor(b, walk, MAX_KEY) {
        InRangeInLeaf(b, walk, k);
        assert false;
      }
    }
  }

  /** The first item of a leaf at or past the key is before all others of the tree there. */
  lemma {:induction false} FirstAbove(b: Block, walk: nat, key: nat)
    requires TreeOK(b) && walk <= MAX_KEY && Below(LeafFor(b, walk), key) < |LeafFor(b, walk)|
    ensures var e := LeafFor(b, walk)[Below(LeafFor(b, walk), key)];
            && key <= e.key && forall k :: k in AllOf(b) && key <= k && StartFor(b, walk, 0) <= k ==> e.key <= k
  {
    hide Shape, AllOf, LeafFor, StartFor, EndFor, Below;
    TreeLeaf(b, walk);
    var l := LeafFor(b, walk);
    var i := Below(l, key);
    BelowIs(l, key);
    LeafItem(b, walk, i);
    forall k | k in AllOf(b) && key <= k && StartFor(b, walk, 0) <= k ensures l[i].key <= k {
      if k <= EndFor(b, walk, MAX_KEY) {
        InRangeInLeaf(b, walk, k);
        AtOrAfter(l, i, key, k);
      }
    }
  }

  lemma {:induction false} AtOrAfter(l: seq<Entry>, i: nat, key: nat, k: nat)
    requires Increasing(l) && i < |l| && Below(l, key) == i && key <= k && HasKey(l, k)
    ensures l[i].key <= k
  {
    BelowIs(l, key);
    BelowIs(l, k);
    var j := Below(l, k);
    if j > i { KeyOrder(l, i, j); }
  }

  /** The first item at or after a key, going from leaf to leaf. */
  method Next(root: Option<Block>, key: nat) returns (ret: int, item: Option<Entry>)
    requires (root.Some? ==> TreeOK(root.value)) && key <= MAX_KEY
    ensures ret in {0, ENOENT} && (ret == 0 <==> item.Some?)
    ensures ret == 0 ==> && root.Some? && item.value.key in AllOf(root.value) && AllOf(root.value)[item.value.key] == ValueOf(item.value)
                         && key <= item.value.key && forall k :: k in AllOf(root.value) && key <= k ==> item.value.key <= k
    ensures ret == ENOENT && root.Some? ==> forall k :: k in AllOf(root.value) ==> k < key
  {
    hide TreeOK, AllOf, LeafFor, StartFor, EndFor, NextKeyFor, Below;
    if root.None? {
      return ENOENT, None;
    }
    var b, walk := root.value, key;
    while true
      invariant key <= walk <= MAX_KEY && forall k :: k in AllOf(b) && key <= k ==> walk <= k
      decreases MAX_KEY - walk
    {
      TreeLeaf(b, walk);
      NextIs(b, walk);
      var leaf := LeafFor(b, walk);
      var i := Below(leaf, key);
      if i < |leaf| {
        FirstAbove(b, walk, key);
        LeafItem(b, walk, i);
        return 0, Some(leaf[i]);
      }
      NothingAbove(b, walk, key);
      var next := NextKeyFor(b, walk, 0);
      if next == 0 {
        forall k | k in AllOf(b) ensures k < key { KeysAreSmall(b, k); }
        return ENOENT, None;
      }
      walk := next;
    }
  }

  lemma {:induction false} NextIs(b: Block, walk: nat)
    requires TreeOK(b) && walk <= MAX_KEY
    ensures NextKeyFor(b, walk, 0) == if EndFor(b, walk, MAX_KEY) == MAX_KEY then 0 else EndFor(b, walk, MAX_KEY) + 1
    ensures PrevKeyFor(b, walk, 0) == if StartFor(b, walk, 0) == 0 then 0 else StartFor(b, walk, 0) - 1
  {
    hide OK, EndFor, StartFor, NextKeyFor, PrevKeyFor;
    KeysOutside(b, walk, 0, MAX_KEY, 0, 0);
  }

  // ---- going backwards

  /** Where a leaf's last item at or before a key is, counting from one. */
  function AtOrBelow(l: seq<Entry>, key: nat): nat {
    if HasKey(l, key) then Below(l, key) + 1 else Below(l, key)
  }

  lemma {:induction false} AtOrBelowIs(l: seq<Entry>, key: nat)
    requires Increasing(l)
    ensures AtOrBelow(l, key) <= |l| && forall i :: 0 <= i < |l| ==> (l[i].key <= key <==> i < AtOrBelow(l, key))
  {
    BelowIs(l, key);
    if HasKey(l, key) {
      var j := Below(l, key);
      forall i | 0 <= i < |l| ensures l[i].key <= key <==> i < AtOrBelow(l, key) {
        if i > j { KeyOrder(l, j, i); }
      }
    }
  }

  lemma {:induction false} HasKeyAt(l: seq<Entry>, k: nat) returns (j: nat)
    requires HasKey(l, k)
    ensures j < |l| && l[j].key == k
  {
    j := Below(l, k);
  }

  lemma {:induction false} NothingBelow(b: Block, walk: nat, key: nat)
    requires TreeOK(b) && walk <= MAX_KEY && AtOrBelow(LeafFor(b, walk), key) == 0
    ensures forall k :: k in AllOf(b) && k <= key && k <= EndFor(b, walk, MAX_KEY) ==> k < StartFor(b, walk, 0)
  {
    hide Shape, AllOf, LeafFor, StartFor, EndFor, HasKey;
    TreeLeaf(b, walk);
    var l := LeafFor(b, walk);
    AtOrBelowIs(l, key);
    forall k | k in AllOf(b) && k <= key && k <= EndFor(b, walk, MAX_KEY) ensures k < StartFor(b, walk, 0) {
      if k >= StartFor(b, walk, 0) {
        InRangeInLeaf(b, walk, k);
        var j := HasKeyAt(l, k);
        assert false;
      }
    }
  }

  lemma {:induction false} LastBelow(b: Block, walk: nat, key: nat)
    requires TreeOK(b) && walk <= MAX_KEY && 0 < AtOrBelow(LeafFor(b, walk), key) <= |LeafFor(b, walk)|
    ensures var e := LeafFor(b, walk)[AtOrBelow(LeafFor(b, walk), key) - 1];
            && e.key <= key && forall k :: k in AllOf(b) && k <= key && k <= EndFor(b, walk, MAX_KEY) ==> k <= e.key
  {
    hide Shape, AllOf, LeafFor, StartFor, EndFor, HasKey, AtOrBelow;
    TreeLeaf(b, walk);
    var l := LeafFor(b, walk);
    var i := AtOrBelow(l, key) - 1;
    AtOrBelowIs(l, key);
    LeafItem(b, walk, i);
    forall k | k in AllOf(b) && k <= key && k <= EndFor(b, walk, MAX_KEY) ensures k <= l[i].key {
      if k >= StartFor(b, walk, 0) {
        InRangeInLeaf(b, walk, k);
        var j := HasKeyAt(l, k);
        if j < i { KeyOrder(l, j, i); }
      }
    }
  }

  /** Key zero has a leaf of its own, and nothing else is at or before the key: zero then stands for no more leaves. */
  ghost predicate HidesZero(b: Block, key: nat) {
    0 in AllOf(b) && 0 < key && EndFor(b, 0, MAX_KEY) == 0 && forall k :: k in AllOf(b) && 0 < k ==> key < k
  }

  /** The last item at or before a key, going from leaf to leaf. */
  method Prev(root: Option<Block>, key: nat) returns (ret: int, item: Option<Entry>)
    requires (root.Some? ==> TreeOK(root.value)) && key <= MAX_KEY
    ensures ret in {0, ENOENT} && (ret == 0 <==> item.Some?)
    ensures ret == 0 ==> && root.Some? && item.value.key in AllOf(root.value) && AllOf(root.value)[item.value.key] == ValueOf(item.value)
                         && item.value.key <= key && forall k :: k in AllOf(root.value) && k <= key ==> k <= item.value.key
    ensures root.Some? ==> (ret == ENOENT <==> (forall k :: k in AllOf(root.value) ==> key < k) || HidesZero(root.value, key))
  {
    hide TreeOK, AllOf, LeafFor, StartFor, EndFor, PrevKeyFor, AtOrBelow;
    if root.None? {
      return ENOENT, None;
    }
    var b, walk: nat := root.value, key;
    while true
      invariant walk <= key && (walk == 0 ==> key == 0) && forall k :: k in AllOf(b) && k <= key ==> k <= walk
      decreases walk
    {
      TreeLeaf(b, walk);
      NextIs(b, walk);
      var leaf := LeafFor(b, walk);
      AtOrBelowIs(leaf, key);
      var n := AtOrBelow(leaf, key);
      if n > 0 {
        LastBelow(b, walk, key);
        LeafItem(b, walk, n - 1);
        FoundNotHidden(b, walk, key, n - 1);
        return 0, Some(leaf[n - 1]);
      }
      NothingBelow(b, walk, key);
      var prev := PrevKeyFor(b, walk, 0);
      if prev == 0 {
        ZeroHides(b, walk, key);
        return ENOENT, None;
      }
      walk := prev;
    }
  }

  lemma {:induction false} FoundNotHidden(b: Block, walk: nat, key: nat, i: nat)
    requires TreeOK(b) && walk <= key && walk <= MAX_KEY && (walk == 0 ==> key == 0) && i < |LeafFor(b, walk)| && LeafFor(b, walk)[i].key <= key
    ensures !HidesZero(b, key)
  {
    hide TreeOK, AllOf, LeafFor, StartFor, EndFor;
    LeafItem(b, walk, i);
    TreeLeaf(b, walk);
    if HidesZero(b, key) {
      LeafOfZero(b, walk);
      assert false;
    }
  }

  lemma {:induction false} LeafOfZero(b: Block, walk: nat)
    requires TreeOK(b) && walk <= MAX_KEY && StartFor(b, walk, 0) == 0
    ensures EndFor(b, 0, MAX_KEY) == EndFor(b, walk, MAX_KEY) >= walk
  {
    hide Shape, AllOf, LeafFor, StartFor, EndFor;
    LeafIs(b, walk, 0, MAX_KEY);
    SameLeaf(b, walk, 0, 0, MAX_KEY, []);
  }

  lemma {:induction false} ZeroHides(b: Block, walk: nat, key: nat)
    requires TreeOK(b) && walk <= key && walk <= MAX_KEY && StartFor(b, walk, 0) <= 1
    requires forall k :: k in AllOf(b) && k <= key ==> k < StartFor(b, walk, 0)
    ensures (forall k :: k in AllOf(b) ==> key < k) || HidesZero(b, key)
  {
    hide TreeOK, AllOf, LeafFor, StartFor, EndFor;
    TreeLeaf(b, walk);
    if 0 in AllOf(b) {
      TreeLeaf(b, 0);
      EndsBefore(b, walk);
    }
  }

  /** The leaf of key zero ends before a leaf that starts after zero. */
  lemma {:induction false} EndsBefore(b: Block, walk: nat)
    requires TreeOK(b) && walk <= MAX_KEY && StartFor(b, walk, 0) > 0
    ensures EndFor(b, 0, MAX_KEY) < StartFor(b, walk, 0)
  {
    hide Shape, AllOf, LeafFor, StartFor, EndFor;
    LeafIs(b, 0, 0, MAX_KEY);
    LeafIs(b, walk, 0, MAX_KEY);
    if EndFor(b, 0, MAX_KEY) >= StartFor(b, walk, 0) {
      SameLeaf(b, 0, StartFor(b, walk, 0), 0, MAX_KEY, []);
      SameLeaf(b, walk, StartFor(b, walk, 0), 0, MAX_KEY, []);
      assert false;
    }
  }

  /** Two leaves, the first for key zero alone. */
  function ZeroAlone(): Block {
    Block(1, [Child(0, Block(0, [Item(0, [])])), Child(MAX_KEY, Block(0, [Item(5, [])]))])
  }

  lemma {:induction false} ZeroAloneIsTree()
    ensures TreeOK(ZeroAlone())
  {
    var p, q := [Item(0, [])], [Item(5, [])];
    var e, f := Child(0, Block(0, p)), Child(MAX_KEY, Block(0, q));
    TotalOne(p[0]);
    TotalOne(q[0]);
    TotalPair(e, f);
    EntryMade(1, e, 0);
    EntryMade(1, f, 1);
    hide Shape, EntryOK;
    TwoKids(1, e, f, 0);
  }

  lemma {:induction false} ZeroAloneMap()
    ensures AllOf(ZeroAlone()) == map[0 := [], 5 := []]
  {
    var p, q := [Item(0, [])], [Item(5, [])];
    PairOf(Child(0, Block(0, p)), Child(MAX_KEY, Block(0, q)));
    ParentHolds(1, ZeroAlone().entries);
    ToMapConcat(p, q);
    ToMapOne(p[0]);
    ToMapOne(q[0]);
  }

  /** An item with key zero in a leaf of its own is missed. */
  lemma {:induction false} PrevMissesZero()
    ensures TreeOK(ZeroAlone()) && HidesZero(ZeroAlone(), 3)
  {
    hide TreeOK, AllOf;
    ZeroAloneIsTree();
    ZeroAloneMap();
    assert Below(ZeroAlone().entries, 0) == 0;
  }

  /** Items without values are the same size. */
  ghost predicate Bare(es: seq<Entry>) {
    forall i :: 0 <= i < |es| ==> es[i].Item? && es[i].val == []
  }

  lemma {:induction false} BareTotal(es: seq<Entry>)
    requires Bare(es)
    ensures Total(es) == ItemLenBytes(0) * |es|
  {
    if es != [] { BareTotal(es[..|es| - 1]); }
  }

  /** Of one item more than its neighbour has, a leaf gives away all but one. */
  lemma {:induction false} AllButOne(s: seq<Entry>, c: seq<Entry>, n: nat)
    requires Bare(s) && Bare(c) && |s| == |c| + 1 && Fewest(s, true, n, Total(c))
    ensures n == |c|
  {
    hide Total;
    BareTotal(s);
    BareTotal(c);
    BareTotal(s[..|s| - n]);
    if n > 0 { BareTotal(s[..|s| - n + 1]); }
  }

  /** Two leaves of items without values: the second has few, and the first has one more and starts with key zero. */
  ghost predicate NearlyLow(es: seq<Entry>) {
    && |es| == 2 && es[0].Child? && es[1].Child? && Shape(1, es, 0, MAX_KEY)
    && var s, c := es[0].block.entries, es[1].block.entries;
    && Bare(s) && Bare(c) && |s| == |c| + 1 && |c| > 0 && s[0].key == 0
  }

  lemma {:induction false} NearlyLowItems(es: seq<Entry>)
    requires NearlyLow(es)
    ensures Items(Block(1, es)) == es[0].block.entries + es[1].block.entries && Increasing(Items(Block(1, es)))
    ensures Total(es) <= Capacity(1) && Below(es, MAX_KEY) == 1
  {
    hide Shape, Increasing;
    BothShape(1, es, 0, MAX_KEY, 0);
    ShapeKeys(0, es[0].block.entries + es[1].block.entries, 0, es[1].key);
    ShapeKeys(1, es, 0, MAX_KEY);
    LastKey(1, es, 0, MAX_KEY);
    BelowUnique(es, MAX_KEY, 1);
    assert es == [es[0], es[1]];
    PairOf(es[0], es[1]);
    ParentHolds(1, es);
    TotalPair(es[0], es[1]);
  }

  /** What comes after the first two items is after a key between them. */
  lemma {:induction false} NothingBetween(b: Block, key: nat)
    requires var l := Items(b);
             |l| >= 2 && Increasing(l) && l[0].key == 0 && 0 < key < l[1].key
    ensures 0 in AllOf(b) && forall k :: k in AllOf(b) && 0 < k ==> key < k
  {
    hide Items, ToMap;
    var l := Items(b);
    ToMapHas(l, 0);
    forall k | k in AllOf(b) && 0 < k ensures key < k {
      ToMapHas(l, k);
      var i :| 0 <= i < |l| && l[i].key == k;
      if i > 1 { KeyOrder(l, 1, i); }
    }
  }

  lemma {:induction false} EndsAtZero(b: Block)
    requires b.level == 1 && b.entries != [] && b.entries[0].Child? && b.entries[0].key == 0 && b.entries[0].block.level == 0
    requires Increasing(b.entries)
    ensures EndFor(b, 0, MAX_KEY) == 0
  {
    BelowUnique(b.entries, 0, 0);
    assert EndFor(b, 0, MAX_KEY) == EndUnder(b.entries[0], 0) == EndFor(b.entries[0].block, 0, b.entries[0].key);
  }

  /** A walk that comes to the leaf that has few leaves key zero alone, so that it is missed from then on. */
  method JoinHidesZero(es: seq<Entry>, key: nat) returns (b: Block)
    requires NearlyLow(es) && Low(es[1].block) && 0 < key < es[0].block.entries[1].key
    ensures TreeOK(b) && Items(b) == Items(Block(1, es)) && HidesZero(b, key)
  {
    hide Shape, Increasing, Items, Below, Fewest, Total, AllOf, EndFor;
    NearlyLowItems(es);
    var r, n := JoinChild(1, es, 1, 0, MAX_KEY, MAX_KEY, 0);
    ghost var s, c := es[0].block.entries, es[1].block.entries;
    AllButOne(s, c, n);
    assert s[..1] == [s[0]];
    b := Block(1, r.es);
    ShapeKeys(1, r.es, 0, MAX_KEY);
    RegroupedAt(1, es, 0, s[..1], s[1..] + c);
    EndsAtZero(b);
    NothingBetween(b, key);
  }
}
