/** The operations on a tree: walks that restart, and changes of the leaf that they arrive at. */
module BTreeRoot {
  import opened Errno
  import opened Wrappers
  import opened LeafValues
  import opened LeafArea
  import opened BTree
  import opened BTreeWalk
  import opened BTreeMoves
  import opened BTreeDescend
  import opened BTreeLeaf
  import opened BTreeMap

  ghost function AllOf(b: Block): map<nat, seq<nat>> {
    ToMap(Items(b))
  }

  ghost predicate TreeOK(b: Block) {
    OK(b, 0, MAX_KEY) && (b.level > 0 ==> |b.entries| >= 2)
  }

  /** Merging maps whose keys are apart. */
  lemma {:induction false} MapMiddle(a: map<nat, seq<nat>>, m: map<nat, seq<nat>>, m': map<nat, seq<nat>>, b: map<nat, seq<nat>>, key: nat, val: seq<nat>)
    requires key !in a && key !in b
    ensures m' == m[key := val] ==> a + m' + b == (a + m + b)[key := val]
    ensures m' == m - {key} ==> a + m' + b == (a + m + b) - {key}
    ensures (key in m <==> key in a + m + b) && (key in m ==> (a + m + b)[key] == m[key])
  {
    MiddlePut(a, m, b, key, val);
    MiddleDrop(a, m, b, key);
  }

  lemma MiddlePut(a: map<nat, seq<nat>>, m: map<nat, seq<nat>>, b: map<nat, seq<nat>>, key: nat, val: seq<nat>)
    requires key !in b
    ensures a + m[key := val] + b == (a + m + b)[key := val]
  {
  }

  lemma MiddleDrop(a: map<nat, seq<nat>>, m: map<nat, seq<nat>>, b: map<nat, seq<nat>>, key: nat)
    requires key !in a && key !in b
    ensures a + (m - {key}) + b == (a + m + b) - {key}
  {
  }

  /** What a leaf says about a key is what the tree says. */
  lemma {:induction false} LeafSpeaks(b: Block, key: nat)
    requires TreeOK(b) && key <= MAX_KEY
    ensures var l := LeafFor(b, key);
            && Increasing(l) && (HasKey(l, key) <==> key in AllOf(b))
            && (HasKey(l, key) ==> AllOf(b)[key] == ValueOf(l[Below(l, key)]))
  {
    hide Shape, ToMap, Below, LeafFor, ItemsBefore, ItemsAfter, Items;
    var l, p, q := LeafFor(b, key), ItemsBefore(b, key), ItemsAfter(b, key);
    ItemsSplit(b, key, 0, MAX_KEY);
    LeafIs(b, key, 0, MAX_KEY);
    ShapeKeys(0, l, StartFor(b, key, 0), EndFor(b, key, MAX_KEY));
    HasKeyIs(l, key);
    ToMapLacks(p, key);
    ToMapLacks(q, key);
    ToMapConcat(p + l, q);
    ToMapConcat(p, l);
    MapMiddle(ToMap(p), ToMap(l), ToMap(l), ToMap(q), key, []);
  }

  /** A leaf's new items are the tree's new items. */
  lemma {:induction false} LeafChanges(b: Block, key: nat, es: seq<Entry>, val: seq<nat>)
    requires TreeOK(b) && key <= MAX_KEY && Total(es) <= Capacity(0) && (b.level > 0 ==> es != [])
    requires Shape(0, es, StartFor(b, key, 0), EndFor(b, key, MAX_KEY))
    ensures TreeOK(WithLeaf(b, key, es))
    ensures ToMap(es) == ToMap(LeafFor(b, key))[key := val] ==> AllOf(WithLeaf(b, key, es)) == AllOf(b)[key := val]
    ensures ToMap(es) == ToMap(LeafFor(b, key)) - {key} ==> AllOf(WithLeaf(b, key, es)) == AllOf(b) - {key}
  {
    hide Shape, ToMap, Below, LeafFor, ItemsBefore, ItemsAfter, Items, WithLeaf, Total;
    var l, p, q := LeafFor(b, key), ItemsBefore(b, key), ItemsAfter(b, key);
    ItemsSplit(b, key, 0, MAX_KEY);
    LeafIs(b, key, 0, MAX_KEY);
    WithLeafIs(b, key, 0, MAX_KEY, es);
    ToMapLacks(p, key);
    ToMapLacks(q, key);
    ToMapConcat(p + l, q);
    ToMapConcat(p, l);
    ToMapConcat(p + es, q);
    ToMapConcat(p, es);
    MapMiddle(ToMap(p), ToMap(l), ToMap(es), ToMap(q), key, val);
  }

  /** Putting an item in its leaf puts it in the tree. */
  lemma {:induction false} PutChanges(b: Block, key: nat, val: seq<nat>)
    requires TreeOK(b) && key <= MAX_KEY && |val| <= MAX_VAL_LEN
    requires Total(LeafFor(b, key)) + ItemLenBytes(|val|) <= Capacity(0)
    ensures var b' := WithLeaf(b, key, PutItem(LeafFor(b, key), key, val));
            TreeOK(b') && AllOf(b') == AllOf(b)[key := val]
  {
    hide Shape, ToMap, LeafFor, Items, WithLeaf, Total, PutItem, TreeOK, AllOf;
    var l := LeafFor(b, key);
    TreeLeaf(b, key);
    PutItemShape(l, StartFor(b, key, 0), EndFor(b, key, MAX_KEY), key, val);
    PutItemMap(l, key, val);
    PutItemTotal(l, key, val);
    LeafChanges(b, key, PutItem(l, key, val), val);
  }

  lemma {:induction false} TreeLeaf(b: Block, key: nat)
    requires TreeOK(b) && key <= MAX_KEY
    ensures var s, e := StartFor(b, key, 0), EndFor(b, key, MAX_KEY);
            s <= key <= e <= MAX_KEY && Shape(0, LeafFor(b, key), s, e) && Increasing(LeafFor(b, key))
  {
    hide Shape, LeafFor, StartFor, EndFor;
    LeafIs(b, key, 0, MAX_KEY);
    ShapeKeys(0, LeafFor(b, key), StartFor(b, key, 0), EndFor(b, key, MAX_KEY));
  }

  /** Taking an item out of its leaf takes it out of the tree. */
  lemma {:induction false} RemoveChanges(b: Block, key: nat)
    requires TreeOK(b) && key <= MAX_KEY && HasKey(LeafFor(b, key), key) && |LeafFor(b, key)| > 1
    ensures var b' := WithLeaf(b, key, RemoveItem(LeafFor(b, key), key));
            TreeOK(b') && AllOf(b') == AllOf(b) - {key}
  {
    hide Shape, ToMap, LeafFor, Items, WithLeaf, Total, RemoveItem, AllOf;
    var l := LeafFor(b, key);
    LeafIs(b, key, 0, MAX_KEY);
    RemoveItemIs(l, StartFor(b, key, 0), EndFor(b, key, MAX_KEY), key);
    LeafChanges(b, key, RemoveItem(l, key), []);
  }

  /** A walk to delete only arrives at a leaf with one item when that is the only item of the tree. */
  lemma {:induction false} LastItem(b: Block, key: nat)
    requires TreeOK(b) && key <= MAX_KEY && Ready(b, key, 0, true, true) && |LeafFor(b, key)| == 1
    ensures b.level == 0 && |Items(b)| == 1
  {
    hide Shape, Ready, ItemsBefore, ItemsAfter, StartFor, EndFor, WithLeaf;
    ReadyLeaf(b, key, 0, MAX_KEY, 0, true, true);
    LeafIs(b, key, 0, MAX_KEY);
    EntriesAreSmall(0, LeafFor(b, key), StartFor(b, key, 0), EndFor(b, key, MAX_KEY));
    TotalBounds(LeafFor(b, key));
    AtLeaf(b, key, 0, MAX_KEY, []);
  }

  lemma {:induction false} AdvancesOK(b: Block, b': Block, key: nat)
    requires Advances(b, b', 0, MAX_KEY, key, true)
    ensures TreeOK(b') && Items(b') == Items(b) && Less(MeasureOf(b', key), MeasureOf(b, key))
  {
  }

  lemma {:induction false} RootSplitOK(r: Block, left: seq<Entry>, right: seq<Entry>, key: nat, len: nat)
    requires TreeOK(r) && Heavy(r) && Halves(r, left, right, len) && key <= MAX_KEY
    ensures left != []
    ensures var r' := Block(r.level + 1, [Child(left[|left| - 1].key, Block(r.level, left)), Child(MAX_KEY, Block(r.level, right))]);
            TreeOK(r') && Items(r') == Items(r) && Less(MeasureOf(r', key), MeasureOf(r, key))
  {
    hide Less, MeasureOf, Items, OK;
    HalvesIs(r, left, right, len);
    RootSplits(r, left, right, key, len);
  }

  class Tree {
    /** The root block, when the height is not zero. */
    var root: Option<Block>

    ghost predicate Valid()
      reads this
    {
      root.Some? ==> TreeOK(root.value)
    }

    ghost function Contents(): map<nat, seq<nat>>
      reads this
    {
      if root.Some? then AllOf(root.value) else map[]
    }

    constructor ()
      ensures Valid() && Contents() == map[]
    {
      root := None;
    }

    /** Walks to the leaf for a key, splitting and joining on the way, until a walk arrives without having changed a block. */
    method Walk(key: nat, len: nat, del: bool)
      requires Valid() && root.Some? && key <= MAX_KEY && len <= MAX_VAL_LEN
      modifies this
      ensures Valid() && root.Some? && Items(root.value) == old(Items(root.value))
      ensures Ready(root.value, key, len, del, true)
    {
      hide OK, Items, Advances, Ready, HeavyCount, HeavyDepth, Blocks, Slack, Halves, Full, Heavy;
      ghost var items := Items(root.value);
      ghost var m := MeasureOf(root.value, key);
      while true
        invariant Valid() && root.Some? && Items(root.value) == items && m == MeasureOf(root.value, key)
        decreases m.heavy, m.depth, m.blocks, m.slack
      {
        var b := root.value;
        var fragmented: bool := *;
        if Full(b, len) || (fragmented && Heavy(b)) {
          if Full(b, len) { FullIsHeavy(b, len); }
          var left, right := SplitBlock(b, len, 0, MAX_KEY);
          RootSplitOK(b, left, right, key, len);
          var max := Child(MAX_KEY, Block(b.level, right));
          root := Some(Block(b.level + 1, [Child(left[|left| - 1].key, Block(b.level, left)), max]));
        } else {
          var r := Descend(b, key, len, del, true, 0, MAX_KEY);
          if r.Arrived? {
            return;
          }
          AdvancesOK(b, r.block, key);
          root := Some(r.block);
        }
        m := MeasureOf(root.value, key);
      }
    }

    method Lookup(key: nat) returns (ret: int, val: seq<nat>)
      requires Valid() && key <= MAX_KEY
      ensures ret in {0, ENOENT} && (ret == 0 <==> key in Contents()) && (ret == 0 ==> val == Contents()[key])
    {
      if root.None? {
        return ENOENT, [];
      }
      LeafSpeaks(root.value, key);
      var leaf := LeafFor(root.value, key);
      if HasKey(leaf, key) {
        return 0, ValueOf(leaf[Below(leaf, key)]);
      }
      return ENOENT, [];
    }

    /** Walks for an insertion, which starts an empty tree with an empty leaf. */
    method WalkInsert(key: nat, len: nat)
      requires Valid() && key <= MAX_KEY && len <= MAX_VAL_LEN
      modifies this
      ensures Valid() && root.Some? && Contents() == old(Contents())
      ensures Total(LeafFor(root.value, key)) + ItemLenBytes(len) <= Capacity(0)
    {
      hide ToMap, Items, LeafFor, Total, Ready;
      if root.None? {
        root := Some(Block(0, []));
        EmptyLeaf();
      }
      Walk(key, len, false);
      ReadyLeaf(root.value, key, 0, MAX_KEY, len, false, true);
    }

    method Insert(key: nat, val: seq<nat>) returns (ret: int)
      requires Valid() && key <= MAX_KEY
      modifies this
      ensures Valid() && ret in {0, EEXIST, EINVAL}
      ensures ret == EINVAL <==> |val| > MAX_VAL_LEN
      ensures ret == EEXIST <==> |val| <= MAX_VAL_LEN && key in old(Contents())
      ensures Contents() == if ret == 0 then old(Contents())[key := val] else old(Contents())
    {
      hide TreeOK, AllOf, LeafFor, WithLeaf, HasKey, PutItem, Total;
      if |val| > MAX_VAL_LEN {
        return EINVAL;
      }
      WalkInsert(key, |val|);
      LeafSpeaks(root.value, key);
      var leaf := LeafFor(root.value, key);
      if HasKey(leaf, key) {
        return EEXIST;
      }
      PutChanges(root.value, key, val);
      root := Some(WithLeaf(root.value, key, PutItem(leaf, key, val)));
      return 0;
    }

    method Update(key: nat, val: seq<nat>) returns (ret: int)
      requires Valid() && key <= MAX_KEY
      modifies this
      ensures Valid() && ret in {0, ENOENT, EINVAL}
      ensures ret == EINVAL <==> |val| > MAX_VAL_LEN
      ensures ret == ENOENT <==> |val| <= MAX_VAL_LEN && key !in old(Contents())
      ensures Contents() == if ret == 0 then old(Contents())[key := val] else old(Contents())
    {
      hide TreeOK, AllOf, LeafFor, WithLeaf, HasKey, PutItem, Total;
      if |val| > MAX_VAL_LEN {
        return EINVAL;
      }
      WalkInsert(key, |val|);
      LeafSpeaks(root.value, key);
      var leaf := LeafFor(root.value, key);
      if !HasKey(leaf, key) {
        return ENOENT;
      }
      PutChanges(root.value, key, val);
      root := Some(WithLeaf(root.value, key, PutItem(leaf, key, val)));
      return 0;
    }

    method Force(key: nat, val: seq<nat>) returns (ret: int)
      requires Valid() && key <= MAX_KEY
      modifies this
      ensures Valid() && ret == (if |val| > MAX_VAL_LEN then EINVAL else 0)
      ensures Contents() == if ret == 0 then old(Contents())[key := val] else old(Contents())
    {
      hide TreeOK, AllOf, LeafFor, WithLeaf, HasKey, PutItem, Total;
      if |val| > MAX_VAL_LEN {
        return EINVAL;
      }
      WalkInsert(key, |val|);
      PutChanges(root.value, key, val);
      root := Some(WithLeaf(root.value, key, PutItem(LeafFor(root.value, key), key, val)));
      return 0;
    }

    /** Deletes an item; the whole tree goes only with its last item. */
    method Delete(key: nat) returns (ret: int)
      requires Valid() && key <= MAX_KEY
      modifies this
      ensures Valid() && ret in {0, ENOENT} && (ret == 0 <==> key in old(Contents()))
      ensures Contents() == old(Contents()) - {key}
      ensures old(root).Some? && root.None? ==> ret == 0 && |old(Items(root.value))| == 1
    {
      hide TreeOK, AllOf, LeafFor, WithLeaf, HasKey, RemoveItem, Ready, Items;
      if root.None? {
        return ENOENT;
      }
      Walk(key, 0, true);
      LeafSpeaks(root.value, key);
      SameItems(old(root).value, root.value);
      var leaf := LeafFor(root.value, key);
      if !HasKey(leaf, key) {
        return ENOENT;
      }
      if |leaf| == 1 {
        LastItem(root.value, key);
        OneItemMap(root.value, key);
        root := None;
      } else {
        HasOne(leaf, key);
        RemoveChanges(root.value, key);
        root := Some(WithLeaf(root.value, key, RemoveItem(leaf, key)));
      }
      return 0;
    }

    /** Puts sorted items, staying in a leaf while the next key is in its range and there is room. */
    method InsertList(lst: seq<Entry>)
      requires Valid() && Increasing(lst) && AllItems(lst) && InRange(lst, 0, MAX_KEY)
      modifies this
      ensures Valid() && Contents() == PutAll(old(Contents()), lst)
    {
      hide TreeOK, AllOf, LeafFor, WithLeaf, PutItem, Total, StartFor, EndFor, Increasing;
      var n := 0;
      assert lst[..0] == [];
      while n < |lst|
        invariant n <= |lst| && Valid() && Contents() == PutAll(old(Contents()), lst[..n])
      {
        var key, first := lst[n].key, n;
        WalkInsert(key, |lst[n].val|);
        TreeLeaf(root.value, key);
        var end := EndFor(root.value, key, MAX_KEY);
        var more := true;
        while more
          invariant n <= |lst| && Valid() && root.Some? && Contents() == PutAll(old(Contents()), lst[..n])
          invariant EndFor(root.value, key, MAX_KEY) == end && StartFor(root.value, key, 0) <= key
          invariant n >= first && (!more ==> n > first)
          invariant more ==> && n < |lst| && key <= lst[n].key <= end
                             && Total(LeafFor(root.value, key)) + ItemLenBytes(|lst[n].val|) <= Capacity(0)
          decreases |lst| - n
        {
          var leaf := LeafFor(root.value, key);
          PutInLeaf(root.value, key, lst[n].key, lst[n].val);
          root := Some(WithLeaf(root.value, key, PutItem(leaf, lst[n].key, lst[n].val)));
          assert lst[..n + 1][..n] == lst[..n];
          n := n + 1;
          leaf := LeafFor(root.value, key);
          // free space in pieces is not room for the next item
          var fragmented: bool := *;
          more := n < |lst| && lst[n].key <= end && !fragmented && Total(leaf) + ItemLenBytes(|lst[n].val|) <= Capacity(0);
          if n < |lst| { KeyOrder(lst, first, n); }
        }
      }
      assert lst[..n] == lst;
    }
  }

  /** The map after items were put one after the other. */
  ghost function PutAll(m: map<nat, seq<nat>>, lst: seq<Entry>): map<nat, seq<nat>> {
    if lst == [] then m else PutAll(m, lst[..|lst| - 1])[lst[|lst| - 1].key := ValueOf(lst[|lst| - 1])]
  }

  /** Putting an item in a leaf whose range it is in. */
  lemma {:induction false} PutInLeaf(b: Block, key: nat, key': nat, val: seq<nat>)
    requires TreeOK(b) && key <= MAX_KEY && |val| <= MAX_VAL_LEN && StartFor(b, key, 0) <= key' <= EndFor(b, key, MAX_KEY)
    requires Total(LeafFor(b, key)) + ItemLenBytes(|val|) <= Capacity(0)
    ensures var b' := WithLeaf(b, key, PutItem(LeafFor(b, key), key', val));
            && TreeOK(b') && AllOf(b') == AllOf(b)[key' := val]
            && EndFor(b', key, MAX_KEY) == EndFor(b, key, MAX_KEY) && StartFor(b', key, 0) == StartFor(b, key, 0)
  {
    hide Shape, AllOf, LeafFor, WithLeaf, PutItem, Total, StartFor, EndFor;
    var es := PutItem(LeafFor(b, key), key', val);
    LeafIs(b, key, 0, MAX_KEY);
    SameLeaf(b, key, key', 0, MAX_KEY, es);
    PutChanges(b, key', val);
    FindsChanged(b, key, 0, MAX_KEY, es);
  }

  lemma {:induction false} EmptyLeaf()
    ensures TreeOK(Block(0, [])) && AllOf(Block(0, [])) == map[]
  {
  }

  lemma {:induction false} SameItems(a: Block, b: Block)
    requires Items(a) == Items(b)
    ensures AllOf(a) == AllOf(b)
  {
  }

  lemma {:induction false} HasOne(es: seq<Entry>, key: nat)
    requires HasKey(es, key)
    ensures es != []
  {
  }

  lemma {:induction false} OneItemMap(b: Block, key: nat)
    requires |Items(b)| == 1 && key in AllOf(b)
    ensures AllOf(b) - {key} == map[]
  {
    ToMapOne(Items(b)[0]);
    assert Items(b) == [Items(b)[0]];
  }
}
