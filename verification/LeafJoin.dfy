/**
  A leaf with too few items takes some of its neighbour's. It gathers its free space
  first when there is less in the middle than the bytes it asks for; the last item
  that moves can be more than that.
*/
module LeafJoin {
  import opened Avl
  import opened LeafValues
  import opened LeafArea
  import opened LeafItems
  import opened LeafBlock
  import opened LeafMove
  import LeafHash
  import BTree

  /** The items that are to move do not fit in the middle, and nothing is gathered. */
  ghost predicate RunsOut(bt: Leaf, sib: Leaf, right: bool)
    reads bt, bt.area, bt.area.mem, bt.avl, bt.buckets, sib, sib.area, sib.area.mem, sib.avl, sib.buckets
    requires bt.Valid() && sib.Valid()
  {
    && bt.area.total <= bt.area.midLen
    && bt.area.midLen < MovedBytes(InKeyOrder(sib), sib.Contents(), right, bt.area.total)
  }

  lemma RunsOutIs(bt: Leaf, sib: Leaf, right: bool)
    requires bt.Valid() && sib.Valid()
    ensures |sib.keys| == |sib.area.vals| && |bt.keys| == |bt.area.vals|
    ensures RunsOut(bt, sib, right) <==>
              && bt.area.total <= bt.area.midLen
              && bt.area.midLen < MovedBytes(InKeyOrder(sib), sib.Contents(), right, bt.area.total)
  {
  }

  method Compact(l: Leaf)
    requires l.Valid()
    modifies l.area, l.area.mem
    ensures l.Valid() && l.Contents() == old(l.Contents()) && InKeyOrder(l) == old(InKeyOrder(l))
    ensures l.area.total == old(l.area.total) && HEADER_BYTES + l.area.total + l.area.midLen == LEAF_END
  {
    hide Hashed, Sorted, MapOf, InOrder, Balanced, KeysOf, Heap, UsedLen, TotalOf, LastFree;
    ghost var values := l.area.Values();
    l.area.CompactValues();
    assert l.area.Values() == values && |l.area.vals| == |values|;
  }

  /**
    Moves items from a sibling into a leaf that is less than a quarter full. Both keep
    everything, and the sibling loses an end of its items. `bug` says that an item
    did not fit, which happens exactly when the leaf runs out.
  */
  method JoinLeaf(bt: Leaf, sib: Leaf, right: bool) returns (bug: bool, ghost moved: nat, ghost n: nat)
    requires bt.Valid() && sib.Valid() && Apart(bt, sib) && Beside(InKeyOrder(sib), InKeyOrder(bt), right)
    requires SmallValues(sib.Contents())
    modifies bt, bt.area, bt.area.mem, bt.avl, bt.buckets, sib, sib.area, sib.area.mem, sib.avl, sib.buckets
    ensures bt.Valid() && sib.Valid() && Neighbours(Seen(sib, bt), right)
    ensures bug <==> old(bt.area.total) < BTree.WATERMARK && old(RunsOut(bt, sib, right))
    ensures old(bt.area.total) >= BTree.WATERMARK ==> Seen(sib, bt) == old(Seen(sib, bt)) && moved == 0
    ensures old(bt.area.total) < BTree.WATERMARK ==>
              Moving(old(Seen(sib, bt)), Seen(sib, bt), right, old(bt.area.total), moved, n)
    ensures bt.area.total == old(bt.area.total) + moved && sib.area.total == old(sib.area.total) - moved
    ensures !bug && old(bt.area.total) < BTree.WATERMARK ==> moved >= old(bt.area.total) || InKeyOrder(sib) == []
  {
    hide *;
    ghost var v := Seen(sib, bt);
    SeenIs(sib, bt);
    LeavesSeen(sib, bt, right);
    RunsOutIs(bt, sib, right);
    bug, moved, n := false, 0, 0;
    if bt.area.total >= BTree.WATERMARK {
      return;
    }
    var toMove := bt.area.total;
    MovedBound(InKeyOrder(sib), sib.Contents(), right, toMove);
    ItemBound();
    ApartIs(bt, sib);
    if bt.area.midLen < toMove {
      Compact(bt);
      SeenIs(sib, bt);
    }
    bug, moved, n := MoveItems(bt, sib, right, toMove);
  }

  // ---- a leaf that runs out

  /** The first item's value is where the middle ends, and the others are large and above it. */
  ghost predicate Below(l: Leaf)
    reads l, l.area
  {
    && |l.area.vals| > 0 && l.area.vals[0] == Slot(l.area.MidEnd(), 860)
    && forall i :: 0 < i < |l.area.vals| ==> l.area.vals[i].off > l.area.MidEnd() && l.area.vals[i].len == 896
  }

  ghost predicate KeysIn(l: Leaf, lo: nat, hi: nat)
    reads l, l.area, l.area.mem
  {
    |l.keys| == |l.area.vals| && forall k :: k in l.Contents() ==> lo <= k < hi
  }

  lemma Sizes()
    ensures ItemLenBytes(896) == 936 && ItemLenBytes(860) == 900 && ITEM_BYTES == 38 && LEAF_END - HEADER_BYTES == 61127
    ensures MAX_VAL_LEN == 896 && LeafHash.HASH_NR == 2182
  {
  }

  /** An item that is not there, and that the middle has room for, is inserted. */
  method Put(l: Leaf, key: nat, len: nat)
    requires l.Valid() && key !in l.Contents() && 0 < len <= MAX_VAL_LEN && l.area.midLen >= ItemLenBytes(len)
    modifies l, l.area, l.area.mem, l.avl, l.buckets
    ensures l.Valid() && l.keys == old(l.keys) + [key] && l.Contents() == old(l.Contents())[key := seq(len, _ => 0)]
    ensures l.area.midLen == old(l.area.midLen) - ItemLenBytes(len) && l.area.total == old(l.area.total) + ItemLenBytes(len)
    ensures l.area.vals == old(l.area.vals) + [Slot(l.area.MidEnd(), len)]
  {
    hide Leaf.Valid, MapOf, ItemLenBytes, FullPct, ValueArea.MidEnd;
    LeafSorted(l);
    var ret, split := l.Insert(key, seq(len, _ => 0));
    LeafSorted(l);
  }

  /** Fills a new leaf with values of the largest size. */
  method FillLeaf(hash: nat -> nat) returns (l: Leaf)
    requires forall k :: hash(k) < LeafHash.HASH_NR
    ensures l.Valid() && fresh(l) && fresh(l.area) && fresh(l.area.mem) && fresh(l.avl) && fresh(l.buckets)
    ensures |l.area.vals| == 64 && l.area.midLen == 61127 - 936 * 64 && l.area.total == 936 * 64
    ensures forall j :: 0 <= j < 64 ==> l.area.vals[j].off >= l.area.MidEnd() && l.area.vals[j].len == 896
    ensures KeysIn(l, 1000, 1064)
  {
    hide Leaf.Valid, MapOf, ItemLenBytes, FullPct;
    Sizes();
    l := new Leaf(hash);
    var i := 0;
    while i < 64
      invariant i <= 64 && l.Valid() && fresh(l) && fresh(l.area) && fresh(l.area.mem) && fresh(l.avl) && fresh(l.buckets)
      invariant |l.area.vals| == i && l.area.midLen == 61127 - 936 * i && l.area.total == 936 * i
      invariant forall j :: 0 <= j < i ==> l.area.vals[j].off >= l.area.MidEnd() && l.area.vals[j].len == 896
      invariant KeysIn(l, 1000, 1000 + i)
    {
      Put(l, 1000 + i, 896);
      LeafSorted(l);
      i := i + 1;
    }
  }

  /** Deletes all items but the first, whose value keeps the freed values out of the middle. */
  method EmptyLeaf(l: Leaf)
    requires l.Valid() && Below(l) && KeysIn(l, 1000, 2001)
    modifies l, l.area, l.area.mem, l.avl, l.buckets
    ensures l.Valid() && KeysIn(l, 1000, 2001) && |l.area.vals| == 1
    ensures l.area.midLen == old(l.area.midLen) + 38 * (|old(l.area.vals)| - 1)
    ensures l.area.total == old(l.area.total) - 936 * (|old(l.area.vals)| - 1)
  {
    hide Leaf.Valid, MapOf, ItemLenBytes;
    Sizes();
    LeafSorted(l);
    ghost var n := |l.area.vals|;
    while |l.area.vals| > 1
      invariant l.Valid() && Below(l) && KeysIn(l, 1000, 2001) && |l.keys| == |l.area.vals| <= n
      invariant l.area.midLen == old(l.area.midLen) + 38 * (n - |l.area.vals|)
      invariant l.area.total == old(l.area.total) - 936 * (n - |l.area.vals|)
      decreases |l.area.vals|
    {
      ValueIs(l, |l.keys| - 1);
      var after := l.DeleteItem(|l.keys| - 1, 0);
      LeafSorted(l);
    }
  }

  /** Puts a smaller value below the large ones, first in the item array. */
  method PutBelow(l: Leaf)
    requires l.Valid() && |l.area.vals| == 64 && l.area.midLen == 61127 - 936 * 64 && l.area.total == 936 * 64
    requires forall j :: 0 <= j < 64 ==> l.area.vals[j].off >= l.area.MidEnd() && l.area.vals[j].len == 896
    requires KeysIn(l, 1000, 1064)
    modifies l, l.area, l.area.mem, l.avl, l.buckets
    ensures l.Valid() && Below(l) && KeysIn(l, 1000, 2001)
    ensures |l.area.vals| == 64 && l.area.midLen == 61127 - 936 * 64 - 900 + 38 && l.area.total == 936 * 63 + 900
  {
    hide Leaf.Valid, MapOf, ItemLenBytes;
    Sizes();
    Put(l, 2000, 860);
    LeafSorted(l);
    ValueIs(l, 0);
    var after := l.DeleteItem(0, 0);
    LeafSorted(l);
  }

  /** Items are inserted and deleted until the free space is above the values of two items. */
  method Fragmented(hash: nat -> nat) returns (bt: Leaf)
    requires forall k :: hash(k) < LeafHash.HASH_NR
    ensures bt.Valid() && fresh(bt) && fresh(bt.area) && fresh(bt.area.mem) && fresh(bt.avl) && fresh(bt.buckets)
    ensures KeysIn(bt, 1000, 2002) && bt.area.total == 1800 && bt.area.midLen == 1855
  {
    hide Leaf.Valid, MapOf, ItemLenBytes, Below;
    Sizes();
    bt := FillLeaf(hash);
    PutBelow(bt);
    EmptyLeaf(bt);
    LeafSorted(bt);
    Put(bt, 2001, 860);
    LeafSorted(bt);
  }

  /** A neighbour with two items of the largest size. */
  method TwoItems(hash: nat -> nat) returns (sib: Leaf)
    requires forall k :: hash(k) < LeafHash.HASH_NR
    ensures sib.Valid() && fresh(sib) && fresh(sib.area) && fresh(sib.area.mem) && fresh(sib.avl) && fresh(sib.buckets)
    ensures sib.keys == [1, 2] && |sib.keys| == |sib.area.vals|
    ensures sib.Contents() == map[1 := seq(896, _ => 0), 2 := seq(896, _ => 0)]
  {
    hide Leaf.Valid, MapOf, ItemLenBytes, ValueArea.MidEnd;
    Sizes();
    sib := new Leaf(hash);
    Put(sib, 1, 896);
    LeafSorted(sib);
    Put(sib, 2, 896);
    LeafSorted(sib);
  }

  lemma {:induction false} TwoInOrder(sib: Leaf)
    requires sib.Valid() && sib.keys == [1, 2]
    ensures InKeyOrder(sib) == [1, 2]
  {
    hide Leaf.Valid, InKeyOrder;
    LeafOrder(sib);
    RisingSame(InKeyOrder(sib), [1, 2]);
  }

  lemma {:induction false} TwoMove(m: map<nat, seq<nat>>)
    requires m == map[1 := seq(896, _ => 0), 2 := seq(896, _ => 0)]
    ensures MovedBytes([1, 2], m, true, 1800) == 1872 && SmallValues(m)
  {
    hide MovedBytes;
    assert Without([1, 2], true) == [1] && Without([1], true) == [];
    BytesUnfold([1, 2], m, true, 1800);
    BytesUnfold([1], m, true, 864);
    MovedNone(m, -72);
  }

  lemma MovedNone(m: map<nat, seq<nat>>, toMove: int)
    ensures MovedBytes([], m, true, toMove) == 0
  {
  }

  /** Leaves that inserts and deletes lead to, and that a join does not survive. */
  method JoinRunsOut(hash: nat -> nat) returns (bt: Leaf, sib: Leaf)
    requires forall k :: hash(k) < LeafHash.HASH_NR
    ensures bt.Valid() && sib.Valid() && Apart(bt, sib) && Beside(InKeyOrder(sib), InKeyOrder(bt), true)
    ensures bt.area.total < BTree.WATERMARK && SmallValues(sib.Contents()) && RunsOut(bt, sib, true)
  {
    hide Leaf.Valid, MapOf, Apart, MovedBytes, KeysOf, InOrder, Rising, SmallValues;
    bt := Fragmented(hash);
    sib := TwoItems(hash);
    MakeApart(bt, sib);
    LeafSorted(sib);
    TwoInOrder(sib);
    TwoMove(sib.Contents());
    LeafOrder(bt);
  }
}
