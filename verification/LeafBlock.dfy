/** A leaf block: its item array, hash table, tree of items and values, changed together. */
module LeafBlock {
  import opened Avl
  import opened AvlNodes
  import opened AvlRename
  import opened AvlProofs
  import opened LeafValues
  import opened LeafArea
  import opened LeafItems
  import opened Errno
  import LeafHash
  import AvlRoot

  ghost predicate NoRepeats(keys: seq<nat>) {
    forall i, j :: 0 <= i < j < |keys| ==> keys[i] != keys[j]
  }

  /** What the items map their keys to. */
  function MapOf(keys: seq<nat>, values: seq<seq<nat>>): map<nat, seq<nat>>
    requires |keys| == |values|
  {
    if keys == [] then map[]
    else MapOf(keys[..|keys| - 1], values[..|keys| - 1])[keys[|keys| - 1] := values[|keys| - 1]]
  }

  lemma {:induction false} MapOfAt(keys: seq<nat>, values: seq<seq<nat>>)
    requires |keys| == |values| && NoRepeats(keys)
    ensures forall k :: k in MapOf(keys, values) <==> k in keys
    ensures forall i :: 0 <= i < |keys| ==> keys[i] in MapOf(keys, values) && MapOf(keys, values)[keys[i]] == values[i]
  {
    if keys != [] {
      var n := |keys| - 1;
      MapOfAt(keys[..n], values[..n]);
      forall i | 0 <= i < |keys| ensures keys[i] in MapOf(keys, values) && MapOf(keys, values)[keys[i]] == values[i] {
        if i < n { assert keys[..n][i] == keys[i] && values[..n][i] == values[i]; }
      }
    }
  }

  lemma {:induction false} MapOfAppend(keys: seq<nat>, values: seq<seq<nat>>, k: nat, v: seq<nat>)
    requires |keys| == |values|
    ensures MapOf(keys + [k], values + [v]) == MapOf(keys, values)[k := v]
  {
    assert (keys + [k])[..|keys|] == keys && (values + [v])[..|keys|] == values;
  }

  lemma {:induction false} MapOfUpdate(keys: seq<nat>, values: seq<seq<nat>>, k: nat, v: seq<nat>)
    requires |keys| == |values| && NoRepeats(keys) && k < |keys|
    ensures MapOf(keys, values[k := v]) == MapOf(keys, values)[keys[k] := v]
  {
    hide MapOf;
    var m, m' := MapOf(keys, values), MapOf(keys, values[k := v]);
    MapOfAt(keys, values);
    MapOfAt(keys, values[k := v]);
    forall x | x in m' ensures m'[x] == m[keys[k] := v][x] {
      assert x in keys;
      var i :| 0 <= i < |keys| && keys[i] == x;
    }
  }

  lemma {:induction false} SwapRemoveNoRepeats(keys: seq<nat>, k: nat)
    requires NoRepeats(keys) && k < |keys|
    ensures NoRepeats(SwapRemove(keys, k))
    ensures forall x :: x in SwapRemove(keys, k) <==> x in keys && x != keys[k]
  {
    var r, e := SwapRemove(keys, k), |keys| - 1;
    forall x ensures x in r <==> x in keys && x != keys[k] {
      if x in r {
        var i :| 0 <= i < |r| && r[i] == x;
        assert x == keys[if i == k then e else i];
      }
      if x in keys && x != keys[k] {
        var i :| 0 <= i < |keys| && keys[i] == x;
        assert r[if i == e then k else i] == x;
      }
    }
  }

  lemma {:induction false} MapOfSwapRemove(keys: seq<nat>, values: seq<seq<nat>>, k: nat)
    requires |keys| == |values| && NoRepeats(keys) && k < |keys|
    ensures MapOf(SwapRemove(keys, k), SwapRemove(values, k)) == MapOf(keys, values) - {keys[k]}
  {
    hide MapOf, NoRepeats;
    var m, m', r := MapOf(keys, values), MapOf(SwapRemove(keys, k), SwapRemove(values, k)), SwapRemove(keys, k);
    SwapRemoveNoRepeats(keys, k);
    MapOfAt(keys, values);
    MapOfAt(r, SwapRemove(values, k));
    forall x | x in m' ensures x in m && x != keys[k] && m'[x] == m[x] {
      assert x in r;
      var i :| 0 <= i < |r| && r[i] == x;
      var j := if i == k then |keys| - 1 else i;
      assert keys[j] == x && SwapRemove(values, k)[i] == values[j];
    }
  }

  /** Items in increasing order have different keys. */
  lemma {:induction false} SortedNoRepeats(order: seq<nat>, keys: seq<nat>)
    requires Sorted(order, keys)
    ensures NoRepeats(keys)
  {
    hide Increasing;
    forall i, j | 0 <= i < j < |keys| ensures keys[i] != keys[j] {
      ItemIs(|keys|, i);
      ItemIs(|keys|, j);
      ItemsDiffer(i, j);
      KeyAtItem(keys, i);
      KeyAtItem(keys, j);
      var p: nat, q: nat :| p < |order| && q < |order| && order[p] == ItemOff(i) && order[q] == ItemOff(j);
      IncreasingAt(order, keys, p, q);
    }
  }

  lemma {:induction false} IncreasingAt(order: seq<nat>, keys: seq<nat>, p: nat, q: nat)
    requires Increasing(order, keys) && p < |order| && q < |order| && p != q
    ensures KeyAt(keys, order[p]) != KeyAt(keys, order[q])
  {
    if p < q {
      assert KeyAt(keys, order[p]) < KeyAt(keys, order[q]);
    } else {
      assert KeyAt(keys, order[q]) < KeyAt(keys, order[p]);
    }
  }

  function KeyOf(keys: seq<nat>): nat -> nat {
    (off: nat) => KeyAt(keys, off)
  }

  /** How a key compares with the key of the item at an offset. */
  function Compare(keys: seq<nat>, key: nat): nat -> int {
    (off: nat) => if key < KeyAt(keys, off) then -1 else if key > KeyAt(keys, off) then 1 else 0
  }

  lemma {:induction false} SortedIsOrdered(order: seq<nat>, keys: seq<nat>, key: nat)
    requires Sorted(order, keys)
    ensures Ordered(Compare(keys, key), order)
  {
    hide KeyAt;
    forall i, j | 0 <= i < j < |order| ensures Compare(keys, key)(order[i]) > 0 || Compare(keys, key)(order[j]) < 0 {
      assert KeyAt(keys, order[i]) < KeyAt(keys, order[j]);
    }
  }

  lemma {:induction false} ItemInKeys(keys: seq<nat>, off: nat)
    requires IsItem(|keys|, off)
    ensures KeyAt(keys, off) in keys
  {
    var i: nat :| i < |keys| && off == ItemOff(i);
    KeyAtItem(keys, i);
  }

  lemma {:induction false} NotHashed(b: seq<nat>, keys: seq<nat>, key: nat)
    requires forall off :: LeafHash.Holds(b, off) <==> IsItem(|keys|, off)
    requires forall off :: LeafHash.Holds(b, off) ==> KeyOf(keys)(off) != key
    ensures key !in keys
  {
    forall i: nat | i < |keys| ensures keys[i] != key {
      ItemIs(|keys|, i);
      KeyAtItem(keys, i);
      assert LeafHash.Holds(b, ItemOff(i));
    }
  }

  /** What a search of either kind promises: the item with the key, or zero when there is none. */
  ghost predicate Found(keys: seq<nat>, key: nat, off: nat) {
    if key in keys then IsItem(|keys|, off) && KeyAt(keys, off) == key else off == 0
  }

  /** Keys are different, so there is one answer. */
  lemma {:induction false} FoundOne(order: seq<nat>, keys: seq<nat>, key: nat, x: nat, y: nat)
    requires Sorted(order, keys) && Found(keys, key, x) && Found(keys, key, y)
    ensures x == y
  {
    if key in keys {
      var i: nat, j: nat :| i < |keys| && j < |keys| && x == ItemOff(i) && y == ItemOff(j);
      KeyAtItem(keys, i);
      KeyAtItem(keys, j);
      SortedNoRepeats(order, keys);
    }
  }

  lemma {:induction false} NotFoundAnywhere(c: Context, keys: seq<nat>, key: nat)
    requires Sorted(Before(c) + After(c), keys)
    requires AllAbove(Compare(keys, key), Before(c)) && AllBelow(Compare(keys, key), After(c))
    ensures key !in keys
    ensures forall i :: 0 <= i < |Before(c)| ==> KeyAt(keys, Before(c)[i]) < key
    ensures forall i :: 0 <= i < |After(c)| ==> key < KeyAt(keys, After(c)[i])
  {
    forall i | 0 <= i < |Before(c)| ensures KeyAt(keys, Before(c)[i]) < key {
      assert Compare(keys, key)(Before(c)[i]) > 0;
    }
    forall i | 0 <= i < |After(c)| ensures key < KeyAt(keys, After(c)[i]) {
      assert Compare(keys, key)(After(c)[i]) < 0;
    }
    forall i: nat | i < |keys| ensures keys[i] != key {
      ItemIs(|keys|, i);
      KeyAtItem(keys, i);
      assert ItemOff(i) in Before(c) + After(c);
    }
  }

  /** A search of the tree tells whether there is an item with the key. */
  lemma {:induction false} TreeFound(tree: Tree, keys: seq<nat>, key: nat, off: nat, c: Context)
    requires Sorted(InOrder(tree), keys)
    requires off != 0 ==> off in InOrder(tree) && Compare(keys, key)(off) == 0
    requires off == 0 ==> && tree == Plug(c, Tree.Leaf)
                          && AllAbove(Compare(keys, key), Before(c)) && AllBelow(Compare(keys, key), After(c))
    ensures Found(keys, key, off)
  {
    hide KeyAt, IsItem, Increasing, Before, After, Plug;
    if off != 0 {
      ItemInKeys(keys, off);
    } else {
      PlugInOrder(c, Tree.Leaf);
      assert InOrder(tree) == Before(c) + After(c);
      NotFoundAnywhere(c, keys, key);
    }
  }

  lemma {:induction false} EmptyHashed(b: seq<nat>, hash: nat -> nat)
    requires |b| > 0 && (forall i :: 0 <= i < |b| ==> b[i] == 0) && forall k :: hash(k) < |b|
    ensures Hashed(b, [], hash)
  {
    HomesAny(b, [], hash);
  }

  /** The place in the item array of the item at an offset. */
  function IndexOf(off: nat): nat {
    if off < HEADER_BYTES then 0 else (off - HEADER_BYTES) / ITEM_BYTES
  }

  lemma {:induction false} FoundAt(keys: seq<nat>, key: nat, off: nat)
    requires Found(keys, key, off)
    ensures off == 0 <==> key !in keys
    ensures key in keys ==> IndexOf(off) < |keys| && keys[IndexOf(off)] == key
  {
    if key in keys {
      var i: nat :| i < |keys| && off == ItemOff(i);
      KeyAtItem(keys, i);
    }
  }

  class Leaf {
    const area: ValueArea
    const avl: AvlRoot.Root
    const buckets: array<nat>
    const hash: nat -> nat
    /** The key of each item of the item array. */
    var keys: seq<nat>

    ghost predicate Valid()
      reads this, area, area.mem, avl, buckets
    {
      && area.mem != buckets && area.Valid() && area.end == LEAF_END && avl.Valid()
      && buckets.Length == LeafHash.HASH_NR && (forall k :: hash(k) < LeafHash.HASH_NR)
      && |keys| == |area.vals|
      && Hashed(buckets[..], keys, hash)
      && Sorted(InOrder(avl.tree), keys)
    }

    ghost function Contents(): map<nat, seq<nat>>
      reads this, area, area.mem
      requires |keys| == |area.vals|
    {
      MapOf(keys, area.Values())
    }

    constructor (hash: nat -> nat)
      requires forall k :: hash(k) < LeafHash.HASH_NR
      ensures Valid() && Contents() == map[] && keys == [] && fresh(area) && fresh(area.mem) && fresh(avl) && fresh(buckets)
      ensures area.vals == [] && area.total == 0 && area.midLen == LEAF_END - HEADER_BYTES && InOrder(avl.tree) == []
    {
      area := new ValueArea(LEAF_END);
      avl := new AvlRoot.Root();
      buckets := new nat[LeafHash.HASH_NR](_ => 0);
      this.hash := hash;
      keys := [];
      new;
      EmptyHashed(buckets[..], hash);
    }

    method HashSearch(key: nat) returns (off: nat)
      requires Valid()
      ensures Found(keys, key, off)
    {
      hide Sorted, LeafHash.Table, LeafHash.Holds, KeyAt, IsItem;
      off := LeafHash.Search(buckets, Home(keys, hash), KeyOf(keys), hash, key);
      if off != 0 {
        ItemInKeys(keys, off);
      } else {
        NotHashed(buckets[..], keys, key);
      }
    }

    /** Finds an item in the tree, or where it would be linked in. */
    method TreeSearch(key: nat) returns (off: nat, cmp: int, par: nat, ghost c: Context)
      requires Valid()
      ensures Found(keys, key, off)
      ensures off == 0 ==> && avl.tree == Plug(c, Tree.Leaf) && par == Parent(c) && (c.Top? || (cmp < 0 <==> c.InLeft?))
                           && AllAbove(Compare(keys, key), Before(c)) && AllBelow(Compare(keys, key), After(c))
    {
      hide Hashed, Sorted, Ordered, Before, After, Plug, InOrder, Compare, AllAbove, AllBelow, Found, Balanced;
      var next, prev;
      SortedIsOrdered(InOrder(avl.tree), keys, key);
      off, cmp, par, next, prev, c := avl.Search(Compare(keys, key));
      TreeFound(avl.tree, keys, key, off, c);
    }

    /** The hash table and the tree find the same item. */
    method SearchBoth(key: nat) returns (hashed: nat, treed: nat)
      requires Valid()
      ensures hashed == treed && Found(keys, key, hashed)
    {
      hashed := HashSearch(key);
      var cmp, par;
      ghost var c;
      treed, cmp, par, c := TreeSearch(key);
      FoundOne(InOrder(avl.tree), keys, key, hashed, treed);
    }

    /** Creates an item where a search for its key ended. */
    method CreateItem(key: nat, val: seq<nat>, par: nat, cmp: int, ghost c: Context)
      requires Valid() && area.midLen >= ItemLenBytes(|val|)
      requires avl.tree == Plug(c, Tree.Leaf) && par == Parent(c) && (c.Top? || (cmp < 0 <==> c.InLeft?))
      requires AllAbove(Compare(keys, key), Before(c)) && AllBelow(Compare(keys, key), After(c))
      modifies this, area, area.mem, avl, buckets
      ensures Valid() && keys == old(keys) + [key]
      ensures key !in old(Contents()) && Contents() == old(Contents())[key := val]
      ensures InOrder(avl.tree) == Before(c) + [ItemOff(|old(keys)|)] + After(c)
      ensures area.midLen == old(area.midLen) - ItemLenBytes(|val|) && area.total == old(area.total) + ItemLenBytes(|val|)
      ensures area.vals == old(area.vals) + [Slot(if val == [] then 0 else area.MidEnd(), |val|)]
    {
      hide Hashed, Sorted, MapOf, AllAbove, AllBelow, Before, After, InOrder, Plug, Balanced;
      ghost var order, values := InOrder(avl.tree), area.Values();
      AreaFits(area);
      SortedNoRepeats(order, keys);
      MapOfAt(keys, values);
      MapOfAppend(keys, values, key, val);
      CreateIndexed(key, par, cmp, c);
      area.CreateItem(val);
      keys := keys + [key];
    }

    /** Adds the next item of the array to the tree and the hash table. */
    method CreateIndexed(key: nat, par: nat, cmp: int, ghost c: Context)
      requires avl.Valid() && buckets.Length == LeafHash.HASH_NR && (forall x :: hash(x) < LeafHash.HASH_NR)
      requires |keys| < LeafHash.HASH_NR && Hashed(buckets[..], keys, hash) && Sorted(InOrder(avl.tree), keys)
      requires avl.tree == Plug(c, Tree.Leaf) && par == Parent(c) && (c.Top? || (cmp < 0 <==> c.InLeft?))
      requires AllAbove(Compare(keys, key), Before(c)) && AllBelow(Compare(keys, key), After(c))
      modifies avl, buckets
      ensures avl.Valid() && Hashed(buckets[..], keys + [key], hash) && Sorted(InOrder(avl.tree), keys + [key])
      ensures key !in keys && InOrder(avl.tree) == Before(c) + [ItemOff(|keys|)] + After(c)
    {
      hide Hashed, Sorted, AllAbove, AllBelow, Before, After, InOrder, Offs, Plug, SameOn, Balanced;
      CreateFits(c, avl.tree, keys, key);
      HashHasFree(buckets[..], keys, hash);
      var off := ItemOff(|keys|);
      avl.Insert(par, off, cmp, c);
      ghost var b := buckets[..];
      ghost var j := LeafHash.Insert(buckets, hash(key), off);
      CreateHashes(b, keys, hash, key, j);
    }

    /**
      Deletes an item; the last item of the array moves to its place in all of the
      structures. The caller can go on using one other item, which may be the one
      that moves.
    */
    method DeleteItem(k: nat, use: nat) returns (after: nat)
      requires Valid() && k < |keys|
      modifies this, area, area.mem, avl, buckets
      ensures Valid() && keys == SwapRemove(old(keys), k)
      ensures Contents() == old(Contents()) - {old(keys)[k]}
      ensures IsItem(|old(keys)|, use) && use != ItemOff(k) ==>
                IsItem(|keys|, after) && KeyAt(keys, after) == KeyAt(old(keys), use)
      ensures use == 0 ==> after == 0
      ensures area.total == old(area.total) - ItemLenBytes(|old(area.Values())[k]|) && area.vals == SwapRemove(old(area.vals), k)
      ensures area.midLen == old(area.midLen) + ITEM_BYTES
                             + if old(area.vals)[k].off == old(area.MidEnd()) then ValBytes(old(area.vals)[k].len) else 0
    {
      hide Hashed, Sorted, MapOf, InOrder, SwapRemove, IsItem, KeyAt, NoRepeats, Balanced, ItemOff, ItemLenBytes, ValBytes;
      ghost var ks := keys;
      SortedNoRepeats(InOrder(avl.tree), keys);
      MapOfSwapRemove(keys, area.Values(), k);
      AreaFits(area);
      DeleteIndexed(k);
      SwapRemoveIs(ks, keys, k);
      after := if use == ItemOff(|keys|) && k != |keys| then ItemOff(k) else use;
      UsedAfter(ks, k, use);
      SwapRemoveSize(area.vals, k);
      area.DeleteItem(k);
    }

    /** Makes room for an item in the leaf, or finds that it has to split. */
    method MakeRoom(valLen: nat) returns (room: bool)
      requires Valid() && valLen <= MAX_VAL_LEN
      modifies area, area.mem
      ensures Valid() && Contents() == old(Contents()) && area.total == old(area.total)
      ensures room <==> old(area.midLen) >= ItemLenBytes(valLen) || FullPct(area.total) < 80
      ensures room ==> area.midLen >= ItemLenBytes(valLen)
      ensures old(area.midLen) >= ItemLenBytes(valLen) ==> area.midLen == old(area.midLen) && area.vals == old(area.vals)
    {
      hide Hashed, Sorted, MapOf, InOrder, Balanced;
      ghost var values := area.Values();
      room := area.MakeRoom(valLen);
      assert area.Values() == values && |area.vals| == |values|;
    }

    /** Inserts an item: `split` says that the leaf has to be split first. */
    method Insert(key: nat, val: seq<nat>) returns (ret: int, split: bool)
      requires Valid() && |val| <= MAX_VAL_LEN
      modifies this, area, area.mem, avl, buckets
      ensures Valid()
      ensures split <==> old(area.midLen) < ItemLenBytes(|val|) && FullPct(old(area.total)) >= 80
      ensures ret == if !split && key in old(Contents()) then EEXIST else 0
      ensures Contents() == if split || key in old(Contents()) then old(Contents()) else old(Contents())[key := val]
      ensures !split && ret == 0 ==> keys == old(keys) + [key] && area.total == old(area.total) + ItemLenBytes(|val|)
      ensures !split && ret == 0 && old(area.midLen) >= ItemLenBytes(|val|) ==>
                && area.midLen == old(area.midLen) - ItemLenBytes(|val|)
                && area.vals == old(area.vals) + [Slot(if val == [] then 0 else area.MidEnd(), |val|)]
    {
      hide Hashed, Sorted, MapOf, InOrder, Balanced, Before, After, Plug, AllAbove, AllBelow, Compare;
      ret := 0;
      KeysInContents();
      var room := MakeRoom(|val|);
      split := !room;
      if split { return; }
      KeysInContents();
      var off := HashSearch(key);
      if off != 0 {
        ret := EEXIST;
        return;
      }
      var found, cmp, par;
      ghost var c;
      found, cmp, par, c := TreeSearch(key);
      CreateItem(key, val, par, cmp, c);
    }

    /** Gives an item another value; nothing else of the leaf changes. */
    method UpdateItem(k: nat, val: seq<nat>)
      requires Valid() && k < |keys| && area.RoomWithout(k) >= ValBytes(|val|)
      modifies area, area.mem
      ensures Valid() && Contents() == old(Contents())[keys[k] := val]
      ensures area.total + ItemLenBytes(|old(area.Values())[k]|) == old(area.total) + ItemLenBytes(|val|)
    {
      hide Hashed, Sorted, MapOf, InOrder, Balanced, Heap, LastFree, NoRepeats;
      ghost var values := area.Values();
      SortedNoRepeats(InOrder(avl.tree), keys);
      MapOfUpdate(keys, values, k, val);
      ValueLen(area.mem[..], area.vals, area.tiles, area.MidEnd(), area.end, k);
      area.UpdateValue(k, val);
    }

    /** Updates the value of an item: `split` says that the leaf has to be split first. */
    method Update(key: nat, val: seq<nat>) returns (ret: int, split: bool)
      requires Valid() && |val| <= MAX_VAL_LEN
      modifies this, area, area.mem, avl, buckets
      ensures Valid() && keys == old(keys)
      ensures split <==> old(area.midLen) < ItemLenBytes(|val|) && FullPct(old(area.total)) >= 80
      ensures ret == if !split && key !in old(Contents()) then ENOENT else 0
      ensures Contents() == if split || ret != 0 then old(Contents()) else old(Contents())[key := val]
    {
      hide Hashed, Sorted, MapOf, InOrder, Balanced, Found, FullPct;
      ret := 0;
      KeysInContents();
      var room := MakeRoom(|val|);
      split := !room;
      if split { return; }
      KeysInContents();
      var off := HashSearch(key);
      FoundAt(keys, key, off);
      if off == 0 {
        return ENOENT, false;
      }
      UpdateItem(IndexOf(off), val);
    }

    lemma KeysInContents()
      requires Valid()
      ensures forall k :: k in Contents() <==> k in keys
    {
      hide Hashed, MapOf, InOrder, Sorted;
      SortedNoRepeats(InOrder(avl.tree), keys);
      MapOfAt(keys, area.Values());
    }

    /** Takes an item out of the tree and the hash table, and moves the last item to its place there. */
    method DeleteIndexed(k: nat)
      requires avl.Valid() && buckets.Length == LeafHash.HASH_NR && (forall x :: hash(x) < LeafHash.HASH_NR)
      requires k < |keys| < LeafHash.HASH_NR && Hashed(buckets[..], keys, hash) && Sorted(InOrder(avl.tree), keys)
      modifies `keys, avl, buckets
      ensures avl.Valid() && Hashed(buckets[..], SwapRemove(old(keys), k), hash) && Sorted(InOrder(avl.tree), SwapRemove(old(keys), k))
      ensures keys == (if k == |old(keys)| - 1 then old(keys) else old(keys)[k := old(keys)[|old(keys)| - 1]])[..|old(keys)| - 1]
    {
      hide Hashed, Sorted, InOrder, Offs, SameOn, Balanced, Drops, SwapSeq, SwapRemove, LeafHash.Table, LeafHash.Holds,
        Home, IsItem, KeyAt, LeafHash.HasFree;
      ghost var order, b, ks := InOrder(avl.tree), buckets[..], keys;
      var item, end := ItemOff(k), |keys| - 1;
      HashHasFree(b, keys, hash);
      DeleteStarts(avl.tree, b, keys, hash, k);
      avl.Delete(item);
      ghost var rest := InOrder(avl.tree);
      LeafHash.Delete(buckets, Home(keys, hash), item);
      ghost var b1 := buckets[..];
      DeletedHash(b, b1, keys, hash, k);
      if end != k {
        DeleteSorts(order, rest, keys, k);
        OrderIsOffs(avl.tree);
        ItemsDiffer(k, end);
        keys := keys[k := keys[end]];
        LeafHash.Change(buckets, Home(keys, hash), item, ItemOff(end));
        avl.Relocate(item, ItemOff(end));
        ChangedHash(b1, buckets[..], ks, hash, k);
      } else {
        DeleteLastSorts(order, rest, keys);
        UnchangedHash(b1, ks, hash);
      }
      keys := keys[..end];
    }
  }

  lemma {:induction false} DeleteStarts(tree: Tree, b: seq<nat>, keys: seq<nat>, hash: nat -> nat, k: nat)
    requires Sorted(InOrder(tree), keys) && Hashed(b, keys, hash) && k < |keys|
    ensures ItemOff(k) in Offs(tree) && LeafHash.Holds(b, ItemOff(k)) && LeafHash.Table(b, Home(keys, hash)) && ItemOff(k) != 0
  {
    ItemIs(|keys|, k);
    OrderIsOffs(tree);
  }

  lemma {:induction false} DeletedHash(b: seq<nat>, b1: seq<nat>, keys: seq<nat>, hash: nat -> nat, k: nat)
    requires Hashed(b, keys, hash) && k < |keys| && |b1| == |b| && (forall x :: hash(x) < |b|)
    requires LeafHash.Table(b1, Home(keys, hash))
    requires forall o :: LeafHash.Holds(b1, o) <==> LeafHash.Holds(b, o) && o != ItemOff(k)
    ensures var keys' := keys[k := keys[|keys| - 1]];
            && LeafHash.Table(b1, Home(keys', hash))
            && (k != |keys| - 1 ==> && LeafHash.Holds(b1, ItemOff(|keys| - 1)) && !LeafHash.Holds(b1, ItemOff(k))
                                    && Home(keys', hash)(ItemOff(k)) == Home(keys', hash)(ItemOff(|keys| - 1)))
    ensures forall o :: LeafHash.Holds(b1, o) <==> IsItem(|keys|, o) && o != ItemOff(k)
  {
    hide LeafHash.Table, LeafHash.Holds, IsItem, KeyAt, Home;
    ClearedHashes(b1, keys, hash, k);
  }

  lemma {:induction false} ChangedHash(b1: seq<nat>, b2: seq<nat>, keys: seq<nat>, hash: nat -> nat, k: nat)
    requires k < |keys| - 1 && |b2| == |b1| && (forall x :: hash(x) < |b2|)
    requires LeafHash.Table(b2, Home(keys[k := keys[|keys| - 1]], hash))
    requires forall o :: LeafHash.Holds(b1, o) <==> IsItem(|keys|, o) && o != ItemOff(k)
    requires forall o :: LeafHash.Holds(b2, o) <==> o == ItemOff(k) || (LeafHash.Holds(b1, o) && o != ItemOff(|keys| - 1))
    ensures Hashed(b2, SwapRemove(keys, k), hash)
  {
    hide LeafHash.Table, LeafHash.Holds, IsItem, KeyAt, Home, Hashed, SwapRemove;
    forall o ensures LeafHash.Holds(b2, o) <==> IsItem(|keys| - 1, o) { ItemsLeft(|keys|, k, o); }
    RemovedHashes(b2, keys, hash, k);
  }

  lemma {:induction false} UnchangedHash(b1: seq<nat>, keys: seq<nat>, hash: nat -> nat)
    requires keys != [] && (forall x :: hash(x) < |b1|)
    requires LeafHash.Table(b1, Home(keys[|keys| - 1 := keys[|keys| - 1]], hash))
    requires forall o :: LeafHash.Holds(b1, o) <==> IsItem(|keys|, o) && o != ItemOff(|keys| - 1)
    ensures Hashed(b1, SwapRemove(keys, |keys| - 1), hash)
  {
    hide LeafHash.Table, LeafHash.Holds, IsItem, KeyAt, Home, Hashed, SwapRemove;
    forall o ensures LeafHash.Holds(b1, o) <==> IsItem(|keys| - 1, o) { ItemsLeft(|keys|, |keys| - 1, o); }
    RemovedHashes(b1, keys, hash, |keys| - 1);
  }

  lemma SwapRemoveSize<T>(s: seq<T>, k: nat)
    requires k < |s|
    ensures |SwapRemove(s, k)| == |s| - 1
  {
  }

  /** The item that moves to the deleted item's place is followed there. */
  lemma {:induction false} UsedAfter(keys: seq<nat>, k: nat, use: nat)
    requires k < |keys|
    ensures var e := |keys| - 1;
            var after := if use == ItemOff(e) && k != e then ItemOff(k) else use;
            IsItem(|keys|, use) && use != ItemOff(k) ==>
              IsItem(e, after) && KeyAt(SwapRemove(keys, k), after) == KeyAt(keys, use)
    ensures ItemOff(|keys| - 1) != 0
  {
    if IsItem(|keys|, use) && use != ItemOff(k) {
      var e, i: nat :| e == |keys| - 1 && i < |keys| && use == ItemOff(i);
      ItemsDiffer(i, e);
      var j: nat := if i == e then k else i;
      KeyAtItem(keys, i);
      KeyAtItem(SwapRemove(keys, k), j);
      ItemIs(e, j);
    }
  }

  lemma {:induction false} SwapRemoveIs(keys: seq<nat>, keys': seq<nat>, k: nat)
    requires k < |keys| && keys' == (if k == |keys| - 1 then keys else keys[k := keys[|keys| - 1]])[..|keys| - 1]
    ensures keys' == SwapRemove(keys, k) && |keys'| == |keys| - 1
  {
  }

  /** The next item of the array is not in the tree yet, and its key goes where the search ended. */
  lemma {:induction false} CreateFits(c: Context, tree: Tree, keys: seq<nat>, key: nat)
    requires tree == Plug(c, Tree.Leaf) && Sorted(InOrder(tree), keys)
    requires AllAbove(Compare(keys, key), Before(c)) && AllBelow(Compare(keys, key), After(c))
    ensures ItemOff(|keys|) !in Offs(tree) && ItemOff(|keys|) != 0 && key !in keys
    ensures Sorted(Before(c) + [ItemOff(|keys|)] + After(c), keys + [key])
  {
    hide Increasing, KeyAt, Plug;
    PlugInOrder(c, Tree.Leaf);
    assert InOrder(tree) == Before(c) + After(c);
    OrderIsOffs(tree);
    AppendItems(|keys|, ItemOff(|keys|));
    NotFoundAnywhere(c, keys, key);
    CreateSorts(Before(c), After(c), keys, key);
  }

  lemma AreaTiles(area: ValueArea)
    requires area.Valid()
    ensures ItemOff(|area.vals|) <= area.end
  {
    hide Tiled, TilesOK, Owned, ItemOff;
    TiledSize(area.tiles, area.MidEnd(), area.end);
  }

  lemma LeafSizes(n: nat)
    ensures LEAF_END == 61172 && LeafHash.HASH_NR == 2182 && ItemOff(n) == 45 + 38 * n
  {
  }

  /** There is no room for as many items as buckets. */
  lemma AreaFits(area: ValueArea)
    requires area.Valid() && area.end == LEAF_END
    ensures |area.vals| <= 1608 < LeafHash.HASH_NR
  {
    hide *;
    AreaTiles(area);
    LeafSizes(|area.vals|);
  }

  lemma {:induction false} SortedSize(order: seq<nat>, keys: seq<nat>)
    requires Sorted(order, keys)
    ensures |order| <= |keys|
  {
    var offs := set i: nat | i < |keys| :: ItemOff(i);
    forall p, q | 0 <= p < q < |order| ensures order[p] != order[q] { IncreasingAt(order, keys, p, q); }
    forall p | 0 <= p < |order| ensures order[p] != 0 && order[p] in offs {
      assert order[p] in order;
      var i: nat :| i < |keys| && order[p] == ItemOff(i);
    }
    ItemSet(|keys|);
    LeafHash.DistinctPrefix(order, offs, |order|);
    LeafHash.SubsetSize(set p | 0 <= p < |order| :: order[p], offs);
  }

  /** The height of a leaf's tree fits in the byte that each node has for it. */
  lemma {:induction false} TreeIsShallow(l: Leaf)
    requires l.Valid()
    ensures Height(l.avl.tree) <= 15
  {
    hide Hashed, Sorted, InOrder, Height, Balanced;
    AreaFits(l.area);
    SortedSize(InOrder(l.avl.tree), l.keys);
    HeightFits(l.avl.tree);
  }
}
