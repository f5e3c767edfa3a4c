/**
  A leaf block refines the leaf of the tree: its items, in key order, are the sorted
  entries that the tree works on, and its operations do to them what the tree's do.
*/
module LeafRefines {
  import opened Avl
  import opened LeafValues
  import opened LeafArea
  import opened LeafItems
  import opened LeafBlock
  import opened LeafMove
  import opened Errno
  import BTree
  import BTreeWalk
  import BTreeMap

  type Entry = BTree.Entry

  function Get(m: map<nat, seq<nat>>, k: nat): seq<nat> {
    if k in m then m[k] else []
  }

  function EntriesOf(ks: seq<nat>, m: map<nat, seq<nat>>): (es: seq<Entry>)
    ensures |es| == |ks|
  {
    seq(|ks|, i requires 0 <= i < |ks| => BTree.Item(ks[i], Get(m, ks[i])))
  }

  /** The entries of the tree that a leaf block stands for. */
  ghost function Entries(l: Leaf): seq<Entry>
    reads l, l.area, l.area.mem, l.avl, l.buckets
    requires l.Valid()
  {
    EntriesOf(InKeyOrder(l), l.Contents())
  }

  // ---- one list for each map

  ghost predicate Items(es: seq<Entry>) {
    BTree.Increasing(es) && forall i :: 0 <= i < |es| ==> es[i].Item?
  }

  /** Sorted items are known by what they map to. */
  lemma {:induction false} SameItems(es: seq<Entry>, es': seq<Entry>)
    requires Items(es) && Items(es') && BTreeMap.ToMap(es) == BTreeMap.ToMap(es')
    ensures es == es'
  {
    hide BTreeMap.ToMap;
    var s, t := KeysIn(es), KeysIn(es');
    forall k ensures k in s <==> k in t {
      KeysInHas(es, k);
      KeysInHas(es', k);
    }
    RisingSame(s, t);
    forall i: nat | i < |es| ensures es[i] == es'[i] {
      assert s[i] == t[i];
      BTreeMap.ToMapAt(es, i);
      BTreeMap.ToMapAt(es', i);
    }
  }

  function KeysIn(es: seq<Entry>): seq<nat> {
    seq(|es|, i requires 0 <= i < |es| => es[i].key)
  }

  lemma {:induction false} KeysInHas(es: seq<Entry>, k: nat)
    ensures k in KeysIn(es) <==> k in BTreeMap.ToMap(es)
  {
    hide BTreeMap.ToMap;
    BTreeMap.ToMapHas(es, k);
    var ks := KeysIn(es);
    if k in ks {
      var i :| 0 <= i < |ks| && ks[i] == k;
      assert es[i].key == k;
    }
    if i :| 0 <= i < |es| && es[i].key == k {
      assert ks[i] == k;
    }
  }

  lemma {:induction false} EntriesMap(ks: seq<nat>, m: map<nat, seq<nat>>)
    requires Rising(ks) && forall k :: k in m <==> k in ks
    ensures Items(EntriesOf(ks, m)) && BTreeMap.ToMap(EntriesOf(ks, m)) == m
  {
    hide BTreeMap.ToMap;
    var es := EntriesOf(ks, m);
    var t := BTreeMap.ToMap(es);
    assert KeysIn(es) == ks;
    forall k ensures k in t <==> k in m { KeysInHas(es, k); }
    forall k | k in m ensures t[k] == m[k] {
      var i: nat :| i < |ks| && ks[i] == k;
      BTreeMap.ToMapAt(es, i);
    }
  }

  /** A leaf's entries are sorted and map its keys to their values. */
  lemma {:induction false} EntriesAre(l: Leaf)
    requires l.Valid()
    ensures |l.keys| == |l.area.vals|
    ensures Items(Entries(l)) && BTreeMap.ToMap(Entries(l)) == l.Contents()
  {
    hide Leaf.Valid, BTreeMap.ToMap, EntriesOf, Rising, KeysOf, MapOf;
    LeafSorted(l);
    LeafOrder(l);
    EntriesMap(InKeyOrder(l), l.Contents());
  }

  // ---- the bytes of a leaf's entries

  function SizeSum(ks: seq<nat>, m: map<nat, seq<nat>>): nat {
    if ks == [] then 0 else SizeSum(ks[..|ks| - 1], m) + ItemLenBytes(|Get(m, ks[|ks| - 1])|)
  }

  lemma {:induction false} SizeSumSplit(a: seq<nat>, x: nat, b: seq<nat>, m: map<nat, seq<nat>>)
    ensures SizeSum(a + [x] + b, m) == SizeSum(a + b, m) + ItemLenBytes(|Get(m, x)|)
  {
    hide Get, ItemLenBytes;
    if b == [] {
      assert a + [x] + b == a + [x] && (a + [x])[..|a|] == a && a + b == a;
    } else {
      var n := |b| - 1;
      SizeSumSplit(a, x, b[..n], m);
      assert (a + [x] + b)[..|a| + 1 + n] == a + [x] + b[..n] && (a + b)[..|a| + n] == a + b[..n];
    }
  }

  /** The order in which keys are listed does not change what their items take up. */
  lemma {:induction false} SizeSumSame(s: seq<nat>, t: seq<nat>, m: map<nat, seq<nat>>)
    requires NoRepeats(s) && NoRepeats(t) && forall k :: k in s <==> k in t
    ensures SizeSum(s, m) == SizeSum(t, m)
  {
    assert s != [] ==> s[|s| - 1] in t;
    assert t != [] ==> t[0] in s;
    if s != [] {
      var n := |s| - 1;
      var x := s[n];
      var j :| 0 <= j < |t| && t[j] == x;
      var a, b := t[..j], t[j + 1..];
      assert t == a + [x] + b;
      SizeSumSplit(a, x, b, m);
      RemovedKeys(s, a, x, b);
      SizeSumSame(s[..n], a + b, m);
    }
  }

  lemma {:induction false} RemovedKeys(s: seq<nat>, a: seq<nat>, x: nat, b: seq<nat>)
    requires s != [] && x == s[|s| - 1] && NoRepeats(s) && NoRepeats(a + [x] + b) && forall k :: k in s <==> k in a + [x] + b
    ensures NoRepeats(s[..|s| - 1]) && NoRepeats(a + b) && forall k :: k in s[..|s| - 1] <==> k in a + b
  {
    var t, u, r := a + [x] + b, a + b, s[..|s| - 1];
    forall i: nat, j: nat | i < j < |u| ensures u[i] != u[j] {
      assert u[i] == t[if i < |a| then i else i + 1] && u[j] == t[if j < |a| then j else j + 1];
    }
    forall i: nat | i < |u| ensures u[i] != x && u[i] in t {
      assert u[i] == t[if i < |a| then i else i + 1] && t[|a|] == x;
    }
    assert s == r + [x];
    forall i: nat | i < |r| ensures r[i] != x { assert r[i] == s[i]; }
    forall k ensures k in r <==> k in u {
      assert k in s <==> k in r || k == x;
      assert k in t <==> k in u || k == x;
    }
  }

  lemma {:induction false} EntriesTotal(ks: seq<nat>, m: map<nat, seq<nat>>)
    ensures BTree.Total(EntriesOf(ks, m)) == SizeSum(ks, m)
  {
    if ks != [] {
      var n := |ks| - 1;
      EntriesTotal(ks[..n], m);
      assert EntriesOf(ks, m)[..n] == EntriesOf(ks[..n], m);
    }
  }

  lemma {:induction false} ValuesTotal(keys: seq<nat>, values: seq<seq<nat>>, m: map<nat, seq<nat>>)
    requires |keys| == |values| && forall i :: 0 <= i < |keys| ==> Get(m, keys[i]) == values[i]
    ensures TotalOf(values) == SizeSum(keys, m)
  {
    if keys != [] {
      var n := |keys| - 1;
      ValuesTotal(keys[..n], values[..n], m);
    }
  }

  lemma {:induction false} RisingNoRepeats(s: seq<nat>)
    requires Rising(s)
    ensures NoRepeats(s)
  {
  }

  lemma {:induction false} LeafValuesAre(l: Leaf)
    requires l.Valid()
    ensures |l.keys| == |l.area.vals| == |l.area.Values()| && NoRepeats(l.keys) && l.area.total == TotalOf(l.area.Values())
    ensures forall i :: 0 <= i < |l.keys| ==> Get(l.Contents(), l.keys[i]) == l.area.Values()[i]
  {
    hide Hashed, Sorted, MapOf, InOrder, Balanced, Heap, LastFree, UsedLen, TotalOf, NoRepeats;
    SortedNoRepeats(InOrder(l.avl.tree), l.keys);
    MapOfAt(l.keys, l.area.Values());
  }

  /** The bytes that a leaf counts are those of its entries. */
  lemma {:induction false} TotalIs(l: Leaf)
    requires l.Valid()
    ensures BTree.Total(Entries(l)) == l.area.total
  {
    hide Leaf.Valid, EntriesOf, Rising, KeysOf, MapOf, NoRepeats, SizeSum, TotalOf, BTree.Total, InKeyOrder;
    LeafValuesAre(l);
    LeafSorted(l);
    LeafOrder(l);
    var m := l.Contents();
    EntriesTotal(InKeyOrder(l), m);
    ValuesTotal(l.keys, l.area.Values(), m);
    RisingNoRepeats(InKeyOrder(l));
    SizeSumSame(InKeyOrder(l), l.keys, m);
  }

  // ---- the operations

  /** A leaf splits for an item when the tree's leaf is full, and only when it is heavy. */
  lemma {:induction false} SplitRule(l: Leaf, len: nat)
    requires l.Valid() && len <= MAX_VAL_LEN
    ensures var b, split := BTree.Block(0, Entries(l)), l.area.midLen < ItemLenBytes(len) && FullPct(l.area.total) >= 80;
            (BTreeWalk.Full(b, len) ==> split) && (split ==> BTreeWalk.Heavy(b))
  {
    hide Leaf.Valid, BTree.Total, FullPct, ItemLenBytes;
    TotalIs(l);
    TotalFits(l);
    if BTreeWalk.Full(BTree.Block(0, Entries(l)), len) { BTreeWalk.FullIsHeavy(BTree.Block(0, Entries(l)), len); }
  }

  lemma {:induction false} PutItems(es: seq<Entry>, key: nat, val: seq<nat>)
    requires Items(es)
    ensures Items(BTreeMap.PutItem(es, key, val))
  {
    hide BTree.Below;
    BTree.BelowIs(es, key);
    var i, es' := BTree.Below(es, key), BTreeMap.PutItem(es, key, val);
    forall p: nat, q: nat | p < q < |es'| ensures es'[p].key < es'[q].key {
      if !(i < |es| && es[i].key == key) {
        assert p < i ==> es'[p] == es[p];
        assert q > i ==> es'[q] == es[q - 1];
      }
    }
  }

  lemma {:induction false} RemoveItems(es: seq<Entry>, key: nat)
    requires Items(es) && BTreeMap.HasKey(es, key)
    ensures Items(BTreeMap.RemoveItem(es, key)) && BTreeMap.ToMap(BTreeMap.RemoveItem(es, key)) == BTreeMap.ToMap(es) - {key}
  {
    hide BTree.Below, BTreeMap.ToMap;
    var i := BTree.Below(es, key);
    var a, b := es[..i], es[i + 1..];
    var es' := a + b;
    forall p: nat, q: nat | p < q < |es'| ensures es'[p].key < es'[q].key {
      assert es'[p] == es[if p < i then p else p + 1] && es'[q] == es[if q < i then q else q + 1];
    }
    assert es == a + [es[i]] + b;
    RemovedMap(a, es[i], b);
  }

  lemma {:induction false} RemovedMap(a: seq<Entry>, e: Entry, b: seq<Entry>)
    requires BTree.Increasing(a + [e] + b)
    ensures BTreeMap.ToMap(a + b) == BTreeMap.ToMap(a + [e] + b) - {e.key}
  {
    hide BTreeMap.ToMap;
    var es := a + [e] + b;
    BTreeMap.ToMapConcat(a, b);
    BTreeMap.ToMapConcat(a + [e], b);
    BTreeMap.ToMapConcat(a, [e]);
    BTreeMap.ToMapOne(e);
    assert es[|a|] == e;
    forall j | 0 <= j < |a| ensures a[j].key != e.key { assert es[j] == a[j]; }
    forall j | 0 <= j < |b| ensures b[j].key != e.key { assert es[|a| + 1 + j] == b[j]; }
    BTreeMap.ToMapHas(a, e.key);
    BTreeMap.ToMapHas(b, e.key);
  }

  /** Sorted entries with a key put or removed, from what they map to. */
  lemma {:induction false} PutIs(es: seq<Entry>, es': seq<Entry>, key: nat, val: seq<nat>)
    requires Items(es) && Items(es') && BTreeMap.ToMap(es') == BTreeMap.ToMap(es)[key := val]
    ensures es' == BTreeMap.PutItem(es, key, val)
  {
    hide Items, BTreeMap.ToMap, BTreeMap.PutItem;
    ItemsIncrease(es);
    PutItems(es, key, val);
    BTreeMap.PutItemMap(es, key, val);
    SameItems(es', BTreeMap.PutItem(es, key, val));
  }

  lemma {:induction false} RemoveIs(es: seq<Entry>, es': seq<Entry>, key: nat)
    requires Items(es) && Items(es') && BTreeMap.HasKey(es, key) && BTreeMap.ToMap(es') == BTreeMap.ToMap(es) - {key}
    ensures es' == BTreeMap.RemoveItem(es, key)
  {
    hide Items, BTreeMap.ToMap, BTreeMap.RemoveItem, BTreeMap.HasKey;
    RemoveItems(es, key);
    SameItems(es', BTreeMap.RemoveItem(es, key));
  }

  lemma ItemsIncrease(es: seq<Entry>)
    requires Items(es)
    ensures BTree.Increasing(es)
  {
  }

  /** Inserts an item as the tree does: the leaf splits first, has the item already, or gets it in its place. */
  method Insert(l: Leaf, key: nat, val: seq<nat>) returns (ret: int, split: bool)
    requires l.Valid() && |val| <= MAX_VAL_LEN
    modifies l, l.area, l.area.mem, l.avl, l.buckets
    ensures l.Valid()
    ensures BTreeWalk.Full(BTree.Block(0, old(Entries(l))), |val|) ==> split
    ensures split ==> BTreeWalk.Heavy(BTree.Block(0, old(Entries(l))))
    ensures ret == if !split && BTreeMap.HasKey(old(Entries(l)), key) then EEXIST else 0
    ensures Entries(l) == if split || ret != 0 then old(Entries(l)) else BTreeMap.PutItem(old(Entries(l)), key, val)
  {
    hide *;
    ghost var es := Entries(l);
    EntriesAre(l);
    ItemsIncrease(es);
    BTreeMap.HasKeyIs(es, key);
    SplitRule(l, |val|);
    ret, split := l.Insert(key, val);
    EntriesAre(l);
    ErrorsDiffer();
    if split || ret != 0 {
      SameItems(Entries(l), es);
    } else {
      PutIs(es, Entries(l), key, val);
    }
  }

  lemma ErrorsDiffer()
    ensures EEXIST != 0 && ENOENT != 0
  {
  }

  /** Deletes an item as the tree does. */
  method Delete(l: Leaf, key: nat) returns (ret: int)
    requires l.Valid()
    modifies l, l.area, l.area.mem, l.avl, l.buckets
    ensures l.Valid() && ret == if BTreeMap.HasKey(old(Entries(l)), key) then 0 else ENOENT
    ensures Entries(l) == if ret == 0 then BTreeMap.RemoveItem(old(Entries(l)), key) else old(Entries(l))
  {
    hide *;
    ghost var es := Entries(l);
    EntriesAre(l);
    ItemsIncrease(es);
    BTreeMap.HasKeyIs(es, key);
    l.KeysInContents();
    ErrorsDiffer();
    var off := l.HashSearch(key);
    FoundAt(l.keys, key, off);
    if off == 0 {
      return ENOENT;
    }
    var after := l.DeleteItem(IndexOf(off), 0);
    EntriesAre(l);
    RemoveIs(es, Entries(l), key);
    ret := 0;
  }

  /** Updates an item as the tree does, in its place. */
  method Update(l: Leaf, key: nat, val: seq<nat>) returns (ret: int, split: bool)
    requires l.Valid() && |val| <= MAX_VAL_LEN
    modifies l, l.area, l.area.mem, l.avl, l.buckets
    ensures l.Valid()
    ensures BTreeWalk.Full(BTree.Block(0, old(Entries(l))), |val|) ==> split
    ensures split ==> BTreeWalk.Heavy(BTree.Block(0, old(Entries(l))))
    ensures ret == if !split && !BTreeMap.HasKey(old(Entries(l)), key) then ENOENT else 0
    ensures Entries(l) == if split || ret != 0 then old(Entries(l)) else BTreeMap.PutItem(old(Entries(l)), key, val)
  {
    hide *;
    ghost var es := Entries(l);
    EntriesAre(l);
    ItemsIncrease(es);
    BTreeMap.HasKeyIs(es, key);
    SplitRule(l, |val|);
    ret, split := l.Update(key, val);
    EntriesAre(l);
    ErrorsDiffer();
    if split || ret != 0 {
      SameItems(Entries(l), es);
    } else {
      PutIs(es, Entries(l), key, val);
    }
  }

  /** Moving items between leaves moves the tree's entries. */
  lemma {:induction false} MoveRefines(v: View, w: View, right: bool, toMove: int, moved: nat, n: nat)
    requires LeafMove.Moving(v, w, right, toMove, moved, n) && Neighbours(v, right) && Neighbours(w, right)
    ensures BTreeWalk.Moving(EntriesOf(v.dst, v.to), EntriesOf(v.src, v.from), EntriesOf(w.dst, w.to), EntriesOf(w.src, w.from), right, n)
  {
    hide MovedBytes, SizeOf, Side, Rising, EntriesOf, Neighbours, Get;
    MovedValues(v, w, right);
    var k := |v.src| - n;
    if right {
      assert forall x :: x in v.src[..k] || x in v.src[k..] ==> x in v.src;
      EntriesPart(v.src, 0, k, v.from, w.from);
      EntriesPart(v.src, k, |v.src|, v.from, w.to);
      EntriesPart(v.dst, 0, |v.dst|, v.to, w.to);
      EntriesJoin(v.src[k..], v.dst, w.to);
    } else {
      assert forall x :: x in v.src[..n] || x in v.src[n..] ==> x in v.src;
      EntriesPart(v.src, n, |v.src|, v.from, w.from);
      EntriesPart(v.src, 0, n, v.from, w.to);
      EntriesPart(v.dst, 0, |v.dst|, v.to, w.to);
      EntriesJoin(v.dst, v.src[..n], w.to);
    }
  }

  lemma {:induction false} EntriesPart(ks: seq<nat>, a: nat, b: nat, m: map<nat, seq<nat>>, m': map<nat, seq<nat>>)
    requires a <= b <= |ks| && forall k :: k in ks[a..b] ==> Get(m', k) == Get(m, k)
    ensures EntriesOf(ks[a..b], m') == EntriesOf(ks, m)[a..b]
    ensures a == 0 ==> ks[a..b] == ks[..b] && EntriesOf(ks, m)[a..b] == EntriesOf(ks, m)[..b]
    ensures b == |ks| ==> ks[a..b] == ks[a..] && EntriesOf(ks, m)[a..b] == EntriesOf(ks, m)[a..]
    ensures a == 0 && b == |ks| ==> ks[a..b] == ks && EntriesOf(ks, m)[a..b] == EntriesOf(ks, m)
  {
  }

  lemma {:induction false} EntriesJoin(s: seq<nat>, t: seq<nat>, m: map<nat, seq<nat>>)
    ensures EntriesOf(s + t, m) == EntriesOf(s, m) + EntriesOf(t, m)
  {
  }

  lemma {:induction false} MovedValues(v: View, w: View, right: bool)
    requires w.to + w.from == v.to + v.from && Neighbours(v, right) && Neighbours(w, right)
    ensures forall k :: k in w.src && k in v.src ==> Get(w.from, k) == Get(v.from, k)
    ensures forall k :: k in w.dst && k in v.src ==> Get(w.to, k) == Get(v.from, k)
    ensures forall k :: k in w.dst && k in v.dst ==> Get(w.to, k) == Get(v.to, k)
  {
    hide Rising;
    var u := v.to + v.from;
    forall k | k in w.src ensures k in u && Get(w.from, k) == u[k] { }
    forall k | k in w.dst ensures k in u && Get(w.to, k) == u[k] { assert k !in w.src; }
    forall k | k in v.src ensures k in u && Get(v.from, k) == u[k] { }
    forall k | k in v.dst ensures k in u && Get(v.to, k) == u[k] { assert k !in v.src; }
  }
}
