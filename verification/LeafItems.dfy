/**
  A leaf's items seen three ways: a dense array of keys, a hash table of item
  offsets and an ordering of the same offsets. These lemmas say what creating
  and deleting an item does to each.
*/
module LeafItems {
  import opened LeafValues
  import opened LeafHash
  import opened LeafArea
  import opened AvlRename

  /** The key of the item at an offset. */
  function KeyAt(keys: seq<nat>, off: nat): nat {
    if off >= HEADER_BYTES && (off - HEADER_BYTES) / ITEM_BYTES < |keys|
    then keys[(off - HEADER_BYTES) / ITEM_BYTES] else 0
  }

  lemma {:induction false} KeyAtItem(keys: seq<nat>, i: nat)
    requires i < |keys|
    ensures KeyAt(keys, ItemOff(i)) == keys[i]
  {
  }

  ghost predicate IsItem(n: nat, off: nat) {
    exists i: nat :: i < n && off == ItemOff(i)
  }

  lemma {:induction false} ItemsDiffer(i: nat, j: nat)
    ensures ItemOff(i) == ItemOff(j) <==> i == j
    ensures ItemOff(i) != 0
  {
  }

  function Home(keys: seq<nat>, hash: nat -> nat): nat -> nat {
    off => hash(KeyAt(keys, off))
  }

  /** The hash table holds exactly the items, each where a probe for its key finds it. */
  ghost predicate Hashed(b: seq<nat>, keys: seq<nat>, hash: nat -> nat) {
    Table(b, Home(keys, hash)) && forall off :: Holds(b, off) <==> IsItem(|keys|, off)
  }

  /** The order holds exactly the items, by increasing key. */
  ghost predicate Sorted(order: seq<nat>, keys: seq<nat>) {
    && (forall off :: off in order <==> IsItem(|keys|, off))
    && Increasing(order, keys)
  }

  ghost predicate Increasing(order: seq<nat>, keys: seq<nat>) {
    forall i, j :: 0 <= i < j < |order| ==> KeyAt(keys, order[i]) < KeyAt(keys, order[j])
  }

  /** Whether a table finds its items depends on the homes of those items alone. */
  lemma {:induction false} TableSame(b: seq<nat>, home: nat -> nat, home': nat -> nat)
    requires Table(b, home) && Homes(b, home') && forall off :: Holds(b, off) ==> home'(off) == home(off)
    ensures Table(b, home')
  {
    forall q | 0 <= q < |b| && b[q] != 0 ensures Path(b, home'(b[q]), q) {
      assert Holds(b, b[q]);
    }
  }

  lemma {:induction false} HomesAny(b: seq<nat>, keys: seq<nat>, hash: nat -> nat)
    requires forall k :: hash(k) < |b|
    ensures Homes(b, Home(keys, hash))
  {
    forall off ensures Home(keys, hash)(off) < |b| { assert hash(KeyAt(keys, off)) < |b|; }
  }

  /** There are fewer items than buckets. */
  lemma {:induction false} HashHasFree(b: seq<nat>, keys: seq<nat>, hash: nat -> nat)
    requires Hashed(b, keys, hash) && |keys| < |b|
    ensures HasFree(b)
  {
    var offs := set i: nat | i < |keys| :: ItemOff(i);
    ItemSet(|keys|);
    FewItemsLeaveFree(b, offs);
  }

  lemma {:induction false} ItemSet(n: nat)
    ensures |set i: nat | i < n :: ItemOff(i)| == n
  {
    if n > 0 {
      ItemSet(n - 1);
      assert (set i: nat | i < n :: ItemOff(i)) == (set i: nat | i < n - 1 :: ItemOff(i)) + {ItemOff(n - 1)};
    }
  }

  // ---- create

  lemma {:induction false} AppendKeeps(keys: seq<nat>, key: nat, off: nat)
    requires IsItem(|keys|, off)
    ensures KeyAt(keys + [key], off) == KeyAt(keys, off)
  {
    var i: nat :| i < |keys| && off == ItemOff(i);
    KeyAtItem(keys, i);
    KeyAtItem(keys + [key], i);
  }

  lemma {:induction false} AppendItems(n: nat, off: nat)
    ensures IsItem(n + 1, off) <==> IsItem(n, off) || off == ItemOff(n)
    ensures !IsItem(n, ItemOff(n))
  {
    if IsItem(n, off) {
      var i: nat :| i < n && off == ItemOff(i);
      assert i < n + 1 && off == ItemOff(i);
    }
    if off == ItemOff(n) { assert n < n + 1 && off == ItemOff(n); }
  }

  lemma {:induction false} CreateHashes(b: seq<nat>, keys: seq<nat>, hash: nat -> nat, key: nat, j: nat)
    requires Hashed(b, keys, hash) && (forall k :: hash(k) < |b|) && FirstFree(b, hash(key), j)
    ensures Hashed(b[j := ItemOff(|keys|)], keys + [key], hash)
  {
    var off, keys', home' := ItemOff(|keys|), keys + [key], Home(keys + [key], hash);
    AppendItems(|keys|, off);
    HomesAny(b, keys', hash);
    forall o | Holds(b, o) ensures home'(o) == Home(keys, hash)(o) { AppendKeeps(keys, key, o); }
    TableSame(b, Home(keys, hash), home');
    KeyAtItem(keys', |keys|);
    hide Table;
    InsertKeeps(b, home', off, j);
    forall o ensures Holds(b[j := off], o) <==> IsItem(|keys'|, o) { AppendItems(|keys|, o); }
  }

  lemma {:induction false} CreateSorts(p: seq<nat>, q: seq<nat>, keys: seq<nat>, key: nat)
    requires Sorted(p + q, keys)
    requires (forall i :: 0 <= i < |p| ==> KeyAt(keys, p[i]) < key) && (forall i :: 0 <= i < |q| ==> key < KeyAt(keys, q[i]))
    ensures Sorted(p + [ItemOff(|keys|)] + q, keys + [key])
  {
    var off, keys' := ItemOff(|keys|), keys + [key];
    var w, w' := p + q, p + [off] + q;
    forall i | 0 <= i < |w| ensures KeyAt(keys', w[i]) == KeyAt(keys, w[i]) {
      assert w[i] in w;
      AppendKeeps(keys, key, w[i]);
    }
    KeyAtItem(keys', |keys|);
    forall o ensures o in w' <==> IsItem(|keys'|, o) {
      AppendItems(|keys|, o);
      assert o in w' <==> o in w || o == off;
    }
    forall i, j | 0 <= i < j < |w'| ensures KeyAt(keys', w'[i]) < KeyAt(keys', w'[j]) {
      var i', j' := if i < |p| then i else i - 1, if j < |p| then j else j - 1;
      assert i != |p| ==> w'[i] == w[i'];
      assert j != |p| ==> w'[j] == w[j'];
      assert i < |p| ==> w'[i] == p[i];
      assert j > |p| ==> w'[j] == q[j - |p| - 1];
    }
  }

  // ---- delete

  lemma {:induction false} SwapRemoveKey(keys: seq<nat>, k: nat, i: nat)
    requires k < |keys| && i < |keys| - 1
    ensures KeyAt(SwapRemove(keys, k), ItemOff(i)) == if i == k then keys[|keys| - 1] else keys[i]
  {
    KeyAtItem(SwapRemove(keys, k), i);
  }

  /** The table after the deleted item's bucket was cleared, seen with the keys after the last item took its place. */
  lemma {:induction false} ClearedHashes(b: seq<nat>, keys: seq<nat>, hash: nat -> nat, k: nat)
    requires k < |keys| && (forall x :: hash(x) < |b|) && Table(b, Home(keys, hash))
    requires forall o :: Holds(b, o) <==> IsItem(|keys|, o) && o != ItemOff(k)
    ensures var keys' := keys[k := keys[|keys| - 1]];
            && Table(b, Home(keys', hash))
            && (k != |keys| - 1 ==> && Holds(b, ItemOff(|keys| - 1)) && !Holds(b, ItemOff(k))
                                    && Home(keys', hash)(ItemOff(k)) == Home(keys', hash)(ItemOff(|keys| - 1)))
  {
    var e, keys' := |keys| - 1, keys[k := keys[|keys| - 1]];
    HomesAny(b, keys', hash);
    forall o | Holds(b, o) ensures Home(keys', hash)(o) == Home(keys, hash)(o) {
      var i: nat :| i < |keys| && o == ItemOff(i);
      KeyAtItem(keys, i);
      KeyAtItem(keys', i);
    }
    TableSame(b, Home(keys, hash), Home(keys', hash));
    KeyAtItem(keys', k);
    KeyAtItem(keys', e);
    assert IsItem(|keys|, ItemOff(e));
    ItemsDiffer(k, e);
  }

  lemma {:induction false} RemovedHashes(b: seq<nat>, keys: seq<nat>, hash: nat -> nat, k: nat)
    requires k < |keys| && (forall x :: hash(x) < |b|) && Table(b, Home(keys[k := keys[|keys| - 1]], hash))
    requires forall o :: Holds(b, o) <==> IsItem(|keys| - 1, o)
    ensures Hashed(b, SwapRemove(keys, k), hash)
  {
    var keys', keys'' := keys[k := keys[|keys| - 1]], SwapRemove(keys, k);
    HomesAny(b, keys'', hash);
    forall o | Holds(b, o) ensures Home(keys'', hash)(o) == Home(keys', hash)(o) {
      var i: nat :| i < |keys| - 1 && o == ItemOff(i);
      KeyAtItem(keys', i);
      KeyAtItem(keys'', i);
    }
    TableSame(b, Home(keys', hash), Home(keys'', hash));
  }

  /** Which items are left when the last item has taken the place of another. */
  lemma {:induction false} ItemsLeft(n: nat, k: nat, o: nat)
    requires k < n
    ensures IsItem(n - 1, o) <==> if k == n - 1 then IsItem(n, o) && o != ItemOff(k)
                                  else o == ItemOff(k) || (IsItem(n, o) && o != ItemOff(k) && o != ItemOff(n - 1))
  {
    AppendItems(n - 1, o);
    if k < n - 1 { assert IsItem(n - 1, ItemOff(k)); }
  }

  // ---- the order after a delete

  /** Where an element comes from when the one at `d` is dropped. */
  function Skip(d: nat, i: nat): nat {
    if i < d then i else i + 1
  }

  lemma {:induction false} DropsIndex(s: seq<nat>, x: nat, r: seq<nat>) returns (d: nat)
    requires Drops(s, x, r)
    ensures d < |s| && s[d] == x && |r| == |s| - 1 && forall i :: 0 <= i < |r| ==> r[i] == s[Skip(d, i)]
  {
    d :| 0 <= d < |s| && s[d] == x && r == s[..d] + s[d + 1..];
  }

  lemma {:induction false} DropsIncreasing(s: seq<nat>, keys: seq<nat>, x: nat, r: seq<nat>)
    requires Drops(s, x, r) && Increasing(s, keys)
    ensures Increasing(r, keys)
  {
    hide KeyAt, Drops;
    var d := DropsIndex(s, x, r);
    forall i, j | 0 <= i < j < |r| ensures KeyAt(keys, r[i]) < KeyAt(keys, r[j]) {
      var i', j' := Skip(d, i), Skip(d, j);
      assert KeyAt(keys, s[i']) < KeyAt(keys, s[j']);
    }
  }

  lemma {:induction false} IncreasingDiffer(s: seq<nat>, keys: seq<nat>, i: nat, j: nat)
    requires Increasing(s, keys) && i < |s| && j < |s| && i != j
    ensures s[i] != s[j]
  {
    hide KeyAt;
    if i < j { assert KeyAt(keys, s[i]) < KeyAt(keys, s[j]); } else { assert KeyAt(keys, s[j]) < KeyAt(keys, s[i]); }
  }

  lemma {:induction false} DropsHas(s: seq<nat>, keys: seq<nat>, x: nat, r: seq<nat>)
    requires Drops(s, x, r) && Increasing(s, keys)
    ensures forall o :: o in r <==> o in s && o != x
  {
    hide Drops, Increasing;
    var d := DropsIndex(s, x, r);
    forall o ensures o in r <==> o in s && o != x {
      if o in r {
        var i: nat :| i < |r| && r[i] == o;
        IncreasingDiffer(s, keys, d, Skip(d, i));
      }
      if o in s && o != x {
        var i: nat :| i < |s| && s[i] == o;
        assert r[if i < d then i else i - 1] == o;
      }
    }
  }

  lemma {:induction false} ItemIs(n: nat, i: nat)
    requires i < n
    ensures IsItem(n, ItemOff(i))
  {
  }

  lemma {:induction false} SwapSeqAt(x: nat, y: nat, s: seq<nat>)
    ensures |SwapSeq(x, y, s)| == |s| && forall i :: 0 <= i < |s| ==> SwapSeq(x, y, s)[i] == Swap(x, y, s[i])
  {
  }

  lemma {:induction false} SwapSeqHas(x: nat, y: nat, s: seq<nat>, o: nat)
    requires y !in s
    ensures o in SwapSeq(x, y, s) <==> (o == y && x in s) || (o in s && o != x)
  {
    var w := SwapSeq(x, y, s);
    if o in w {
      var i :| 0 <= i < |w| && w[i] == o;
      assert s[i] in s;
    }
    if o == y && x in s {
      var i :| 0 <= i < |s| && s[i] == x;
      assert w[i] == y;
    }
    if o in s && o != x {
      var i :| 0 <= i < |s| && s[i] == o;
      assert w[i] == o;
    }
  }

  lemma {:induction false} SameKeysIncreasing(w: seq<nat>, keys: seq<nat>, w': seq<nat>, keys': seq<nat>)
    requires Increasing(w, keys) && |w'| == |w| && forall i :: 0 <= i < |w| ==> KeyAt(keys', w'[i]) == KeyAt(keys, w[i])
    ensures Increasing(w', keys')
  {
    hide KeyAt;
    forall i, j | 0 <= i < j < |w'| ensures KeyAt(keys', w'[i]) < KeyAt(keys', w'[j]) {
      assert KeyAt(keys, w[i]) < KeyAt(keys, w[j]);
    }
  }

  /** The last item was deleted. */
  lemma {:induction false} DeleteLastSorts(order: seq<nat>, rest: seq<nat>, keys: seq<nat>)
    requires keys != [] && Sorted(order, keys) && Drops(order, ItemOff(|keys| - 1), rest)
    ensures Sorted(rest, SwapRemove(keys, |keys| - 1))
  {
    var e, keys' := |keys| - 1, SwapRemove(keys, |keys| - 1);
    DropsIncreasing(order, keys, ItemOff(e), rest);
    DropsHas(order, keys, ItemOff(e), rest);
    hide KeyAt, Drops;
    forall o ensures o in rest <==> IsItem(|keys'|, o) { ItemsLeft(|keys|, e, o); }
    forall i | 0 <= i < |rest| ensures KeyAt(keys', rest[i]) == KeyAt(keys, rest[i]) {
      assert rest[i] in rest;
      AppendKeeps(keys', keys[e], rest[i]);
      assert keys' + [keys[e]] == keys;
    }
  }

  /** Another item was deleted and the last one took its place. */
  lemma {:induction false} DeleteSorts(order: seq<nat>, rest: seq<nat>, keys: seq<nat>, k: nat)
    requires k < |keys| - 1 && Sorted(order, keys) && Drops(order, ItemOff(k), rest)
    ensures Sorted(SwapSeq(ItemOff(|keys| - 1), ItemOff(k), rest), SwapRemove(keys, k)) && ItemOff(|keys| - 1) in rest
    ensures ItemOff(k) !in rest
  {
    var e, keys' := |keys| - 1, SwapRemove(keys, k);
    assert |keys'| == e;
    var w := SwapSeq(ItemOff(e), ItemOff(k), rest);
    hide KeyAt, Drops, SwapRemove, Increasing, IsItem, SwapSeq;
    DropsIncreasing(order, keys, ItemOff(k), rest);
    DropsHas(order, keys, ItemOff(k), rest);
    ItemsDiffer(k, e);
    ItemIs(|keys|, e);
    SwapSeqAt(ItemOff(e), ItemOff(k), rest);
    forall o ensures o in w <==> IsItem(|keys'|, o) {
      SwapSeqHas(ItemOff(e), ItemOff(k), rest, o);
      ItemsLeft(|keys|, k, o);
    }
    forall i | 0 <= i < |rest| ensures KeyAt(keys', w[i]) == KeyAt(keys, rest[i]) {
      assert rest[i] in rest;
      MovedKey(keys, k, rest[i]);
    }
    SameKeysIncreasing(rest, keys, w, keys');
  }

  lemma {:induction false} MovedKey(keys: seq<nat>, k: nat, o: nat)
    requires k < |keys| - 1 && IsItem(|keys|, o) && o != ItemOff(k)
    ensures KeyAt(SwapRemove(keys, k), Swap(ItemOff(|keys| - 1), ItemOff(k), o)) == KeyAt(keys, o)
  {
    var i: nat :| i < |keys| && o == ItemOff(i);
    KeyAtItem(keys, i);
    SwapRemoveKey(keys, k, if i == |keys| - 1 then k else i);
  }
}
