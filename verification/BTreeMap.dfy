/** The map from keys to values that sorted items stand for. */
module BTreeMap {
  import opened LeafValues
  import opened BTree
  import opened BTreeWalk
  import opened BTreeDescend

  function ValueOf(e: Entry): seq<nat> {
    if e.Item? then e.val else []
  }

  function ToMap(es: seq<Entry>): map<nat, seq<nat>> {
    if es == [] then map[] else ToMap(es[..|es| - 1])[es[|es| - 1].key := ValueOf(es[|es| - 1])]
  }

  lemma {:induction false} ToMapConcat(a: seq<Entry>, b: seq<Entry>)
    ensures ToMap(a + b) == ToMap(a) + ToMap(b)
  {
    if b == [] {
      assert a + b == a;
    } else {
      ToMapConcat(a, b[..|b| - 1]);
      assert (a + b)[..|a + b| - 1] == a + b[..|b| - 1];
    }
  }

  lemma {:induction false} ToMapOne(e: Entry)
    ensures ToMap([e]) == map[e.key := ValueOf(e)]
  {
    assert [e][..0] == [];
  }

  lemma {:induction false} ToMapHas(es: seq<Entry>, key: nat)
    ensures key in ToMap(es) <==> exists i :: 0 <= i < |es| && es[i].key == key
  {
    if es != [] {
      var n := |es| - 1;
      ToMapHas(es[..n], key);
      if i :| 0 <= i < |es| && es[i].key == key {
        if i < n { assert es[..n][i].key == key; }
      }
      if key in ToMap(es[..n]) {
        var i :| 0 <= i < n && es[..n][i].key == key;
        assert es[i].key == key;
      }
      if key == es[n].key { assert es[n].key == key; }
    }
  }

  /** Sorted items map each key to its item's value. */
  lemma {:induction false} ToMapAt(es: seq<Entry>, i: nat)
    requires Increasing(es) && i < |es|
    ensures es[i].key in ToMap(es) && ToMap(es)[es[i].key] == ValueOf(es[i])
  {
    hide ToMap;
    var a, b := es[..i], es[i + 1..];
    assert es == a + [es[i]] + b;
    ToMapConcat(a + [es[i]], b);
    ToMapConcat(a, [es[i]]);
    ToMapOne(es[i]);
    ToMapHas(b, es[i].key);
    forall j | 0 <= j < |b| ensures b[j].key != es[i].key { KeyOrder(es, i, i + 1 + j); }
  }

  /** A key that no item has. */
  lemma {:induction false} ToMapLacks(es: seq<Entry>, key: nat)
    requires forall e :: e in es ==> e.key != key
    ensures key !in ToMap(es)
  {
    ToMapHas(es, key);
  }

  // ---- one leaf's items

  predicate HasKey(es: seq<Entry>, key: nat) {
    var i := Below(es, key);
    i < |es| && es[i].key == key
  }

  lemma {:induction false} HasKeyIs(es: seq<Entry>, key: nat)
    requires Increasing(es)
    ensures HasKey(es, key) <==> key in ToMap(es)
    ensures HasKey(es, key) ==> ToMap(es)[key] == ValueOf(es[Below(es, key)])
  {
    hide ToMap, Below;
    BelowIs(es, key);
    ToMapHas(es, key);
    if HasKey(es, key) { ToMapAt(es, Below(es, key)); }
  }

  /** An item is overwritten, or created where a search for its key ends. */
  function PutItem(es: seq<Entry>, key: nat, val: seq<nat>): seq<Entry> {
    var i := Below(es, key);
    if i < |es| && es[i].key == key then es[i := Item(key, val)]
    else if i <= |es| then es[..i] + [Item(key, val)] + es[i..]
    else es
  }

  lemma {:induction false} PutItemShape(es: seq<Entry>, lo: nat, hi: nat, key: nat, val: seq<nat>)
    requires Shape(0, es, lo, hi) && lo <= key <= hi && |val| <= MAX_VAL_LEN
    ensures Shape(0, PutItem(es, key, val), lo, hi) && PutItem(es, key, val) != []
  {
    hide Below;
    BelowIs(es, key);
    var i, es' := Below(es, key), PutItem(es, key, val);
    if HasKey(es, key) {
      SameKeysIncrease(es, es');
    } else {
      forall p, q | 0 <= p < q < |es'| ensures es'[p].key < es'[q].key {
        assert p < i ==> es'[p] == es[p];
        assert q > i ==> es'[q] == es[q - 1];
      }
    }
  }

  lemma {:induction false} PutItemMap(es: seq<Entry>, key: nat, val: seq<nat>)
    requires Increasing(es)
    ensures ToMap(PutItem(es, key, val)) == ToMap(es)[key := val]
  {
    hide ToMap, Below;
    BelowIs(es, key);
    var i := Below(es, key);
    var a, b := es[..i], if HasKey(es, key) then es[i + 1..] else es[i..];
    var m := if HasKey(es, key) then [es[i]] else [];
    var e := Item(key, val);
    assert es == a + m + b && PutItem(es, key, val) == a + [e] + b;
    ToMapOne(e);
    ToMapEmpty();
    if HasKey(es, key) { ToMapOne(es[i]); }
    forall j | 0 <= j < |b| ensures b[j].key != key {
      if HasKey(es, key) { KeyOrder(es, i, i + 1 + j); }
    }
    PutBetween(a, m, b, key, val);
  }

  lemma {:induction false} PutBetween(a: seq<Entry>, m: seq<Entry>, b: seq<Entry>, key: nat, val: seq<nat>)
    requires forall j :: 0 <= j < |b| ==> b[j].key != key
    requires ToMap([Item(key, val)]) == map[key := val] && forall k :: k in ToMap(m) ==> k == key
    ensures ToMap(a + [Item(key, val)] + b) == ToMap(a + m + b)[key := val]
  {
    hide ToMap;
    var e := Item(key, val);
    ToMapConcat(a + [e], b);
    ToMapConcat(a, [e]);
    ToMapConcat(a + m, b);
    ToMapConcat(a, m);
    ToMapHas(b, key);
  }

  lemma {:induction false} ToMapEmpty()
    ensures ToMap([]) == map[]
  {
  }

  lemma {:induction false} PutItemTotal(es: seq<Entry>, key: nat, val: seq<nat>)
    requires Increasing(es)
    ensures Total(PutItem(es, key, val)) <= Total(es) + ItemLenBytes(|val|)
  {
    hide Below, Total;
    BelowIs(es, key);
    var i := Below(es, key);
    var a, b := es[..i], if HasKey(es, key) then es[i + 1..] else es[i..];
    var m := if HasKey(es, key) then [es[i]] else [];
    var e := Item(key, val);
    assert es == a + m + b && PutItem(es, key, val) == a + [e] + b;
    TotalConcat(a + [e], b);
    TotalConcat(a, [e]);
    TotalConcat(a + m, b);
    TotalConcat(a, m);
    TotalOne(e);
  }

  function RemoveItem(es: seq<Entry>, key: nat): seq<Entry> {
    var i := Below(es, key);
    if i < |es| then es[..i] + es[i + 1..] else es
  }

  lemma {:induction false} RemoveItemIs(es: seq<Entry>, lo: nat, hi: nat, key: nat)
    requires Shape(0, es, lo, hi) && HasKey(es, key)
    ensures Shape(0, RemoveItem(es, key), lo, hi) && |RemoveItem(es, key)| == |es| - 1
    ensures ToMap(RemoveItem(es, key)) == ToMap(es) - {key} && Total(RemoveItem(es, key)) <= Total(es)
  {
    hide ToMap, Below, Total;
    BelowIs(es, key);
    var i := Below(es, key);
    var a, b := es[..i], es[i + 1..];
    assert es == a + [es[i]] + b;
    forall j | 0 <= j < |a| ensures a[j].key != key { KeyOrder(es, j, i); }
    forall j | 0 <= j < |b| ensures b[j].key != key { KeyOrder(es, i, i + 1 + j); }
    RemoveBetween(a, es[i], b);
    RemoveIncreases(es, i);
  }

  lemma {:induction false} RemoveBetween(a: seq<Entry>, e: Entry, b: seq<Entry>)
    requires (forall j :: 0 <= j < |a| ==> a[j].key != e.key) && forall j :: 0 <= j < |b| ==> b[j].key != e.key
    ensures ToMap(a + b) == ToMap(a + [e] + b) - {e.key} && Total(a + b) <= Total(a + [e] + b)
  {
    hide ToMap, Total;
    ToMapConcat(a, b);
    ToMapConcat(a + [e], b);
    ToMapConcat(a, [e]);
    ToMapOne(e);
    TotalConcat(a, b);
    TotalConcat(a + [e], b);
    TotalConcat(a, [e]);
    ToMapHas(a, e.key);
    ToMapHas(b, e.key);
  }

  lemma {:induction false} RemoveIncreases(es: seq<Entry>, i: nat)
    requires Increasing(es) && i < |es|
    ensures Increasing(es[..i] + es[i + 1..])
  {
    var r := es[..i] + es[i + 1..];
    forall p, q | 0 <= p < q < |r| ensures r[p].key < r[q].key {
      KeyOrder(es, if p < i then p else p + 1, if q < i then q else q + 1);
    }
  }
}
