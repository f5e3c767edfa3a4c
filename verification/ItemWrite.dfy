/** Writing the dirty items of the cache to the log tree in key order. */
module ItemWrite {
  import opened Wrappers
  import opened Keys
  import opened ItemPages
  import opened LogItems
  import opened ItemCells
  import opened PageCache
  import opened ForestRead
  import LeafValues
  import BTree
  import BTreeMap
  import BTreeRoot

  type Entry = BTree.Entry

  /** An entry is a dirty item as the log stores it. */
  predicate Writes(items: map<nat, Item>, e: Entry) {
    e.Item? && e.key in items && items[e.key].dirty && e.val == Encode(Logged(items[e.key]))
  }

  ghost predicate Has(lst: seq<Entry>, k: nat) {
    exists i :: 0 <= i < |lst| && lst[i].key == k
  }

  /** The dirty items of a page in key order. */
  method PageList(pg: Page) returns (lst: seq<Entry>)
    ensures BTree.Increasing(lst) && forall i :: 0 <= i < |lst| ==> Writes(pg.items, lst[i])
    ensures forall k :: k in pg.items && pg.items[k].dirty ==> Has(lst, k)
  {
    hide InOrder, Encode, Has;
    var keys: seq<nat> := InOrder(pg.items.Keys);
    lst := [];
    var n := 0;
    while n < |keys|
      invariant n <= |keys| && BTree.Increasing(lst) && forall i :: 0 <= i < |lst| ==> Writes(pg.items, lst[i])
      invariant n < |keys| ==> forall i :: 0 <= i < |lst| ==> lst[i].key < keys[n]
      invariant forall j :: 0 <= j < n && pg.items[keys[j]].dirty ==> Has(lst, keys[j])
    {
      if pg.items[keys[n]].dirty {
        var e := BTree.Item(keys[n], Encode(Logged(pg.items[keys[n]])));
        HasMore(lst, e);
        lst := lst + [e];
      }
      n := n + 1;
    }
    forall k | k in pg.items && pg.items[k].dirty ensures Has(lst, k) {
      var j :| 0 <= j < |keys| && keys[j] == k;
    }
  }

  lemma HasMore(lst: seq<Entry>, e: Entry)
    ensures forall k :: Has(lst, k) ==> Has(lst + [e], k)
    ensures Has(lst + [e], e.key)
  {
    assert (lst + [e])[|lst|].key == e.key;
    forall k | Has(lst, k) ensures Has(lst + [e], k) {
      var i :| 0 <= i < |lst| && lst[i].key == k;
      assert (lst + [e])[i].key == k;
    }
  }

  /** An entry is the dirty item of the cache for its key. */
  ghost predicate WritesCell(c: Cell, e: Entry) {
    e.Item? && IsDirty(c) && e.val == Encode(Logged(c.item))
  }

  /** The dirty items of all pages but those in `left`, which come after them. */
  ghost predicate Listed(pages: set<Page>, left: set<Page>, lst: seq<Entry>) {
    && left <= pages && BTree.Increasing(lst)
    && (forall i :: 0 <= i < |lst| ==> WritesCell(Look(pages, lst[i].key), lst[i]))
    && (forall k: nat :: IsDirty(Look(pages, k)) ==> Has(lst, k) || CoveredBy(left, k))
    && (forall i, p :: 0 <= i < |lst| && p in left ==> lst[i].key < p.start)
  }

  lemma ListedStarts(pages: set<Page>, left: set<Page>)
    requires Good(pages) && left == set p | p in pages && Dirty(p)
    ensures Listed(pages, left, [])
  {
    hide Look;
    forall k: nat | IsDirty(Look(pages, k)) ensures CoveredBy(left, k) {
      LookNone(pages, k);
      var p :| p in pages && Covers(p, k);
      LookIn(pages, p, k);
      assert p in left;
    }
  }

  lemma {:induction false} FirstExists(left: set<Page>)
    requires left != {}
    ensures exists p :: IsFirst(left, p)
    decreases |left|
  {
    var x :| x in left;
    if left == {x} {
      assert IsFirst(left, x);
    } else {
      FirstExists(left - {x});
      var m :| IsFirst(left - {x}, m);
      forall q | q in left ensures q == x || q in left - {x} {}
      assert IsFirst(left, if x.start < m.start then x else m);
    }
  }

  predicate IsFirst(left: set<Page>, p: Page) {
    p in left && forall q :: q in left ==> p.start <= q.start
  }

  lemma Joined(lst: seq<Entry>, l: seq<Entry>, k: nat)
    ensures Has(lst + l, k) <==> Has(lst, k) || Has(l, k)
  {
    if i :| 0 <= i < |lst| && lst[i].key == k { assert (lst + l)[i].key == k; }
    if i :| 0 <= i < |l| && l[i].key == k { assert (lst + l)[|lst| + i].key == k; }
    if i :| 0 <= i < |lst + l| && (lst + l)[i].key == k {
      if i < |lst| { assert lst[i].key == k; } else { assert l[i - |lst|].key == k; }
    }
  }

  /** The dirty items that a page lists are the dirty cells of its range. */
  lemma PageCells(pages: set<Page>, pg: Page, l: seq<Entry>)
    requires Good(pages) && pg in pages && forall i :: 0 <= i < |l| ==> Writes(pg.items, l[i])
    ensures forall i :: 0 <= i < |l| ==> Covers(pg, l[i].key) && WritesCell(Look(pages, l[i].key), l[i])
  {
    hide Look, Encode;
    forall i | 0 <= i < |l| ensures Covers(pg, l[i].key) && WritesCell(Look(pages, l[i].key), l[i]) {
      assert Writes(pg.items, l[i]);
      LookIn(pages, pg, l[i].key);
    }
  }

  lemma ListedStep(pages: set<Page>, left: set<Page>, lst: seq<Entry>, pg: Page, l: seq<Entry>)
    requires Good(pages) && Listed(pages, left, lst) && IsFirst(left, pg)
    requires BTree.Increasing(l) && forall i :: 0 <= i < |l| ==> Writes(pg.items, l[i])
    requires forall k :: k in pg.items && pg.items[k].dirty ==> Has(l, k)
    ensures Listed(pages, left - {pg}, lst + l)
  {
    hide Look, Has, Encode, WritesCell;
    PageCells(pages, pg, l);
    forall p | p in left - {pg} ensures pg.end < p.start {
      assert Apart(p, pg) && PageOK(p) && PageOK(pg);
    }
    forall k: nat | IsDirty(Look(pages, k)) ensures Has(lst + l, k) || CoveredBy(left - {pg}, k) {
      Joined(lst, l, k);
      if Covers(pg, k) { LookIn(pages, pg, k); } else { CoveredLess(left, pg, k); }
    }
  }

  lemma ListedRange(pages: set<Page>, lst: seq<Entry>)
    requires Good(pages) && Listed(pages, {}, lst)
    requires forall k: nat :: IsDirty(Look(pages, k)) ==> Fits(Look(pages, k).item)
    ensures BTree.AllItems(lst) && BTree.InRange(lst, 0, MAX_KEY)
    ensures forall k: nat :: IsDirty(Look(pages, k)) ==> Has(lst, k)
  {
    hide Look, Has, Encode;
    forall i | 0 <= i < |lst| ensures lst[i].Item? && |lst[i].val| <= LeafValues.MAX_VAL_LEN && lst[i].key <= MAX_KEY {
      assert WritesCell(Look(pages, lst[i].key), lst[i]);
      LookNone(pages, lst[i].key);
      var p :| p in pages && Covers(p, lst[i].key);
      GoodPage(pages, p);
    }
  }

  /** Values that fit in the log tree. */
  predicate Fits(item: Item) {
    HEADER + |item.val| <= LeafValues.MAX_VAL_LEN && item.vers < VERSIONS
  }

  /** All of the dirty items, in key order as pages and their items are sorted. */
  method DirtyList(pages: set<Page>) returns (lst: seq<Entry>)
    requires Good(pages)
    ensures Listed(pages, {}, lst)
  {
    hide Good, Look, Has, Listed, Encode, BTree.Increasing;
    lst := [];
    var left := set p | p in pages && Dirty(p);
    ListedStarts(pages, left);
    while left != {}
      invariant Listed(pages, left, lst)
      decreases |left|
    {
      FirstExists(left);
      var pg :| IsFirst(left, pg);
      var l := PageList(pg);
      ListedStep(pages, left, lst, pg, l);
      left, lst := left - {pg}, lst + l;
    }
  }

  function RawAt(m: map<nat, seq<nat>>, k: nat): Option<seq<nat>> {
    if k in m then Some(m[k]) else None
  }

  lemma {:induction false} PutAllAt(m: map<nat, seq<nat>>, lst: seq<Entry>, k: nat)
    requires BTree.Increasing(lst)
    ensures !Has(lst, k) ==> RawAt(BTreeRoot.PutAll(m, lst), k) == RawAt(m, k)
    ensures forall i :: 0 <= i < |lst| && lst[i].key == k ==> RawAt(BTreeRoot.PutAll(m, lst), k) == Some(BTreeMap.ValueOf(lst[i]))
  {
    if lst != [] {
      var n := |lst| - 1;
      PutAllAt(m, lst[..n], k);
      assert lst == lst[..n] + [lst[n]];
      Joined(lst[..n], [lst[n]], k);
      assert [lst[n]][0].key == lst[n].key;
      forall i | 0 <= i < |lst| && lst[i].key == k
        ensures RawAt(BTreeRoot.PutAll(m, lst), k) == Some(BTreeMap.ValueOf(lst[i]))
      {
        if i < n { assert lst[..n][i].key == k; }
      }
    }
  }

  /** Exactly the dirty items are put in the log tree, so that reading it back gives the overlay. */
  method WriteDirty(pages: set<Page>, log: BTreeRoot.Tree)
    requires Good(pages) && log.Valid() && forall k: nat :: IsDirty(Look(pages, k)) ==> Fits(Look(pages, k).item)
    modifies log
    ensures log.Valid()
    ensures forall k: nat :: RawAt(log.Contents(), k) ==
              if IsDirty(Look(pages, k)) then Some(Encode(Logged(Look(pages, k).item))) else RawAt(old(log.Contents()), k)
  {
    hide Good, Look, Has, Listed, Encode, BTree.Increasing, BTreeRoot.PutAll, BTreeRoot.TreeOK, BTreeRoot.AllOf;
    var lst := DirtyList(pages);
    ListedRange(pages, lst);
    ListedIs(pages, lst);
    ghost var was := log.Contents();
    log.InsertList(lst);
    forall k: nat
      ensures RawAt(log.Contents(), k) ==
              if IsDirty(Look(pages, k)) then Some(Encode(Logged(Look(pages, k).item))) else RawAt(was, k)
    {
      WrittenAt(pages, lst, was, k);
    }
  }

  lemma ListedIs(pages: set<Page>, lst: seq<Entry>)
    requires Listed(pages, {}, lst)
    ensures BTree.Increasing(lst)
  {
  }

  lemma WrittenAt(pages: set<Page>, lst: seq<Entry>, m: map<nat, seq<nat>>, k: nat)
    requires Listed(pages, {}, lst)
    ensures RawAt(BTreeRoot.PutAll(m, lst), k) ==
            if IsDirty(Look(pages, k)) then Some(Encode(Logged(Look(pages, k).item))) else RawAt(m, k)
  {
    hide Look, Encode, BTree.Increasing, BTreeRoot.PutAll;
    ListedIs(pages, lst);
    PutAllAt(m, lst, k);
    assert IsDirty(Look(pages, k)) ==> Has(lst, k);
    if i :| 0 <= i < |lst| && lst[i].key == k {
      assert WritesCell(Look(pages, lst[i].key), lst[i]);
    }
  }

  /** What a log tree's values say. */
  function Decoded(raw: Option<seq<nat>>): Option<LogItem> {
    if raw.Some? && |raw.value| >= HEADER then Some(Decode(raw.value)) else None
  }

  /** Reading the log back gives what was dirty and, for all other keys, what was there. */
  lemma WrittenReadsBack(c: Cell, raw: Option<seq<nat>>, raw': Option<seq<nat>>)
    requires IsDirty(c) ==> Fits(c.item)
    requires raw' == if IsDirty(c) then Some(Encode(Logged(c.item))) else raw
    ensures Decoded(raw') == Committed(c, Decoded(raw))
  {
    if IsDirty(c) { DecodeEncode(Logged(c.item)); }
  }
}
