/**
  Reading the forest: the items around a key in the leaves of every tree are put
  in private pages, the newest version of each, and what not all trees were
  asked about is trimmed away.
*/
module ForestRead {
  import opened Errno
  import opened Wrappers
  import opened Keys
  import opened ItemPages
  import opened LogItems
  import opened ItemCells
  import LeafValues
  import BTree
  import BTreeMap
  import BTreeLeaf
  import BTreeRoot
  import BTreeIter

  /** A tree of the forest as roots refer to it; only the trees whose bloom bits are set are read. */
  datatype Root = Root(block: Option<BTree.Block>, isFs: bool, bloom: bool)

  function ItemOf(isFs: bool, val: seq<nat>): LogItem
    requires isFs || |val| >= HEADER
  {
    if isFs then LogItem(0, false, val) else Decode(val)
  }

  ghost function Raw(r: Root): map<nat, seq<nat>> {
    if r.block.Some? then BTreeRoot.AllOf(r.block.value) else map[]
  }

  ghost predicate RootOK(r: Root) {
    && (r.block.Some? ==> BTreeRoot.TreeOK(r.block.value))
    && (!r.isFs ==> forall k :: k in Raw(r) ==> |Raw(r)[k]| >= HEADER)
  }

  /** What a tree stores. */
  ghost function Stored(r: Root): Tree
    requires RootOK(r)
  {
    map k | k in Raw(r) :: ItemOf(r.isFs, Raw(r)[k])
  }

  ghost predicate RootsOK(roots: seq<Root>) {
    forall i :: 0 <= i < |roots| ==> RootOK(roots[i])
  }

  ghost function AllStored(roots: seq<Root>): (r: seq<Tree>)
    requires RootsOK(roots)
    ensures |r| == |roots|
  {
    seq(|roots|, i requires 0 <= i < |roots| => Stored(roots[i]))
  }

  // ---- one tree

  /** Entries in key order, all from one range and as the tree has them. */
  ghost predicate FromTree(m: map<nat, seq<nat>>, items: seq<BTree.Entry>, start: nat, end: nat) {
    && BTree.Increasing(items)
    && forall i :: 0 <= i < |items| ==> start <= items[i].key <= end && items[i].key in m && m[items[i].key] == BTreeMap.ValueOf(items[i])
  }

  /** A key is among the first entries. */
  ghost predicate Among(items: seq<BTree.Entry>, n: nat, k: nat) {
    exists i :: 0 <= i < n && i < |items| && items[i].key == k
  }

  /** The leaf for a key speaks for a range of keys, and delivers every item of the tree in that range. */
  method ReadItems(b: BTree.Block, key: nat, start: nat, end: nat)
    returns (start': nat, end': nat, items: seq<BTree.Entry>)
    requires BTreeRoot.TreeOK(b) && start <= key <= end <= MAX_KEY
    ensures start <= start' <= key <= end' <= end
    ensures FromTree(BTreeRoot.AllOf(b), items, start', end')
    ensures forall k :: k in BTreeRoot.AllOf(b) && start' <= k <= end' ==> Among(items, |items|, k)
  {
    hide BTreeRoot.TreeOK, BTreeRoot.AllOf, BTreeLeaf.LeafFor, BTreeLeaf.StartFor, BTreeLeaf.EndFor, BTree.Below;
    hide BTree.Shape, BTree.Increasing, BTreeMap.ValueOf, Among, FromTree;
    BTreeRoot.TreeLeaf(b, key);
    var leaf := BTreeLeaf.LeafFor(b, key);
    var lo, hi := BTreeLeaf.StartFor(b, key, 0), BTreeLeaf.EndFor(b, key, MAX_KEY);
    start', end', items := start, end, [];
    if lo > start { start' := lo; }
    if hi < end { end' := hi; }
    BTree.BelowIs(leaf, start');
    var first := BTree.Below(leaf, start');
    var node := first;
    assert leaf[first..first] == [];
    while node < |leaf| && leaf[node].key <= end'
      invariant first <= node <= |leaf| && items == leaf[first..node]
      invariant node > first ==> leaf[node - 1].key <= end'
    {
      OneMore(leaf, first, node);
      items := items + [leaf[node]];
      node := node + 1;
    }
    Delivers(b, key, start', end', first, node);
  }

  lemma {:induction false} OneMore(leaf: seq<BTree.Entry>, first: nat, node: nat)
    requires first <= node < |leaf|
    ensures leaf[first..node] + [leaf[node]] == leaf[first..node + 1]
  {
  }

  lemma Delivers(b: BTree.Block, key: nat, start: nat, end: nat, first: nat, node: nat)
    requires BTreeRoot.TreeOK(b) && key <= MAX_KEY
    requires BTreeLeaf.StartFor(b, key, 0) <= start && end <= BTreeLeaf.EndFor(b, key, MAX_KEY)
    requires first == BTree.Below(BTreeLeaf.LeafFor(b, key), start) && first <= node <= |BTreeLeaf.LeafFor(b, key)|
    requires node > first ==> BTreeLeaf.LeafFor(b, key)[node - 1].key <= end
    requires node < |BTreeLeaf.LeafFor(b, key)| ==> BTreeLeaf.LeafFor(b, key)[node].key > end
    ensures FromTree(BTreeRoot.AllOf(b), BTreeLeaf.LeafFor(b, key)[first..node], start, end)
    ensures forall k :: k in BTreeRoot.AllOf(b) && start <= k <= end ==> Among(BTreeLeaf.LeafFor(b, key)[first..node], node - first, k)
  {
    hide BTreeRoot.TreeOK, BTreeRoot.AllOf, BTreeLeaf.LeafFor, BTreeLeaf.StartFor, BTreeLeaf.EndFor, BTree.Below;
    hide BTree.Shape, BTreeMap.ValueOf, BTreeMap.HasKey, BTree.Increasing, Among;
    BTreeRoot.TreeLeaf(b, key);
    var leaf := BTreeLeaf.LeafFor(b, key);
    BTree.BelowIs(leaf, start);
    var items := leaf[first..node];
    SliceIncreases(leaf, first, node);
    forall i | 0 <= i < |items|
      ensures start <= items[i].key <= end && items[i].key in BTreeRoot.AllOf(b)
      ensures items[i].key in BTreeRoot.AllOf(b) && BTreeRoot.AllOf(b)[items[i].key] == BTreeMap.ValueOf(items[i])
    {
      BTreeIter.LeafItem(b, key, first + i);
      if i + first < node - 1 { BTree.KeyOrder(leaf, first + i, node - 1); }
    }
    forall k | k in BTreeRoot.AllOf(b) && start <= k <= end ensures Among(items, node - first, k) {
      BTreeIter.InRangeInLeaf(b, key, k);
      var j := BTreeIter.HasKeyAt(leaf, k);
      if node < j { BTree.KeyOrder(leaf, node, j); }
      IsAmong(items, j - first);
    }
  }

  lemma SliceIncreases(es: seq<BTree.Entry>, first: nat, node: nat)
    requires BTree.Increasing(es) && first <= node <= |es|
    ensures BTree.Increasing(es[first..node])
  {
  }

  lemma IsAmong(items: seq<BTree.Entry>, j: nat)
    requires j < |items|
    ensures Among(items, |items|, items[j].key)
  {
  }

  // ---- collecting items in private pages

  /** Puts an item in the page for its key. */
  lemma PutLooks(pages: set<Page>, pg: Page, key: nat, item: Item, k: nat)
    requires Good(pages) && pg in pages && Covers(pg, key)
    ensures Good(pages - {pg} + {pg.(items := pg.items[key := item])})
    ensures Look(pages - {pg} + {pg.(items := pg.items[key := item])}, k) == if k == key then Present(item) else Look(pages, k)
  {
    hide Look;
    PutPart(pages, pg, pg.(items := pg.items[key := item]), k);
    DropPage(pages, pg, k);
  }

  /** A newly read item stays out if a version at least as high was found; a page may be split for it first. */
  method ReadPageItem(root: set<Page>, key: nat, liv: LogItem) returns (pages: set<Page>)
    requires Good(root) && Look(root, key) != Uncached
    ensures Good(pages)
    ensures forall k: nat :: k != key ==> Look(pages, k) == Look(root, k)
    ensures forall found :: Look(root, key) == CellOf(found) ==> Look(pages, key) == CellOf(Take(found, Some(liv)))
  {
    hide Good, Look;
    pages := root;
    LookNone(root, key);
    var pg :| pg in pages && Covers(pg, key);
    LookIn(root, pg, key);
    if key in pg.items && pg.items[key].vers >= liv.vers {
      return;
    }
    if * {
      pages, pg := SplitFor(pages, pg, key);
    }
    var item := Item(liv.val, liv.vers, false, true, liv.deletion);
    PutEverywhere(pages, pg, key, item);
    pages := pages - {pg} + {pg.(items := pg.items[key := item])};
  }

  /** The page for a key once a page was split, if it has the items that a split needs. */
  method SplitFor(root: set<Page>, page: Page, key: nat) returns (pages: set<Page>, pg: Page)
    requires Good(root) && page in root && Covers(page, key)
    ensures Good(pages) && pg in pages && Covers(pg, key) && forall k: nat :: Look(pages, k) == Look(root, k)
  {
    hide Good, Look, Weight, Heaviest, Before, From, InOrder;
    pages, pg := root, page;
    if |pg.items| < 2 {
      return;
    }
    GoodPage(pages, pg);
    var left, right, mid := SetSplitKeys(pg, InOrder(pg.items.Keys));
    assert right.start in pg.items;
    left := left.(items := Before(pg.items, right.start));
    right := right.(items := From(pg.items, right.start));
    SplitSame(root, pg, left, right);
    pages := pages - {pg} + {left} + {right};
    pg := if key <= left.end then left else right;
  }

  lemma PutEverywhere(pages: set<Page>, pg: Page, key: nat, item: Item)
    requires Good(pages) && pg in pages && Covers(pg, key)
    ensures Good(pages - {pg} + {pg.(items := pg.items[key := item])})
    ensures forall k: nat :: Look(pages - {pg} + {pg.(items := pg.items[key := item])}, k) == if k == key then Present(item) else Look(pages, k)
  {
    hide Good, Look;
    forall k: nat ensures Look(pages - {pg} + {pg.(items := pg.items[key := item])}, k) == if k == key then Present(item) else Look(pages, k) {
      PutLooks(pages, pg, key, item, k);
    }
    PutLooks(pages, pg, key, item, 0);
  }

  // ---- all trees

  predicate Asked(r: Root) {
    r.isFs || r.bloom
  }

  ghost predicate CoverExactly(pages: set<Page>, first: nat, last: nat) {
    forall k: nat :: Look(pages, k) != Uncached <==> first <= k <= last
  }

  /** The private pages cover the range of the lock, and in the range that all trees spoke for they hold the newest items. */
  ghost predicate Merged(pages: set<Page>, trees: seq<Tree>, start: nat, end: nat, first: nat, last: nat) {
    && Good(pages) && CoverExactly(pages, first, last) && first <= start && end <= last
    && forall k: nat :: start <= k <= end ==> Look(pages, k) == CellOf(Newest(trees, k))
  }

  /** The same when only the first entries of the next tree have been put in. */
  ghost predicate Merging(pages: set<Page>, trees: seq<Tree>, tree: Tree, items: seq<BTree.Entry>, n: nat, start: nat, end: nat, first: nat, last: nat) {
    && Good(pages) && CoverExactly(pages, first, last) && first <= start && end <= last
    && forall k: nat :: start <= k <= end ==>
         Look(pages, k) == CellOf(Take(Newest(trees, k), if Among(items, n, k) then At(tree, k) else None))
  }

  lemma MergingStarts(pages: set<Page>, trees: seq<Tree>, tree: Tree, items: seq<BTree.Entry>, start: nat, end: nat, start': nat, end': nat, first: nat, last: nat)
    requires Merged(pages, trees, start, end, first, last) && start <= start' && end' <= end
    ensures Merging(pages, trees, tree, items, 0, start', end', first, last)
  {
    hide Good, Look, CellOf, Newest;
  }

  lemma AmongNext(items: seq<BTree.Entry>, n: nat, k: nat)
    requires n < |items| && BTree.Increasing(items)
    ensures Among(items, n + 1, k) <==> Among(items, n, k) || k == items[n].key
    ensures !Among(items, n, items[n].key)
  {
    if k == items[n].key { assert Among(items, n + 1, k); }
    if Among(items, n, k) {
      var i :| 0 <= i < n && i < |items| && items[i].key == k;
      assert Among(items, n + 1, k);
    }
  }

  lemma MergingStep(pages: set<Page>, pages': set<Page>, trees: seq<Tree>, tree: Tree, items: seq<BTree.Entry>, n: nat, start: nat, end: nat, first: nat, last: nat)
    requires Merging(pages, trees, tree, items, n, start, end, first, last) && n < |items| && BTree.Increasing(items)
    requires start <= items[n].key <= end && items[n].key in tree
    requires Good(pages') && forall k: nat :: k != items[n].key ==> Look(pages', k) == Look(pages, k)
    requires forall found :: Look(pages, items[n].key) == CellOf(found) ==>
               Look(pages', items[n].key) == CellOf(Take(found, Some(tree[items[n].key])))
    ensures Merging(pages', trees, tree, items, n + 1, start, end, first, last)
  {
    hide Good, Look, Newest, Among, BTree.Increasing;
    var key := items[n].key;
    AmongNext(items, n, key);
    assert Look(pages, key) == CellOf(Newest(trees, key));
    assert Look(pages', key) == CellOf(Take(Newest(trees, key), Some(tree[key])));
    forall k: nat ensures Look(pages', k) != Uncached <==> first <= k <= last {
      assert Look(pages, k) != Uncached <==> first <= k <= last;
    }
    forall k: nat | start <= k <= end
      ensures Look(pages', k) == CellOf(Take(Newest(trees, k), if Among(items, n + 1, k) then At(tree, k) else None))
    {
      AmongNext(items, n, k);
    }
  }

  lemma MergingEnds(pages: set<Page>, trees: seq<Tree>, tree: Tree, items: seq<BTree.Entry>, start: nat, end: nat, first: nat, last: nat)
    requires Merging(pages, trees, tree, items, |items|, start, end, first, last)
    requires forall k :: k in tree && start <= k <= end ==> Among(items, |items|, k)
    ensures Merged(pages, trees + [tree], start, end, first, last)
  {
    hide Good, Look, CellOf, Among;
    assert (trees + [tree])[..|trees|] == trees;
  }

  /** Adds the items that one tree has around the key. */
  method ReadTree(root: set<Page>, r: Root, key: nat, start: nat, end: nat, ghost trees: seq<Tree>, ghost first: nat, ghost last: nat)
    returns (start': nat, end': nat, pages: set<Page>)
    requires RootOK(r) && r.block.Some? && start <= key <= end <= MAX_KEY && Merged(root, trees, start, end, first, last)
    ensures start <= start' <= key <= end' <= end
    ensures Merged(pages, trees + [Stored(r)], start', end', first, last)
  {
    hide Good, Look, CellOf, Newest, Among, Merged, Merging, BTreeRoot.TreeOK, BTreeRoot.AllOf, BTree.Increasing;
    var items;
    start', end', items := ReadItems(r.block.value, key, start, end);
    pages := root;
    MergingStarts(pages, trees, Stored(r), items, start, end, start', end', first, last);
    var n := 0;
    while n < |items|
      invariant n <= |items| && Merging(pages, trees, Stored(r), items, n, start', end', first, last)
    {
      assert items[n].key in Raw(r);
      CoversKey(pages, trees, Stored(r), items, n, start', end', first, last, items[n].key);
      var next := ReadPageItem(pages, items[n].key, ItemOf(r.isFs, BTreeMap.ValueOf(items[n])));
      MergingStep(pages, next, trees, Stored(r), items, n, start', end', first, last);
      pages := next;
      n := n + 1;
    }
    MergingEnds(pages, trees, Stored(r), items, start', end', first, last);
  }

  lemma CoversKey(pages: set<Page>, trees: seq<Tree>, tree: Tree, items: seq<BTree.Entry>, n: nat, start: nat, end: nat, first: nat, last: nat, k: nat)
    requires Merging(pages, trees, tree, items, n, start, end, first, last) && start <= k <= end
    ensures Good(pages) && Look(pages, k) != Uncached
  {
    hide Good, Look;
  }

  /** The trees that are not asked have nothing in the range of the lock. */
  ghost predicate BloomsTell(roots: seq<Root>, first: nat, last: nat)
    requires RootsOK(roots)
  {
    forall i :: 0 <= i < |roots| && !Asked(roots[i]) ==> forall k :: k in Stored(roots[i]) ==> !(first <= k <= last)
  }

  lemma SkipTree(pages: set<Page>, trees: seq<Tree>, tree: Tree, start: nat, end: nat, first: nat, last: nat)
    requires Merged(pages, trees, start, end, first, last) && forall k :: k in tree ==> !(first <= k <= last)
    ensures Merged(pages, trees + [tree], start, end, first, last)
  {
    hide Good, Look, CellOf;
    assert (trees + [tree])[..|trees|] == trees;
  }

  lemma EmptyPage(first: nat, last: nat)
    requires first <= last <= MAX_KEY
    ensures Merged({Page(first, last, map[])}, [], first, last, first, last)
  {
    hide Look;
    var p := Page(first, last, map[]);
    LookOne(p, 0);
    forall k: nat ensures Look({p}, k) == In(p, k) { LookOne(p, k); }
  }

  lemma StoredNext(roots: seq<Root>, n: nat)
    requires RootsOK(roots) && n < |roots|
    ensures AllStored(roots)[..n + 1] == AllStored(roots)[..n] + [Stored(roots[n])]
  {
  }

  /**
    Every item around the key from every tree: the newest item of each key in the
    range that all of the trees spoke for.  It fails when a tree that has to be
    asked has no blocks.
  */
  method ReadForest(roots: seq<Root>, key: nat, first: nat, last: nat)
    returns (ret: int, start: nat, end: nat, pages: set<Page>)
    requires RootsOK(roots) && BloomsTell(roots, first, last) && first <= key <= last <= MAX_KEY
    ensures ret == if exists i :: 0 <= i < |roots| && Asked(roots[i]) && roots[i].block.None? then ENOENT else 0
    ensures first <= start <= key <= end <= last
    ensures ret == 0 ==> Merged(pages, AllStored(roots), start, end, first, last)
  {
    hide Merged, Good, Look, AllStored, BTreeRoot.TreeOK, BTreeRoot.AllOf, Stored;
    start, end, pages := first, last, {Page(first, last, map[])};
    EmptyPage(first, last);
    assert AllStored(roots)[..0] == [];
    var n := 0;
    while n < |roots|
      invariant n <= |roots| && first <= start <= key <= end <= last
      invariant Merged(pages, AllStored(roots)[..n], start, end, first, last)
      invariant forall i :: 0 <= i < n ==> !(Asked(roots[i]) && roots[i].block.None?)
    {
      StoredNext(roots, n);
      if Asked(roots[n]) {
        if roots[n].block.None? {
          return ENOENT, start, end, pages;
        }
        start, end, pages := ReadTree(pages, roots[n], key, start, end, AllStored(roots)[..n], first, last);
      } else {
        SkipTree(pages, AllStored(roots)[..n], Stored(roots[n]), start, end, first, last);
      }
      n := n + 1;
    }
    assert AllStored(roots)[..n] == AllStored(roots);
    ret := 0;
  }

  /**
    A filesystem tree that stores an item, and a log tree whose bloom bits were set
    for a create that then failed: it has no blocks, and the item is not read.
  */
  method ReadMissesItem(key: nat, val: seq<nat>, first: nat, last: nat) returns (roots: seq<Root>, ret: int)
    requires first <= key <= last <= MAX_KEY && |val| <= LeafValues.MAX_VAL_LEN
    ensures RootsOK(roots) && BloomsTell(roots, first, last)
    ensures |roots| == 2 && Newest(AllStored(roots), key) == Some(LogItem(0, false, val)) && ret == ENOENT
  {
    hide Merged, Good, Look, BTreeRoot.TreeOK, BTreeRoot.AllOf;
    var fs := new BTreeRoot.Tree();
    var done := fs.Insert(key, val);
    assert fs.root.Some?;
    roots := [Root(fs.root, true, false), Root(None, false, true)];
    var start, end, pages;
    ret, start, end, pages := ReadForest(roots, key, first, last);
    assert Asked(roots[1]) && roots[1].block.None?;
    NewestOfTwo(AllStored(roots), key);
  }

  lemma NewestOfTwo(trees: seq<Tree>, k: nat)
    requires |trees| == 2 && k in trees[0] && k !in trees[1]
    ensures Newest(trees, k) == Some(trees[0][k])
  {
    assert trees[..1][..0] == [];
    assert Newest([], k) == None;
  }

  // ---- cleaning up what was read

  /** What is to be left of a cell of the private pages. */
  function Kept(c: Cell, start: nat, end: nat, k: nat): Cell {
    if 0 < start <= k <= end < MAX_KEY then Undeleted(c) else Uncached
  }

  /**
    A page without what lies outside of the range and without deletions.  The keys
    around the range are found by stepping its ends, so that a range which starts
    at the first key or ends at the last one loses everything.
  */
  method CleanPage(page: Page, start: nat, end: nat) returns (r: Option<Page>)
    requires PageOK(page) && start <= end <= MAX_KEY
    ensures r.None? ==> forall k: nat :: Kept(In(page, k), start, end, k) == Uncached
    ensures r.Some? ==> PageOK(r.value) && Inside(r.value, page) && forall k: nat :: In(r.value, k) == Kept(In(page, k), start, end, k)
  {
    hide Left;
    var code, pg, right := TrimPageIntersection(page, false, 0, Dec(start));
    LeftIs(code, pg, right);
    if code != InsideRange {
      code, pg, right := TrimPageIntersection(pg, false, Inc(end), MAX_KEY);
      LeftIs(code, pg, right);
    }
    if code == InsideRange {
      return None;
    }
    pg := pg.(items := map k | k in pg.items && !pg.items[k].deletion :: pg.items[k]);
    return Some(pg);
  }

  lemma LeftIs(code: Overlap, pg: Page, right: Page)
    requires code != Bisected
    ensures forall k: nat :: Left(code, pg, right, k) == if code == InsideRange then Uncached else In(pg, k)
  {
  }

  ghost predicate CoveredBy(pages: set<Page>, k: nat) {
    exists p :: p in pages && Covers(p, k)
  }

  /** Some pages have been cleaned and the pages in `left` have not. */
  ghost predicate Cleaning(root: set<Page>, pages: set<Page>, left: set<Page>, start: nat, end: nat) {
    && Good(pages) && left <= pages
    && forall k: nat :: Look(pages, k) == if CoveredBy(left, k) then Look(root, k) else Kept(Look(root, k), start, end, k)
  }

  lemma CleaningStep(root: set<Page>, pages: set<Page>, left: set<Page>, start: nat, end: nat, page: Page, r: Option<Page>)
    requires Cleaning(root, pages, left, start, end) && page in left
    requires r.None? ==> forall k: nat :: Kept(In(page, k), start, end, k) == Uncached
    requires r.Some? ==> PageOK(r.value) && Inside(r.value, page) && forall k: nat :: In(r.value, k) == Kept(In(page, k), start, end, k)
    ensures Cleaning(root, if r.Some? then pages - {page} + {r.value} else pages - {page}, left - {page}, start, end)
  {
    hide Look, Kept;
    var pages' := if r.Some? then pages - {page} + {r.value} else pages - {page};
    assert Good(pages') by {
      if r.Some? { PutPart(pages, page, r.value, 0); } else { DropPage(pages, page, 0); }
    }
    forall k: nat ensures Look(pages', k) == if CoveredBy(left - {page}, k) then Look(root, k) else Kept(Look(root, k), start, end, k) {
      if r.Some? { PutPart(pages, page, r.value, k); }
      DropPage(pages, page, k);
      if Covers(page, k) {
        assert CoveredBy(left, k);
        assert !CoveredBy(left - {page}, k) by { assert forall p :: p in left && p != page ==> Apart(p, page); }
      } else {
        CoveredLess(left, page, k);
      }
    }
  }

  lemma CoveredLess(left: set<Page>, page: Page, k: nat)
    requires !Covers(page, k)
    ensures CoveredBy(left - {page}, k) <==> CoveredBy(left, k)
  {
    if CoveredBy(left, k) {
      var p :| p in left && Covers(p, k);
      assert p in left - {page};
    }
  }

  method CleanRead(root: set<Page>, start: nat, end: nat) returns (pages: set<Page>)
    requires Good(root) && start <= end <= MAX_KEY
    ensures Good(pages) && forall k: nat :: Look(pages, k) == Kept(Look(root, k), start, end, k)
  {
    hide Look, Kept, Good, Cleaning;
    pages := root;
    var left := root;
    CleaningStarts(root, start, end);
    while left != {}
      invariant Cleaning(root, pages, left, start, end)
      decreases |left|
    {
      var page :| page in left;
      CleaningIs(root, pages, left, start, end);
      GoodPage(pages, page);
      var r := CleanPage(page, start, end);
      CleaningStep(root, pages, left, start, end, page, r);
      left, pages := left - {page}, if r.Some? then pages - {page} + {r.value} else pages - {page};
    }
    CleaningIs(root, pages, left, start, end);
  }

  lemma CleaningStarts(root: set<Page>, start: nat, end: nat)
    requires Good(root)
    ensures Cleaning(root, root, root, start, end)
  {
    hide Look, Kept;
    forall k: nat | !CoveredBy(root, k) ensures Look(root, k) == Kept(Look(root, k), start, end, k) {
      LookNone(root, k);
      KeptNone(start, end, k);
    }
  }

  lemma KeptNone(start: nat, end: nat, k: nat)
    ensures Kept(Uncached, start, end, k) == Uncached
  {
  }

  lemma CleaningIs(root: set<Page>, pages: set<Page>, left: set<Page>, start: nat, end: nat)
    requires Cleaning(root, pages, left, start, end)
    ensures Good(pages) && left <= pages
    ensures left == {} ==> forall k: nat :: Look(pages, k) == Kept(Look(root, k), start, end, k)
  {
    hide Look, Kept, Good;
  }
}
