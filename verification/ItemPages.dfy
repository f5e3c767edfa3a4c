/**
  The pages of the item cache: disjoint ranges of keys, each with the items that
  are known to exist in its range.  Trimming a range out of a page, splitting a
  page and adding pages are shown as changes of what is known about each key.
*/
module ItemPages {
  import opened Keys

  type Bytes = seq<nat>

  /** A cached item: the version it was written with and what commits still have to do with it. */
  datatype Item = Item(val: Bytes, vers: nat, dirty: bool, persistent: bool, deletion: bool)

  /** A page knows every item in its range; keys of the range without an item do not exist. */
  datatype Page = Page(start: nat, end: nat, items: map<nat, Item>)

  /** What the cache knows about one key. */
  datatype Cell = Uncached | Absent | Present(item: Item)

  predicate Covers(p: Page, k: nat) {
    p.start <= k <= p.end
  }

  predicate Apart(p: Page, q: Page) {
    p.end < q.start || q.end < p.start
  }

  predicate PageOK(p: Page) {
    p.start <= p.end <= MAX_KEY && forall k :: k in p.items ==> Covers(p, k)
  }

  ghost predicate Good(pages: set<Page>) {
    && (forall p :: p in pages ==> PageOK(p))
    && (forall p, q :: p in pages && q in pages && p != q ==> Apart(p, q))
  }

  function In(p: Page, k: nat): Cell {
    if !Covers(p, k) then Uncached
    else if k in p.items then Present(p.items[k]) else Absent
  }

  ghost function Look(pages: set<Page>, k: nat): Cell {
    if exists p :: p in pages && Covers(p, k) then
      var p :| p in pages && Covers(p, k);
      In(p, k)
    else
      Uncached
  }

  lemma GoodPage(pages: set<Page>, p: Page)
    requires Good(pages) && p in pages
    ensures PageOK(p)
  {
  }

  lemma LookIn(pages: set<Page>, p: Page, k: nat)
    requires Good(pages) && p in pages && Covers(p, k)
    ensures Look(pages, k) == In(p, k)
  {
  }

  lemma LookNone(pages: set<Page>, k: nat)
    requires Good(pages)
    ensures Look(pages, k) == Uncached <==> forall p :: p in pages ==> !Covers(p, k)
  {
  }

  lemma LookOne(p: Page, k: nat)
    requires PageOK(p)
    ensures Good({p}) && Look({p}, k) == In(p, k)
  {
    if Covers(p, k) { LookIn({p}, p, k); }
  }

  // ---- changing the set of pages

  lemma AddPage(pages: set<Page>, p: Page, k: nat)
    requires Good(pages) && PageOK(p) && forall q :: q in pages ==> Apart(p, q)
    ensures Good(pages + {p})
    ensures Look(pages + {p}, k) == if Covers(p, k) then In(p, k) else Look(pages, k)
  {
    if Covers(p, k) {
      LookIn(pages + {p}, p, k);
    } else if q :| q in pages && Covers(q, k) {
      LookIn(pages, q, k);
      LookIn(pages + {p}, q, k);
    }
  }

  lemma DropPage(pages: set<Page>, p: Page, k: nat)
    requires Good(pages) && p in pages
    ensures Good(pages - {p})
    ensures Look(pages - {p}, k) == if Covers(p, k) then Uncached else Look(pages, k)
    ensures Covers(p, k) ==> Look(pages, k) == In(p, k)
    ensures forall q :: q in pages - {p} ==> Apart(p, q)
  {
    if !Covers(p, k) {
      if q :| q in pages && Covers(q, k) {
        LookIn(pages, q, k);
        LookIn(pages - {p}, q, k);
      }
    }
  }

  predicate Inside(part: Page, p: Page) {
    p.start <= part.start && part.end <= p.end
  }

  /** One page inside the range of a removed page. */
  lemma PutPart(pages: set<Page>, p: Page, part: Page, k: nat)
    requires Good(pages) && p in pages && PageOK(part) && Inside(part, p)
    ensures Good(pages - {p} + {part})
    ensures Look(pages - {p} + {part}, k) == if Covers(p, k) then In(part, k) else Look(pages, k)
  {
    DropPage(pages, p, k);
    AddPage(pages - {p}, part, k);
  }

  /** Two pages inside the range of a removed page. */
  lemma PutParts(pages: set<Page>, p: Page, left: Page, right: Page, k: nat)
    requires Good(pages) && p in pages && PageOK(left) && PageOK(right) && Inside(left, p) && Inside(right, p)
    requires left.end < right.start
    ensures Good(pages - {p} + {left} + {right})
    ensures Look(pages - {p} + {left} + {right}, k) ==
            if Covers(p, k) then (if Covers(right, k) then In(right, k) else In(left, k)) else Look(pages, k)
  {
    PutPart(pages, p, left, k);
    AddPage(pages - {p} + {left}, right, k);
  }

  // ---- trimming

  datatype Overlap = DisjointRange | InsideRange | StartOverlap | EndOverlap | BisectNeeded | Bisected

  /** Items in a range are erased; items from a key on are moved. */
  function Erased(items: map<nat, Item>, start: nat, end: nat): map<nat, Item> {
    map k | k in items && !(start <= k <= end) :: items[k]
  }

  function From(items: map<nat, Item>, key: nat): map<nat, Item> {
    map k | k in items && key <= k :: items[k]
  }

  function Before(items: map<nat, Item>, key: nat): map<nat, Item> {
    map k | k in items && k < key :: items[k]
  }

  /**
    What is left of a page without the range: `pg` is its first part and, when the
    range falls in its middle and there is a spare page, `right` its second.
  */
  method TrimPageIntersection(page: Page, spare: bool, start: nat, end: nat)
    returns (code: Overlap, pg: Page, right: Page)
    requires PageOK(page) && start <= end <= MAX_KEY
    ensures code == DisjointRange <==> end < page.start || page.end < start
    ensures code == InsideRange <==> start <= page.start && page.end <= end
    ensures code == BisectNeeded <==> page.start < start && end < page.end && !spare
    ensures code == Bisected <==> page.start < start && end < page.end && spare
    ensures code in {DisjointRange, BisectNeeded} ==> pg == page
    ensures code != InsideRange ==> PageOK(pg) && Inside(pg, page)
    ensures code == Bisected ==> PageOK(right) && Inside(right, page) && pg.end < right.start
    ensures code != BisectNeeded ==> forall k: nat :: Left(code, pg, right, k) == if start <= k <= end then Uncached else In(page, k)
  {
    pg, right := page, page;
    if page.start > end || page.end < start {
      return DisjointRange, pg, right;
    }
    if page.start >= start && page.end <= end {
      return InsideRange, pg, right;
    }
    if page.start < start && page.end > end {
      if !spare {
        return BisectNeeded, pg, right;
      }
      right := right.(start := Inc(end));
      right := right.(end := pg.end);
      pg := pg.(end := Dec(start));
      pg := pg.(items := Erased(pg.items, start, end));
      right := right.(items := From(pg.items, right.start));
      pg := pg.(items := Before(pg.items, right.start));
      return Bisected, pg, right;
    }
    if page.end > end {
      pg := pg.(start := Inc(end));
      pg := pg.(items := Erased(pg.items, start, end));
      return StartOverlap, pg, right;
    }
    pg := pg.(end := Dec(start));
    pg := pg.(items := Erased(pg.items, start, end));
    return EndOverlap, pg, right;
  }

  /** What the pages that trimming left behind know about a key. */
  function Left(code: Overlap, pg: Page, right: Page, k: nat): Cell {
    if code == InsideRange then Uncached
    else if code == Bisected && Covers(right, k) then In(right, k) else In(pg, k)
  }

  /** The pages once a page was replaced by what trimming left of it. */
  ghost function Rest(pages: set<Page>, page: Page, code: Overlap, pg: Page, right: Page): set<Page> {
    match code
    case InsideRange => pages - {page}
    case Bisected => pages - {page} + {pg} + {right}
    case _ => pages - {page} + {pg}
  }

  /** Trimming one page of the cache takes exactly its part of the range away. */
  lemma RestLooks(pages: set<Page>, page: Page, code: Overlap, pg: Page, right: Page, start: nat, end: nat, k: nat)
    requires Good(pages) && page in pages && code != BisectNeeded
    requires code != InsideRange ==> PageOK(pg) && Inside(pg, page)
    requires code == Bisected ==> PageOK(right) && Inside(right, page) && pg.end < right.start
    requires Left(code, pg, right, k) == if start <= k <= end then Uncached else In(page, k)
    ensures Good(Rest(pages, page, code, pg, right))
    ensures Look(Rest(pages, page, code, pg, right), k) ==
            if Covers(page, k) && start <= k <= end then Uncached else Look(pages, k)
  {
    hide Good, Look;
    match code
    case InsideRange => DropPage(pages, page, k);
    case Bisected => PutParts(pages, page, pg, right, k); DropPage(pages, page, k);
    case _ => PutPart(pages, page, pg, k); DropPage(pages, page, k);
  }

  // ---- splitting

  predicate Ascending(keys: seq<nat>) {
    forall i, j :: 0 <= i < j < |keys| ==> keys[i] < keys[j]
  }

  /** The keys of a page's items as its item tree orders them. */
  predicate IsOrder(items: map<nat, Item>, keys: seq<nat>) {
    && Ascending(keys)
    && (forall k :: k in items ==> k in keys)
    && (forall k :: k in keys ==> k in items)
  }

  /** The keys of a page in order. */
  function InOrder(s: set<nat>): (r: seq<nat>)
    ensures Ascending(r) && |r| == |s|
    ensures forall k :: k in r ==> k in s
    ensures forall k :: k in s ==> k in r
  {
    if s == {} then [] else
      LeastExists(s);
      var m :| IsLeast(s, m);
      LeastFirst(s, m, InOrder(s - {m}));
      [m] + InOrder(s - {m})
  }

  predicate IsLeast(s: set<nat>, m: nat) {
    m in s && forall k :: k in s ==> m <= k
  }

  lemma LeastFirst(s: set<nat>, m: nat, r: seq<nat>)
    requires IsLeast(s, m) && Ascending(r) && |r| == |s - {m}|
    requires forall k :: k in r ==> k in s - {m}
    requires forall k :: k in s - {m} ==> k in r
    ensures Ascending([m] + r) && |[m] + r| == |s|
    ensures forall k :: k in [m] + r ==> k in s
    ensures forall k :: k in s ==> k in [m] + r
  {
    forall i | 0 <= i < |r| ensures m < r[i] { assert r[i] in s - {m}; }
    forall k | k in s ensures k in [m] + r {
      if k != m { assert k in r; }
    }
  }

  lemma {:induction false} LeastExists(s: set<nat>)
    requires s != {}
    ensures exists m :: IsLeast(s, m)
    decreases |s|
  {
    var x :| x in s;
    if s == {x} {
      assert IsLeast(s, x);
    } else {
      LeastExists(s - {x});
      var m :| IsLeast(s - {x}, m);
      forall k | k in s ensures k == x || k in s - {x} {}
      assert IsLeast(s, if x < m then x else m);
    }
  }

  const ITEM_BYTES := 84

  function ItemValBytes(val: Bytes): nat {
    ITEM_BYTES + |val|
  }

  function Weight(items: map<nat, Item>, keys: seq<nat>): nat
    requires forall k :: k in keys ==> k in items
  {
    if keys == [] then 0 else Weight(items, keys[..|keys| - 1]) + ItemValBytes(items[keys[|keys| - 1]].val)
  }

  /** The bytes of the largest item. */
  function Heaviest(items: map<nat, Item>, keys: seq<nat>): nat
    requires forall k :: k in keys ==> k in items
  {
    if keys == [] then 0
    else
      var rest, bytes := Heaviest(items, keys[1..]), ItemValBytes(items[keys[0]].val);
      if rest < bytes then bytes else rest
  }

  lemma {:induction false} HeaviestBounds(items: map<nat, Item>, keys: seq<nat>)
    requires forall k :: k in keys ==> k in items
    ensures forall i :: 0 <= i < |keys| ==> ItemValBytes(items[keys[i]].val) <= Heaviest(items, keys)
  {
    if keys != [] {
      HeaviestBounds(items, keys[1..]);
      forall i | 0 < i < |keys| ensures ItemValBytes(items[keys[i]].val) <= Heaviest(items, keys) {
        assert keys[i] == keys[1..][i - 1];
      }
    }
  }

  lemma {:induction false} WeightFront(items: map<nat, Item>, keys: seq<nat>)
    requires |keys| > 0 && forall k :: k in keys ==> k in items
    ensures Weight(items, keys) == ItemValBytes(items[keys[0]].val) + Weight(items, keys[1..])
  {
    if |keys| > 1 {
      var init := keys[..|keys| - 1];
      WeightFront(items, init);
      assert keys[1..][..|keys[1..]| - 1] == init[1..];
      assert forall k :: k in init ==> k in keys;
    }
  }

  lemma WeightEmpty(items: map<nat, Item>, keys: seq<nat>)
    requires forall k :: k in keys ==> k in items
    ensures Weight(items, keys[..0]) == 0 && Weight(items, keys[|keys|..]) == 0
  {
  }

  lemma {:induction false} WeightStep(items: map<nat, Item>, keys: seq<nat>, i: nat)
    requires i < |keys| && forall k :: k in keys ==> k in items
    ensures Weight(items, keys[..i + 1]) == Weight(items, keys[..i]) + ItemValBytes(items[keys[i]].val)
    ensures Weight(items, keys[i..]) == ItemValBytes(items[keys[i]].val) + Weight(items, keys[i + 1..])
  {
    hide ItemValBytes;
    assert keys[..i + 1][..i] == keys[..i];
    WeightFront(items, keys[i..]);
    assert keys[i..][1..] == keys[i + 1..];
  }

  /**
    The keys of the two halves of a page: they meet, neither is empty, and the
    bytes on the two sides of the middle item differ by no more than one item.
  */
  method SetSplitKeys(pg: Page, keys: seq<nat>) returns (left: Page, right: Page, ghost mid: nat)
    requires PageOK(pg) && IsOrder(pg.items, keys) && |keys| >= 2
    ensures left.start == pg.start && right.end == pg.end
    ensures left.start <= left.end && left.end + 1 == right.start
    ensures left.items == map[] && right.items == map[]
    ensures 0 < mid < |keys| && right.start == keys[mid]
    ensures Weight(pg.items, keys[..mid]) <= Weight(pg.items, keys[mid + 1..]) + Heaviest(pg.items, keys)
    ensures Weight(pg.items, keys[mid + 1..]) <= Weight(pg.items, keys[..mid]) + Heaviest(pg.items, keys)
  {
    hide Weight, Heaviest, ItemValBytes;
    ghost var most := Heaviest(pg.items, keys);
    HeaviestBounds(pg.items, keys);
    var leftItem, rightItem := 0, |keys| - 1;
    WeightEmpty(pg.items, keys);
    var leftTot, rightTot := 0, 0;
    while leftItem != rightItem
      invariant 0 <= leftItem <= rightItem < |keys|
      invariant leftItem > 0 || rightItem == |keys| - 1
      invariant leftTot == Weight(pg.items, keys[..leftItem])
      invariant rightTot == Weight(pg.items, keys[rightItem + 1..])
      invariant leftTot <= rightTot + most && rightTot <= leftTot + most
    {
      if leftTot <= rightTot {
        WeightStep(pg.items, keys, leftItem);
        leftTot := leftTot + ItemValBytes(pg.items[keys[leftItem]].val);
        leftItem := leftItem + 1;
      } else {
        WeightStep(pg.items, keys, rightItem);
        rightTot := rightTot + ItemValBytes(pg.items[keys[rightItem]].val);
        rightItem := rightItem - 1;
      }
    }
    mid := leftItem;
    assert keys[0] in pg.items && keys[0] < keys[mid];
    left := Page(pg.start, Dec(keys[leftItem]), map[]);
    right := Page(keys[leftItem], pg.end, map[]);
  }

  /** Moving the items below and above a key to the halves of a page changes nothing that is known. */
  lemma SplitLooks(pages: set<Page>, pg: Page, left: Page, right: Page, k: nat)
    requires Good(pages) && pg in pages
    requires left.start == pg.start && right.end == pg.end && left.end + 1 == right.start
    requires pg.start <= left.end && right.start <= pg.end
    requires left.items == Before(pg.items, right.start) && right.items == From(pg.items, right.start)
    ensures Good(pages - {pg} + {left} + {right})
    ensures Look(pages - {pg} + {left} + {right}, k) == Look(pages, k)
  {
    PutParts(pages, pg, left, right, k);
    DropPage(pages, pg, k);
  }

  /** The same is known of every key. */
  ghost predicate SameCells(pages: set<Page>, pages': set<Page>) {
    forall k: nat :: Look(pages', k) == Look(pages, k)
  }

  lemma SplitSame(pages: set<Page>, pg: Page, left: Page, right: Page)
    requires Good(pages) && pg in pages
    requires left.start == pg.start && right.end == pg.end && left.end + 1 == right.start
    requires pg.start <= left.end && right.start <= pg.end
    requires left.items == Before(pg.items, right.start) && right.items == From(pg.items, right.start)
    ensures Good(pages - {pg} + {left} + {right}) && SameCells(pages, pages - {pg} + {left} + {right})
    ensures |pages - {pg} + {left} + {right}| == |pages| + 1
  {
    hide Look;
    SplitLooks(pages, pg, left, right, 0);
    forall k: nat ensures Look(pages - {pg} + {left} + {right}, k) == Look(pages, k) {
      SplitLooks(pages, pg, left, right, k);
    }
    assert left !in pages - {pg} && right !in pages - {pg} by {
      assert !Apart(pg, left) && !Apart(pg, right);
    }
  }
}
