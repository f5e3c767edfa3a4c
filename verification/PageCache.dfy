/**
  The tree of cached pages and the operations that change which keys it covers:
  invalidating a range, splitting a full page, caching an empty range, adding
  pages that were read and shrinking.
*/
module PageCache {
  import opened Wrappers
  import opened Keys
  import opened ItemPages
  import opened LogItems
  import opened ItemCells

  predicate Meets(p: Page, start: nat, end: nat) {
    p.start <= end && start <= p.end
  }

  function Meeting(pages: set<Page>, start: nat, end: nat): set<Page> {
    set p | p in pages && Meets(p, start, end)
  }

  /** The keys of a range are no longer cached, and all others are as they were. */
  ghost predicate Forgets(pages: set<Page>, pages': set<Page>, start: nat, end: nat) {
    forall k: nat :: Look(pages', k) == if start <= k <= end then Uncached else Look(pages, k)
  }

  /** Like forgetting, but some keys of the range are still cached as they were. */
  ghost predicate Forgetting(pages: set<Page>, pages': set<Page>, start: nat, end: nat) {
    forall k: nat :: Look(pages', k) == Look(pages, k) || (start <= k <= end && Look(pages', k) == Uncached)
  }

  /** No dirty item has a key in the range. */
  ghost predicate CleanRange(pages: set<Page>, start: nat, end: nat) {
    forall k: nat :: start <= k <= end && Look(pages, k).Present? ==> !Look(pages, k).item.dirty
  }

  /** Only one key is known differently. */
  ghost predicate Sets(pages: set<Page>, pages': set<Page>, key: nat, c: Cell) {
    Good(pages') && forall k: nat :: Look(pages', k) == if k == key then c else Look(pages, k)
  }

  /** What a read found is known where nothing was cached. */
  ghost predicate Fills(pages: set<Page>, pages': set<Page>, trees: seq<Tree>, lo: nat, hi: nat) {
    forall k: nat :: Look(pages', k) == FillCell(Look(pages, k), trees, lo, hi, k)
  }

  /** Trimming a page that meets the range leaves fewer pages that do. */
  lemma TrimsMeeting(pages: set<Page>, page: Page, code: Overlap, pg: Page, right: Page, start: nat, end: nat)
    requires Good(pages) && page in Meeting(pages, start, end) && start <= end
    requires code in {InsideRange, StartOverlap, EndOverlap}
    requires code != InsideRange ==> PageOK(pg) && Inside(pg, page)
    requires forall k: nat :: Left(code, pg, right, k) == if start <= k <= end then Uncached else In(page, k)
    ensures |Meeting(Rest(pages, page, code, pg, right), start, end)| < |Meeting(pages, start, end)|
  {
    var was, now := Meeting(pages, start, end), Meeting(Rest(pages, page, code, pg, right), start, end);
    if code != InsideRange {
      var k := if pg.start < start then start else pg.start;
      assert Left(code, pg, right, k) == In(pg, k);
    }
    assert now <= was - {page};
    Fewer(now, was, page);
  }

  lemma Fewer(a: set<Page>, b: set<Page>, p: Page)
    requires p in b && a <= b - {p}
    ensures |a| < |b|
  {
    Smaller(a, b - {p});
  }

  lemma {:induction false} Smaller(a: set<Page>, b: set<Page>)
    requires a <= b
    ensures |a| <= |b|
    decreases |a|
  {
    if p :| p in a { Smaller(a - {p}, b - {p}); }
  }

  /** When no page meets the range, nothing in it is cached. */
  lemma NoneMeet(pages: set<Page>, start: nat, end: nat)
    requires Meeting(pages, start, end) == {} && start <= end
    ensures forall k: nat :: start <= k <= end ==> Look(pages, k) == Uncached
  {
    forall k: nat | start <= k <= end ensures Look(pages, k) == Uncached {
      forall p | p in pages ensures !Covers(p, k) {
        assert p !in Meeting(pages, start, end);
      }
    }
  }

  /** One page trimmed inside the loop that forgets a range. */
  lemma TrimForgets(was: set<Page>, pages: set<Page>, page: Page, code: Overlap, pg: Page, right: Page, start: nat, end: nat)
    requires Good(pages) && page in pages && Forgetting(was, pages, start, end) && code != BisectNeeded
    requires code != InsideRange ==> PageOK(pg) && Inside(pg, page)
    requires code == Bisected ==> PageOK(right) && Inside(right, page) && pg.end < right.start
    requires forall k: nat :: Left(code, pg, right, k) == if start <= k <= end then Uncached else In(page, k)
    ensures Good(Rest(pages, page, code, pg, right))
    ensures Forgetting(was, Rest(pages, page, code, pg, right), start, end)
    ensures page.start <= start && end <= page.end ==> Forgets(was, Rest(pages, page, code, pg, right), start, end)
  {
    hide Good, Look, Rest;
    var rest := Rest(pages, page, code, pg, right);
    RestLooks(pages, page, code, pg, right, start, end, 0);
    forall k: nat
      ensures Look(rest, k) == Look(was, k) || (start <= k <= end && Look(rest, k) == Uncached)
      ensures page.start <= start && end <= page.end && start <= k <= end ==> Look(rest, k) == Uncached
    {
      RestLooks(pages, page, code, pg, right, start, end, k);
      assert Look(pages, k) == Look(was, k) || (start <= k <= end && Look(pages, k) == Uncached);
    }
  }

  lemma ForgetsAll(was: set<Page>, pages: set<Page>, start: nat, end: nat)
    requires Forgetting(was, pages, start, end) && Meeting(pages, start, end) == {} && start <= end
    ensures Forgets(was, pages, start, end)
  {
    hide Look, Meeting;
    NoneMeet(pages, start, end);
  }

  // ---- caching an empty range

  /** The nearest pages on the two sides of a key. */
  predicate IsPrev(pages: set<Page>, key: nat, prev: Option<Page>) {
    match prev
    case None => forall p :: p in pages ==> key <= p.end
    case Some(v) => v in pages && v.end < key && forall p :: p in pages && p.end < key ==> p.end <= v.end
  }

  predicate IsNext(pages: set<Page>, key: nat, next: Option<Page>) {
    match next
    case None => forall p :: p in pages ==> p.start <= key
    case Some(v) => v in pages && key < v.start && forall p :: p in pages && key < p.start ==> v.start <= p.start
  }

  method Neighbours(pages: set<Page>, key: nat) returns (prev: Option<Page>, next: Option<Page>)
    ensures IsPrev(pages, key, prev) && IsNext(pages, key, next)
  {
    prev, next := None, None;
    var left := pages;
    while left != {}
      invariant left <= pages && IsPrev(pages - left, key, prev) && IsNext(pages - left, key, next)
      decreases |left|
    {
      var p :| p in left;
      if p.end < key && (prev.None? || prev.value.end < p.end) {
        prev := Some(p);
      }
      if key < p.start && (next.None? || p.start < next.value.start) {
        next := Some(p);
      }
      assert pages - (left - {p}) == pages - left + {p};
      left := left - {p};
    }
    assert pages - {} == pages;
  }

  /** The page before the key ends on the first key of the range, or the page after it starts on the last. */
  ghost predicate Touching(pages: set<Page>, key: nat, start: nat, end: nat) {
    || (exists p :: IsPrev(pages, key, Some(p)) && p.end == start)
    || (exists p :: IsNext(pages, key, Some(p)) && p.start == end)
  }

  /** Some keys of the range are now known to have no item, and all others are as they were. */
  ghost predicate CachesEmpty(pages: set<Page>, pages': set<Page>, start: nat, end: nat) {
    forall k: nat :: Look(pages', k) == Look(pages, k) || (start <= k <= end && Look(pages, k) == Uncached && Look(pages', k) == Absent)
  }

  lemma SomeMeet(pages: set<Page>, key: nat)
    requires Meeting(pages, key, key) != {}
    ensures Look(pages, key) != Uncached
  {
    var p :| p in Meeting(pages, key, key);
    assert Covers(p, key);
  }

  /** The ends of a neighbour are unique. */
  lemma TouchingIs(pages: set<Page>, key: nat, start: nat, end: nat, prev: Option<Page>, next: Option<Page>)
    requires IsPrev(pages, key, prev) && IsNext(pages, key, next)
    ensures Touching(pages, key, start, end) <==> (prev.Some? && prev.value.end == start) || (next.Some? && next.value.start == end)
  {
  }

  lemma EmptyFits(pages: set<Page>, key: nat, start: nat, end: nat, prev: Option<Page>, next: Option<Page>, lo: nat, hi: nat)
    requires Good(pages) && start <= key <= end <= MAX_KEY && Look(pages, key) == Uncached
    requires IsPrev(pages, key, prev) && IsNext(pages, key, next)
    requires lo == if prev.Some? && prev.value.end > start then prev.value.end + 1 else start
    requires hi == if next.Some? && next.value.start < end then next.value.start - 1 else end
    ensures Good(pages + {Page(lo, hi, map[])}) <==> !Touching(pages, key, start, end)
    ensures Good(pages + {Page(lo, hi, map[])}) ==>
              && Look(pages + {Page(lo, hi, map[])}, key) != Uncached
              && CachesEmpty(pages, pages + {Page(lo, hi, map[])}, start, end)
  {
    hide Look;
    var p := Page(lo, hi, map[]);
    TouchingIs(pages, key, start, end, prev, next);
    LookNone(pages, key);
    if Touching(pages, key, start, end) {
      TouchesOne(pages, key, start, end, prev, next, p);
    } else {
      forall q | q in pages ensures Apart(p, q) { assert !Covers(q, key); }
      AddPage(pages, p, key);
      forall k: nat ensures Look(pages + {p}, k) == Look(pages, k) || (start <= k <= end && Look(pages, k) == Uncached && Look(pages + {p}, k) == Absent) {
        AddPage(pages, p, k);
        LookNone(pages, k);
      }
    }
  }

  /** A neighbour on the end of the range shares a key with the new page. */
  lemma TouchesOne(pages: set<Page>, key: nat, start: nat, end: nat, prev: Option<Page>, next: Option<Page>, p: Page)
    requires Good(pages) && start <= key <= end && p.start <= p.end
    requires IsPrev(pages, key, prev) && IsNext(pages, key, next) && p.start <= key <= p.end
    requires (prev.Some? && prev.value.end == start == p.start) || (next.Some? && next.value.start == end == p.end)
    ensures !Good(pages + {p})
  {
    var q := if prev.Some? && prev.value.end == start == p.start then prev.value else next.value;
    assert q in pages && q != p && !Apart(p, q);
  }

  /** A page of the one key where a lock ends shares that key with the empty page that is cached beside it. */
  lemma EmptyPageOverlaps()
    ensures var pages := {Page(9, 9, map[])};
            Good(pages) && Look(pages, 7) == Uncached && Touching(pages, 7, 5, 9) && !Good(pages + {Page(5, 9, map[])})
  {
    var p := Page(9, 9, map[]);
    LookOne(p, 7);
    assert IsNext({p}, 7, Some(p));
    var q := Page(5, 9, map[]);
    assert q in {p} + {q} && p in {p} + {q} && !Apart(p, q);
  }

  // ---- shrinking

  datatype Range = Range(start: nat, end: nat)

  predicate Dirty(p: Page) {
    exists k :: k in p.items && p.items[k].dirty
  }

  ghost predicate BeingRead(active: set<Range>, k: nat) {
    exists a :: a in active && a.start <= k <= a.end
  }

  /** Only clean keys that nobody reads were forgotten. */
  ghost predicate Shrinks(pages: set<Page>, pages': set<Page>, active: set<Range>) {
    forall k: nat :: Look(pages', k) == Look(pages, k) || (Look(pages', k) == Uncached && !IsDirty(Look(pages, k)) && !BeingRead(active, k))
  }

  lemma ShrinksPage(was: set<Page>, pages: set<Page>, pg: Page, active: set<Range>)
    requires Good(pages) && pg in pages && Shrinks(was, pages, active) && !Dirty(pg)
    requires forall a :: a in active ==> !Meets(pg, a.start, a.end)
    ensures Good(pages - {pg}) && Shrinks(was, pages - {pg}, active)
  {
    hide Look;
    DropPage(pages, pg, 0);
    forall k: nat
      ensures Look(pages - {pg}, k) == Look(was, k) || (Look(pages - {pg}, k) == Uncached && !IsDirty(Look(was, k)) && !BeingRead(active, k))
    {
      DropPage(pages, pg, k);
      assert Look(pages, k) == Look(was, k) || (Look(pages, k) == Uncached && !IsDirty(Look(was, k)) && !BeingRead(active, k));
      LookNone(pages, k);
    }
  }

  // ---- adding what was read

  /** What is known of a key when pages that were read fill the gaps of the cache. */
  ghost function Filled(pages: set<Page>, read: set<Page>, k: nat): Cell {
    if Look(pages, k) != Uncached then Look(pages, k) else Look(read, k)
  }

  ghost predicate SameFilled(pages: set<Page>, read: set<Page>, pages': set<Page>, read': set<Page>) {
    forall k: nat :: Filled(pages', read', k) == Filled(pages, read, k)
  }

  /** The keys that pages cover. */
  ghost function Covered(pages: set<Page>): set<nat> {
    set k: nat | 0 <= k <= MAX_KEY && Look(pages, k) != Uncached
  }

  /** A page that was read moves to a gap of the cache. */
  lemma MovesIn(pages: set<Page>, read: set<Page>, rd: Page)
    requires Good(pages) && Good(read) && rd in read && Meeting(pages, rd.start, rd.end) == {}
    ensures Good(pages + {rd}) && Good(read - {rd}) && SameFilled(pages, read, pages + {rd}, read - {rd})
    ensures Covered(read - {rd}) < Covered(read)
  {
    hide Look;
    GoodPage(read, rd);
    forall q | q in pages ensures Apart(rd, q) { assert q !in Meeting(pages, rd.start, rd.end); }
    forall k: nat
      ensures Filled(pages + {rd}, read - {rd}, k) == Filled(pages, read, k)
      ensures Look(read - {rd}, k) == if Covers(rd, k) then Uncached else Look(read, k)
    {
      AddPage(pages, rd, k);
      DropPage(read, rd, k);
      LookNone(pages, k);
    }
    AddPage(pages, rd, 0);
    DropPage(read, rd, rd.start);
    assert rd.start in Covered(read) && rd.start !in Covered(read - {rd});
  }

  /** What the cache already covers is trimmed from a page that was read. */
  lemma TrimsRead(pages: set<Page>, read: set<Page>, rd: Page, page: Page, code: Overlap, pg: Page, right: Page)
    requires Good(pages) && Good(read) && rd in read && page in Meeting(pages, rd.start, rd.end)
    requires code != BisectNeeded && (code != InsideRange ==> PageOK(pg) && Inside(pg, rd))
    requires code == Bisected ==> PageOK(right) && Inside(right, rd) && pg.end < right.start
    requires forall k: nat :: Left(code, pg, right, k) == if page.start <= k <= page.end then Uncached else In(rd, k)
    ensures Good(Rest(read, rd, code, pg, right)) && SameFilled(pages, read, pages, Rest(read, rd, code, pg, right))
    ensures Covered(Rest(read, rd, code, pg, right)) < Covered(read)
  {
    hide Look, Rest, Left;
    var rest := Rest(read, rd, code, pg, right);
    RestLooks(read, rd, code, pg, right, page.start, page.end, 0);
    forall k: nat
      ensures Filled(pages, rest, k) == Filled(pages, read, k)
      ensures Look(rest, k) == if Covers(rd, k) && Covers(page, k) then Uncached else Look(read, k)
    {
      RestLooks(read, rd, code, pg, right, page.start, page.end, k);
      LookNone(pages, k);
    }
    var both := if rd.start < page.start then page.start else rd.start;
    assert Covers(rd, both) && Covers(page, both);
    LookNone(read, both);
    GoodPage(read, rd);
    assert both in Covered(read) && both !in Covered(rest);
  }

  // ---- splitting a full page

  /** The two pages that a full page becomes: a new key past all of its items starts an empty page. */
  method Halves(pg: Page, key: nat) returns (left: Page, right: Page)
    requires PageOK(pg) && Covers(pg, key) && |pg.items| >= 2
    ensures left.start == pg.start && right.end == pg.end && left.end + 1 == right.start
    ensures pg.start <= left.end && right.start <= pg.end
    ensures left.items == Before(pg.items, right.start) && right.items == From(pg.items, right.start)
  {
    hide Before, From, InOrder, Weight, Heaviest;
    var keys := InOrder(pg.items.Keys);
    if key > keys[|keys| - 1] {
      right := Page(key, pg.end, map[]);
      left := pg.(end := Dec(key));
      PastLast(pg, keys, key);
    } else {
      ghost var mid;
      left, right, mid := SetSplitKeys(pg, keys);
      assert right.start in pg.items;
      left := left.(items := Before(pg.items, right.start));
      right := right.(items := From(pg.items, right.start));
    }
  }

  /** A page whose keys from one past its last item are given to a new page. */
  lemma PastLast(pg: Page, keys: seq<nat>, key: nat)
    requires PageOK(pg) && IsOrder(pg.items, keys) && |keys| > 0 && keys[|keys| - 1] < key <= pg.end
    ensures pg.start < key && Before(pg.items, key) == pg.items && From(pg.items, key) == map[]
  {
    assert keys[0] in pg.items;
    forall k | k in pg.items ensures k < key {
      var i :| 0 <= i < |keys| && keys[i] == k;
    }
  }

  lemma NothingRead()
    ensures forall k: nat :: Look({}, k) == Uncached
  {
  }

  lemma RestIs(pages: set<Page>, page: Page, code: Overlap, pg: Page, right: Page)
    ensures Rest(pages, page, code, pg, right) ==
            if code == InsideRange then pages - {page}
            else if code == Bisected then pages - {page} + {pg} + {right} else pages - {page} + {pg}
  {
  }
}
