/**
  The item cache of a mount: the operations of its users, which read the forest
  where nothing is cached, and the operations of commits, locks and reclaim.
*/
module ItemCache {
  import opened Errno
  import opened Wrappers
  import opened Keys
  import opened ItemPages
  import opened LogItems
  import opened ItemCells
  import opened PageCache
  import opened ForestRead
  import opened PerCpuPages

  class Cache {
    var pages: set<Page>
    /** The pages by number, and what a reference to a page finds: its keys and whether it is in the tree. */
    var which: map<nat, Page>
    var table: Table

    ghost predicate Valid()
      reads this
    {
      Good(pages) && Shows(table, which, pages)
    }

    constructor ()
      ensures Valid() && forall k: nat :: Look(pages, k) == Uncached
    {
      pages, which, table := {}, map[], Table(map[], {});
    }

    // ---- the pages and the references to them

    method AddPage(p: Page)
      requires Shows(table, which, pages)
      modifies this
      ensures pages == old(pages) + {p} && table.keys.Keys >= old(table.keys.Keys)
      ensures Fits(old(pages), p) ==> Shows(table, which, pages)
    {
      hide Shows;
      var id := NewNumber(table.keys.Keys);
      if Fits(pages, p) { AddShows(table, which, pages, p, id); }
      pages, which, table := pages + {p}, which[id := p], Table(table.keys[id := Range(p.start, p.end)], table.tree + {id});
    }

    method DropPage(p: Page)
      requires Shows(table, which, pages) && p in pages
      modifies this
      ensures pages == old(pages) - {p} && Shows(table, which, pages) && table.keys.Keys >= old(table.keys.Keys)
    {
      IsNamed(table, which, pages, p);
      hide Shows;
      var id :| id in which && which[id] == p;
      DropShows(table, which, pages, id);
      pages, which, table := pages - {p}, which - {id}, Table(table.keys[id := Range(0, 0)], table.tree - {id});
    }

    /** A page has another range or other items and is in the same place of the tree. */
    method ChangePage(p: Page, part: Page)
      requires Good(pages) && Shows(table, which, pages) && p in pages && Good(pages - {p} + {part}) && Inside(part, p)
      modifies this
      ensures pages == old(pages) - {p} + {part} && Shows(table, which, pages) && table.keys.Keys >= old(table.keys.Keys)
    {
      IsNamed(table, which, pages, p);
      hide Shows, Good;
      GoodPage(pages - {p} + {part}, part);
      var id :| id in which && which[id] == p;
      hide PageOK;
      TrimShows(table, which, pages, id, part);
      pages, which, table := pages - {p} + {part}, which[id := part], table.(keys := table.keys[id := Range(part.start, part.end)]);
    }

    /** A page that a cpu's reference finds for a locked key is the cached page for the key, however old the reference is. */
    method GetPcpuPage(refs: seq<Ref>, key: Key) returns (page: Option<Page>, refs': seq<Ref>)
      requires Valid() && key.zone >= FIRST_ZONE && forall i :: 0 <= i < |refs| ==> refs[i].page in table.keys
      ensures page.Some? ==> page.value in pages && Covers(page.value, Number(key)) && Look(pages, Number(key)) == In(page.value, Number(key))
    {
      hide Good, Look;
      var id;
      id, refs' := GetPageForLockedKey(table, refs, key);
      page := None;
      if id.Some? {
        FoundIsCached(table, which, pages, Number(key), id.value);
        page := Some(which[id.value]);
      }
    }

    /** Exactly the range is dropped from the cache. */
    method Invalidate(start: nat, end: nat)
      requires Valid() && start <= end <= MAX_KEY
      modifies this
      ensures Valid() && table.keys.Keys >= old(table.keys.Keys)
      ensures Forgets(old(pages), pages, start, end)
    {
      hide Shows, Good, Look, Left, Rest;
      var spare := false;
      while Meeting(pages, start, end) != {}
        invariant table.keys.Keys >= old(table.keys.Keys) && Valid() && Forgetting(old(pages), pages, start, end)
        decreases |Meeting(pages, start, end)|, !spare
      {
        var page :| page in Meeting(pages, start, end);
        GoodPage(pages, page);
        var code, pg, right := TrimPageIntersection(page, spare, start, end);
        if code == BisectNeeded {
          spare := true;
        } else {
          TrimForgets(old(pages), pages, page, code, pg, right, start, end);
          RestIs(pages, page, code, pg, right);
          if code == Bisected {
            GoodSplit(pages, page, pg, right);
            ChangePage(page, pg);
            AddPage(right);
            return;
          }
          TrimsMeeting(pages, page, code, pg, right, start, end);
          if code == InsideRange {
            DropPage(page);
          } else {
            ChangePage(page, pg);
          }
        }
      }
      ForgetsAll(old(pages), pages, start, end);
    }

    /**
      Makes room in the page for a key: nothing changes when there is room (or
      packing the items of the page gave it), and otherwise the page is divided.
    */
    method TrySplitPage(key: nat, room: bool)
      requires Valid()
      requires !room ==> forall p :: p in pages && Covers(p, key) ==> |p.items| >= 2
      modifies this
      ensures Valid() && table.keys.Keys >= old(table.keys.Keys)
      ensures SameCells(old(pages), pages)
      ensures !room && Look(old(pages), key) != Uncached ==> |pages| == |old(pages)| + 1
    {
      hide Shows, Good, Look;
      if Meeting(pages, key, key) == {} {
        NoneMeet(pages, key, key);
        return;
      }
      if room {
        return;
      }
      var pg :| pg in Meeting(pages, key, key);
      GoodPage(pages, pg);
      var left, right := Halves(pg, key);
      SplitSame(pages, pg, left, right);
      GoodSplit(pages, pg, left, right);
      if right.items == map[] {
        ChangePage(pg, left);
      } else {
        DropPage(pg);
        AddPage(left);
      }
      AddPage(right);
    }

    /** Pages that were read fill the gaps of the cache; what is cached already stays as it is. */
    method InsertRead(pagesRead: set<Page>)
      requires Valid() && Good(pagesRead)
      modifies this
      ensures Valid() && table.keys.Keys >= old(table.keys.Keys)
      ensures forall k: nat :: Look(pages, k) == Filled(old(pages), pagesRead, k)
    {
      hide Shows, Good, Look, Rest, Left, Covered;
      var read, spare := pagesRead, false;
      while read != {}
        invariant table.keys.Keys >= old(table.keys.Keys) && Valid() && Good(read) && SameFilled(old(pages), pagesRead, pages, read)
        decreases Covered(read), !spare
      {
        var rd :| rd in read;
        GoodPage(read, rd);
        if Meeting(pages, rd.start, rd.end) == {} {
          MovesIn(pages, read, rd);
          MeetsNone(pages, rd);
          GoodMore(pages, rd);
          read := read - {rd};
          AddPage(rd);
        } else {
          var page :| page in Meeting(pages, rd.start, rd.end);
          GoodPage(pages, page);
          var code, pg, right := TrimPageIntersection(rd, spare, page.start, page.end);
          if code == BisectNeeded {
            spare := true;
          } else {
            TrimsRead(pages, read, rd, page, code, pg, right);
            RestIs(read, rd, code, pg, right);
            if code == InsideRange {
              read := read - {rd};
            } else if code == Bisected {
              read, spare := read - {rd} + {pg} + {right}, false;
            } else {
              read := read - {rd} + {pg};
            }
          }
        }
      }
      NothingRead();
    }

    /** Forgets pages, as many as asked for, but none that is dirty or locked or meets the range of an active reader. */
    method LruShrink(lru: seq<Page>, count: nat, active: set<Range>, busy: set<Page>)
      requires Valid() && forall p :: p in lru ==> p in pages
      requires forall i, j :: 0 <= i < j < |lru| ==> lru[i] != lru[j]
      modifies this
      ensures Valid() && table.keys.Keys >= old(table.keys.Keys)
      ensures Shrinks(old(pages), pages, active) && |old(pages)| <= |pages| + count
    {
      hide Shows, Good, Look, Shrinks;
      ShrinksNothing(pages, active);
      var nr, i := count, 0;
      while i < |lru| && nr > 0
        invariant table.keys.Keys >= old(table.keys.Keys) && i <= |lru| && Valid() && Shrinks(old(pages), pages, active)
        invariant 0 <= nr <= count && |old(pages)| == |pages| + count - nr
        invariant forall j :: i <= j < |lru| ==> lru[j] in pages
      {
        var pg := lru[i];
        i := i + 1;
        if exists a :: a in active && Meets(pg, a.start, a.end) {
          continue;
        }
        if pg in busy || Dirty(pg) {
          continue;
        }
        ShrinksPage(old(pages), pages, pg, active);
        DropPage(pg);
        nr := nr - 1;
      }
    }

    /**
      An empty page that covers a key which is not cached, up to the neighbours or
      the ends of the range.  The pages stay apart exactly when no neighbour ends
      or starts on the very end of the range.
    */
    method CacheEmptyPage(key: nat, start: nat, end: nat)
      requires Valid() && start <= key <= end <= MAX_KEY
      modifies this
      ensures Look(old(pages), key) != Uncached ==> pages == old(pages)
      ensures Look(old(pages), key) == Uncached ==> (Good(pages) <==> !Touching(old(pages), key, start, end))
      ensures table.keys.Keys >= old(table.keys.Keys)
      ensures Good(pages) ==> Valid() && Look(pages, key) != Uncached && CachesEmpty(old(pages), pages, start, end)
    {
      hide Shows, Good, Look;
      if Meeting(pages, key, key) != {} {
        SomeMeet(pages, key);
        return;
      }
      NoneMeet(pages, key, key);
      var prev, next := Neighbours(pages, key);
      var lo, hi := start, end;
      if prev.Some? && prev.value.end > start {
        lo := Inc(prev.value.end);
      }
      if next.Some? && next.value.start < end {
        hi := Dec(next.value.start);
      }
      EmptyFits(pages, key, start, end, prev, next, lo, hi);
      NotCached(pages, Page(lo, hi, map[]), key);
      AddPage(Page(lo, hi, map[]));
    }

    // ---- reading

    /** Caches the range around a key that all trees speak for, where nothing is cached yet. */
    method ReadPages(roots: seq<Root>, key: nat, first: nat, last: nat) returns (ret: int, ghost lo: nat, ghost hi: nat)
      requires Valid() && RootsOK(roots) && BloomsTell(roots, first, last) && first <= key <= last <= MAX_KEY
      modifies this
      ensures ret == (if MissesTree(roots) then ENOENT else 0) && first <= lo <= key <= hi <= last && Valid() && table.keys.Keys >= old(table.keys.Keys)
      ensures ret != 0 ==> pages == old(pages)
      ensures ret == 0 ==> Fills(old(pages), pages, AllStored(roots), lo, hi)
    {
      hide Shows, Good, Look, Newest, AllStored, Merged, Kept;
      var start, end, root;
      ret, start, end, root := ReadForest(roots, key, first, last);
      lo, hi := start, end;
      if ret < 0 {
        return;
      }
      MergedIsGood(root, AllStored(roots), start, end, first, last);
      var read := CleanRead(root, start, end);
      InsertRead(read);
      ReadSettles(old(pages), pages, root, read, AllStored(roots), start, end, first, last);
    }

    /** Finds or reads the page for a key; what a look would find does not change. */
    method GetCachedPage(roots: seq<Root>, key: nat, first: nat, last: nat) returns (ret: int)
      requires Valid() && RootsOK(roots) && BloomsTell(roots, first, last) && 0 < first <= key <= last < MAX_KEY
      modifies this
      ensures Valid() && table.keys.Keys >= old(table.keys.Keys)
      ensures forall k: nat :: Finds(roots, pages, k) == Finds(roots, old(pages), k)
      ensures ret == if Look(old(pages), key) == Uncached && MissesTree(roots) then ENOENT else 0
      ensures ret == 0 ==> Look(pages, key) != Uncached
      ensures forall k: nat :: Look(old(pages), k) != Uncached ==> Look(pages, k) == Look(old(pages), k)
    {
      hide Shows, Good, Look, Newest, AllStored;
      if Meeting(pages, key, key) != {} {
        SomeMeet(pages, key);
        return 0;
      }
      NoneMeet(pages, key, key);
      ghost var lo, hi;
      ret, lo, hi := ReadPages(roots, key, first, last);
      if ret == 0 {
        FindsSame(roots, old(pages), pages, lo, hi);
      }
    }

    method Lookup(roots: seq<Root>, key: nat, first: nat, last: nat) returns (ret: int, val: Bytes)
      requires Valid() && RootsOK(roots) && BloomsTell(roots, first, last) && 0 < first <= key <= last < MAX_KEY
      modifies this
      ensures Valid() && table.keys.Keys >= old(table.keys.Keys)
      ensures forall k: nat :: Finds(roots, pages, k) == Finds(roots, old(pages), k)
      ensures Look(old(pages), key) != Uncached || !MissesTree(roots) ==>
                if ret == 0 then Finds(roots, old(pages), key) == Some(val) else ret == ENOENT && Finds(roots, old(pages), key) == None
    {
      hide Shows, Good, Look, AllStored, Newest;
      ret := GetCachedPage(roots, key, first, last);
      val := [];
      if ret < 0 {
        return;
      }
      var pg := PageFor(pages, key);
      if key !in pg.items || pg.items[key].deletion {
        return ENOENT, val;
      }
      return 0, pg.items[key].val;
    }

    /** The first item from a key on, in the range of the lock: the pages are walked and read one after the other. */
    method Next(roots: seq<Root>, key: nat, last: nat, lockFirst: nat, lockLast: nat) returns (ret: int, found: nat, val: Bytes)
      requires Valid() && RootsOK(roots) && BloomsTell(roots, lockFirst, lockLast) && 0 < lockFirst <= lockLast < MAX_KEY
      modifies this
      ensures Valid() && table.keys.Keys >= old(table.keys.Keys)
      ensures forall k: nat :: Finds(roots, pages, k) == Finds(roots, old(pages), k)
      ensures ret == EINVAL <==> key < lockFirst && key <= Least(last, lockLast)
      ensures ret == 0 ==> key <= found <= Least(last, lockLast) && Finds(roots, old(pages), found) == Some(val)
      ensures ret == 0 ==> NothingFound(roots, old(pages), key, found)
      ensures ret !in {0, EINVAL} ==> ret == ENOENT
      ensures ret == ENOENT && !MissesTree(roots) ==> NothingFound(roots, old(pages), key, Least(last, lockLast) + 1)
    {
      hide Shows, Good, Look, AllStored, Newest;
      found, val := key, [];
      var end := Least(last, lockLast);
      if key > end {
        return ENOENT, found, val;
      }
      if key < lockFirst {
        return EINVAL, found, val;
      }
      var pos := key;
      while true
        invariant table.keys.Keys >= old(table.keys.Keys) && Valid() && forall k: nat :: Finds(roots, pages, k) == Finds(roots, old(pages), k)
        invariant key <= pos <= end && NothingFound(roots, old(pages), key, pos)
        decreases end - pos
      {
        ret := GetCachedPage(roots, pos, lockFirst, lockLast);
        if ret < 0 {
          return;
        }
        var pg := PageFor(pages, pos);
        var item := NextInPage(pg, pos, end);
        PageSpeaks(roots, pages, pg);
        GoodPage(pages, pg);
        if item.Some? {
          found, val := item.value, pg.items[item.value].val;
          return 0, found, val;
        }
        if pg.end >= end {
          return ENOENT, found, val;
        }
        pos := Inc(pg.end);
      }
    }

    // ---- changing items

    method ItemCreate(key: nat, val: Bytes, vers: nat, force: bool) returns (ret: int)
      requires Valid() && Look(pages, key) != Uncached
      modifies this
      ensures Valid() && table.keys.Keys >= old(table.keys.Keys)
      ensures ret == if !force && Live(Look(old(pages), key)) then EEXIST else 0
      ensures ret != 0 ==> pages == old(pages)
      ensures ret == 0 ==> Sets(old(pages), pages, key, Created(Look(old(pages), key), val, vers, force))
    {
      hide Shows, Good, Look;
      var pg := PageFor(pages, key);
      if !force && key in pg.items && !pg.items[key].deletion {
        return EEXIST;
      }
      var item := Item(val, vers, true, false, false);
      if key in pg.items {
        item := item.(persistent := pg.items[key].persistent);
      }
      if force {
        item := item.(persistent := true);
      }
      PutEverywhere(pages, pg, key, item);
      ChangePage(pg, pg.(items := pg.items[key := item]));
      return 0;
    }

    method ItemDirty(key: nat, vers: nat) returns (ret: int)
      requires Valid() && Look(pages, key) != Uncached
      modifies this
      ensures Valid() && table.keys.Keys >= old(table.keys.Keys)
      ensures ret == if Live(Look(old(pages), key)) then 0 else ENOENT
      ensures ret != 0 ==> pages == old(pages)
      ensures ret == 0 ==> Sets(old(pages), pages, key, Dirtied(Look(old(pages), key), vers))
    {
      hide Shows, Good, Look;
      var pg := PageFor(pages, key);
      if key !in pg.items || pg.items[key].deletion {
        return ENOENT;
      }
      var item := pg.items[key].(dirty := true);
      item := item.(vers := vers);
      PutEverywhere(pages, pg, key, item);
      ChangePage(pg, pg.(items := pg.items[key := item]));
      return 0;
    }

    method ItemUpdate(key: nat, val: Bytes, vers: nat) returns (ret: int)
      requires Valid() && Look(pages, key) != Uncached
      modifies this
      ensures Valid() && table.keys.Keys >= old(table.keys.Keys)
      ensures ret == if Live(Look(old(pages), key)) then 0 else ENOENT
      ensures ret != 0 ==> pages == old(pages)
      ensures ret == 0 ==> Sets(old(pages), pages, key, Updated(Look(old(pages), key), val, vers))
    {
      hide Shows, Good, Look;
      var pg := PageFor(pages, key);
      if key !in pg.items || pg.items[key].deletion {
        return ENOENT;
      }
      var found := pg.items[key];
      var item;
      if |val| <= |found.val| {
        // the value is copied over the old one
        item := found.(val := val, vers := vers, dirty := true);
      } else {
        // a larger item takes its place
        item := Item(val, vers, false, false, false);
        item := item.(persistent := found.persistent);
        item := item.(dirty := true);
      }
      PutEverywhere(pages, pg, key, item);
      ChangePage(pg, pg.(items := pg.items[key := item]));
      return 0;
    }

    method ItemDelete(key: nat, vers: nat, force: bool) returns (ret: int)
      requires Valid() && Look(pages, key) != Uncached
      modifies this
      ensures Valid() && table.keys.Keys >= old(table.keys.Keys)
      ensures ret == if !force && !Live(Look(old(pages), key)) then ENOENT else 0
      ensures ret != 0 ==> pages == old(pages)
      ensures ret == 0 ==> Sets(old(pages), pages, key, Deleted(Look(old(pages), key), vers, force))
    {
      hide Shows, Good, Look;
      var pg := PageFor(pages, key);
      if !force && (key !in pg.items || pg.items[key].deletion) {
        return ENOENT;
      }
      var item := if key in pg.items then pg.items[key] else Item([], vers, false, false, false);
      if force {
        item := item.(persistent := true);
      }
      if !item.persistent {
        EraseEverywhere(pages, pg, key);
        ChangePage(pg, pg.(items := pg.items - {key}));
      } else {
        item := item.(vers := vers, deletion := true, val := [], dirty := true);
        PutEverywhere(pages, pg, key, item);
        ChangePage(pg, pg.(items := pg.items[key := item]));
      }
      return 0;
    }

    // ---- commits

    /** The dirty items are clean once they were committed, and deletions are forgotten. */
    method WriteDone()
      requires Valid()
      modifies this
      ensures Valid() && table.keys.Keys >= old(table.keys.Keys)
      ensures forall k: nat :: Look(pages, k) == Done(Look(old(pages), k))
    {
      hide Shows, Good, Look, DonePages, Done;
      var left := set p | p in pages && Dirty(p);
      DoneStarts(pages, left);
      while left != {}
        invariant table.keys.Keys >= old(table.keys.Keys) && DonePages(old(pages), pages, left) && Shows(table, which, pages)
        decreases |left|
      {
        var pg :| pg in left;
        DoneStep(old(pages), pages, left, pg);
        DoneGood(old(pages), pages, left);
        DoneGood(old(pages), pages - {pg} + {DonePage(pg)}, left - {pg});
        DonePageIs(pg, 0);
        ChangePage(pg, DonePage(pg));
        left := left - {pg};
      }
      DoneEnds(old(pages), pages);
    }
  }

  ghost predicate Fits(pages: set<Page>, p: Page) {
    PageOK(p) && forall q :: q in pages ==> Apart(p, q)
  }

  lemma GoodMore(pages: set<Page>, p: Page)
    requires Good(pages + {p}) && p !in pages
    ensures Fits(pages, p)
  {
  }

  lemma ShrinksNothing(pages: set<Page>, active: set<Range>)
    ensures Shrinks(pages, pages, active)
  {
  }

  lemma MeetsNone(pages: set<Page>, p: Page)
    requires PageOK(p) && Meeting(pages, p.start, p.end) == {}
    ensures p !in pages
  {
    assert p in pages ==> p in Meeting(pages, p.start, p.end);
  }

  /** A page for a key that is not cached is new, and fits if the pages are good with it. */
  lemma NotCached(pages: set<Page>, p: Page, key: nat)
    requires Good(pages) && Look(pages, key) == Uncached && Covers(p, key)
    ensures Good(pages + {p}) ==> Fits(pages, p)
  {
    hide Look;
    if p in pages { LookIn(pages, p, key); }
  }

  /** The parts of a page fit where the page was. */
  lemma GoodSplit(pages: set<Page>, page: Page, left: Page, right: Page)
    requires Good(pages) && page in pages && Good(pages - {page} + {left} + {right})
    requires Inside(left, page) && Inside(right, page) && left.end < right.start
    ensures Good(pages - {page} + {left}) && Fits(pages - {page}, left) && Fits(pages - {page} + {left}, right)
  {
    assert left in pages - {page} + {left} + {right} && right in pages - {page} + {left} + {right};
    forall q | q in pages - {page} ensures Apart(left, q) && Apart(right, q) {
      assert Apart(page, q);
    }
  }

  /** A number that no page has. */
  method NewNumber(taken: set<nat>) returns (id: nat)
    ensures id !in taken
  {
    id := 0;
    var left := taken;
    while id in taken
      invariant left <= taken && forall x :: x in taken && x >= id ==> x in left
      decreases |left|
    {
      left := left - {id};
      id := id + 1;
    }
  }

  lemma IsNamed(t: Table, which: map<nat, Page>, pages: set<Page>, p: Page)
    requires Shows(t, which, pages) && p in pages
    ensures exists id :: id in which && which[id] == p
  {
    assert Named(which, p);
  }

  /** A tree that has to be asked has no blocks. */
  ghost predicate MissesTree(roots: seq<Root>) {
    exists i :: 0 <= i < |roots| && Asked(roots[i]) && roots[i].block.None?
  }

  /** What a look finds in the cache or else in the forest. */
  ghost function Finds(roots: seq<Root>, pages: set<Page>, k: nat): Option<Bytes>
    requires RootsOK(roots)
  {
    Shown(Look(pages, k), Newest(AllStored(roots), k))
  }

  function Least(a: nat, b: nat): nat {
    if b < a then b else a
  }

  ghost predicate NothingFound(roots: seq<Root>, pages: set<Page>, start: nat, end: nat)
    requires RootsOK(roots)
  {
    forall k: nat :: start <= k < end ==> Finds(roots, pages, k) == None
  }

  /** The first item of a page from a key on that was not deleted. */
  method NextInPage(pg: Page, pos: nat, last: nat) returns (item: Option<nat>)
    ensures item.Some? ==> pos <= item.value <= last && item.value in pg.items && !pg.items[item.value].deletion
    ensures forall k :: k in pg.items && pos <= k <= last && (item.Some? ==> k < item.value) ==> pg.items[k].deletion
  {
    hide InOrder, Ascending;
    var keys: seq<nat> := InOrder(pg.items.Keys);
    var i := 0;
    while i < |keys| && keys[i] < pos
      invariant i <= |keys| && forall j :: 0 <= j < i ==> keys[j] < pos
    {
      i := i + 1;
    }
    while i < |keys| && keys[i] <= last
      invariant i <= |keys| && (i < |keys| ==> keys[i] >= pos)
      invariant forall j :: 0 <= j < i ==> keys[j] < pos || pg.items[keys[j]].deletion
    {
      if !pg.items[keys[i]].deletion {
        NoEarlier(pg, keys, i, pos);
        return Some(keys[i]);
      }
      Ascends(keys, i);
      i := i + 1;
    }
    NoEarlier(pg, keys, i, pos);
    return None;
  }

  lemma Ascends(keys: seq<nat>, i: nat)
    requires Ascending(keys) && i < |keys|
    ensures i + 1 < |keys| ==> keys[i] < keys[i + 1]
  {
  }

  lemma NoEarlier(pg: Page, keys: seq<nat>, i: nat, pos: nat)
    requires IsOrder(pg.items, keys) && i <= |keys|
    requires forall j :: 0 <= j < i ==> keys[j] < pos || pg.items[keys[j]].deletion
    ensures forall k :: k in pg.items && pos <= k && (i < |keys| ==> k < keys[i]) ==> pg.items[k].deletion
  {
    forall k | k in pg.items && pos <= k && (i < |keys| ==> k < keys[i]) ensures pg.items[k].deletion {
      var j :| 0 <= j < |keys| && keys[j] == k;
      assert j < i;
    }
  }

  /** A page tells what a look finds for the keys of its range. */
  lemma PageSpeaks(roots: seq<Root>, pages: set<Page>, pg: Page)
    requires Good(pages) && pg in pages && RootsOK(roots)
    ensures forall k: nat :: Covers(pg, k) ==>
              Finds(roots, pages, k) == if k in pg.items && !pg.items[k].deletion then Some(pg.items[k].val) else None
  {
    hide Look, Newest, AllStored;
    forall k: nat | Covers(pg, k)
      ensures Finds(roots, pages, k) == if k in pg.items && !pg.items[k].deletion then Some(pg.items[k].val) else None
    {
      LookIn(pages, pg, k);
    }
  }

  method PageFor(pages: set<Page>, key: nat) returns (pg: Page)
    requires Good(pages) && Look(pages, key) != Uncached
    ensures pg in pages && Covers(pg, key) && Look(pages, key) == In(pg, key)
  {
    hide Look;
    LookNone(pages, key);
    pg :| pg in pages && Covers(pg, key);
    LookIn(pages, pg, key);
  }

  lemma MergedIsGood(pages: set<Page>, trees: seq<Tree>, start: nat, end: nat, first: nat, last: nat)
    requires Merged(pages, trees, start, end, first, last)
    ensures Good(pages)
    ensures forall k: nat :: start <= k <= end ==> Look(pages, k) == CellOf(Newest(trees, k))
  {
    hide Good, Look, Newest;
  }

  lemma ReadSettles(was: set<Page>, pages: set<Page>, root: set<Page>, read: set<Page>, trees: seq<Tree>, start: nat, end: nat, first: nat, last: nat)
    requires Merged(root, trees, start, end, first, last)
    requires forall k: nat :: Look(read, k) == Kept(Look(root, k), start, end, k)
    requires forall k: nat :: Look(pages, k) == Filled(was, read, k)
    ensures Fills(was, pages, trees, start, end)
  {
    hide Good, Look, Newest, Merged;
    MergedIsGood(root, trees, start, end, first, last);
    forall k: nat ensures Look(pages, k) == FillCell(Look(was, k), trees, start, end, k) {
      assert Look(read, k) == Kept(Look(root, k), start, end, k);
    }
  }

  lemma FindsSame(roots: seq<Root>, was: set<Page>, pages: set<Page>, lo: nat, hi: nat)
    requires RootsOK(roots) && Fills(was, pages, AllStored(roots), lo, hi)
    ensures forall k: nat :: Finds(roots, pages, k) == Finds(roots, was, k)
  {
    hide Look, Newest, AllStored;
    forall k: nat ensures Finds(roots, pages, k) == Finds(roots, was, k) {
      ReadIsCoherent(Newest(AllStored(roots), k));
    }
  }

  lemma EraseEverywhere(pages: set<Page>, pg: Page, key: nat)
    requires Good(pages) && pg in pages && Covers(pg, key)
    ensures Good(pages - {pg} + {pg.(items := pg.items - {key})})
    ensures forall k: nat :: Look(pages - {pg} + {pg.(items := pg.items - {key})}, k) == if k == key then Absent else Look(pages, k)
  {
    hide Look;
    var part := pg.(items := pg.items - {key});
    forall k: nat ensures Look(pages - {pg} + {part}, k) == if k == key then Absent else Look(pages, k) {
      PutPart(pages, pg, part, k);
      DropPage(pages, pg, k);
    }
    PutPart(pages, pg, part, 0);
  }

  // ---- cleaning dirty items

  function DonePage(pg: Page): Page {
    pg.(items := map k | k in pg.items && !(pg.items[k].dirty && pg.items[k].deletion) ::
                   if pg.items[k].dirty then pg.items[k].(dirty := false, persistent := true) else pg.items[k])
  }

  lemma DonePageIs(pg: Page, k: nat)
    requires PageOK(pg)
    ensures PageOK(DonePage(pg)) && Inside(DonePage(pg), pg) && In(DonePage(pg), k) == Done(In(pg, k))
  {
  }

  /** The items of all pages but some are clean. */
  ghost predicate DonePages(was: set<Page>, pages: set<Page>, left: set<Page>) {
    && Good(pages) && left <= pages
    && forall k: nat :: Look(pages, k) == if CoveredBy(left, k) then Look(was, k) else Done(Look(was, k))
  }

  lemma DoneStarts(pages: set<Page>, left: set<Page>)
    requires Good(pages) && left == set p | p in pages && Dirty(p)
    ensures DonePages(pages, pages, left)
  {
    hide Look;
    forall k: nat | !CoveredBy(left, k) ensures Done(Look(pages, k)) == Look(pages, k) {
      LookNone(pages, k);
      if Look(pages, k) != Uncached {
        var p :| p in pages && Covers(p, k);
        LookIn(pages, p, k);
        assert p !in left;
      }
    }
  }

  lemma DoneStep(was: set<Page>, pages: set<Page>, left: set<Page>, pg: Page)
    requires DonePages(was, pages, left) && pg in left
    ensures DonePages(was, pages - {pg} + {DonePage(pg)}, left - {pg})
  {
    hide Look, Done, DonePage;
    DonePageIs(pg, 0);
    PutPart(pages, pg, DonePage(pg), 0);
    forall k: nat ensures Look(pages - {pg} + {DonePage(pg)}, k) == if CoveredBy(left - {pg}, k) then Look(was, k) else Done(Look(was, k)) {
      DonePageIs(pg, k);
      PutPart(pages, pg, DonePage(pg), k);
      DropPage(pages, pg, k);
      if Covers(pg, k) {
        assert CoveredBy(left, k);
        assert !CoveredBy(left - {pg}, k) by { assert forall p :: p in left && p != pg ==> Apart(p, pg); }
      } else {
        CoveredLess(left, pg, k);
      }
    }
  }

  lemma DoneGood(was: set<Page>, pages: set<Page>, left: set<Page>)
    requires DonePages(was, pages, left)
    ensures Good(pages) && left <= pages && forall p :: p in left ==> PageOK(p)
  {
  }

  lemma DoneEnds(was: set<Page>, pages: set<Page>)
    requires DonePages(was, pages, {})
    ensures Good(pages) && forall k: nat :: Look(pages, k) == Done(Look(was, k))
  {
    hide Good, Look, Done;
  }
}
