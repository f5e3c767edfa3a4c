/**
  The references that each cpu keeps to cached pages.  They go stale as pages are
  trimmed, split and removed; a page is only used if its own keys still cover the
  key, and pages that are removed from the tree of pages have their keys cleared.
*/
module PerCpuPages {
  import opened Wrappers
  import opened Keys
  import opened ItemPages
  import opened PageCache

  /** The keys of every page that still has references, and the pages in the tree. */
  datatype Table = Table(keys: map<nat, Range>, tree: set<nat>)

  datatype Ref = Ref(start: nat, end: nat, page: nat)

  predicate InRange(r: Range, key: nat) {
    r.start <= key <= r.end
  }

  predicate Separate(a: Range, b: Range) {
    a.end < b.start || b.end < a.start
  }

  ghost predicate TableOK(t: Table) {
    && t.tree <= t.keys.Keys
    && (forall id :: id in t.tree ==> t.keys[id].start <= t.keys[id].end)
    && (forall id, other :: id in t.tree && other in t.tree && id != other ==> Separate(t.keys[id], t.keys[other]))
    && (forall id :: id in t.keys && id !in t.tree ==> t.keys[id] == Range(0, 0))
  }

  // ---- how the tree of pages changes

  /** A page that was read, that caches an empty range or that a page was split into. */
  ghost predicate InsertPage(t: Table, t': Table, id: nat, r: Range) {
    && id !in t.keys && r.start <= r.end && (forall other :: other in t.tree && other in t.keys ==> Separate(r, t.keys[other]))
    && t' == Table(t.keys[id := r], t.tree + {id})
  }

  /** A page that gives up keys at one of its ends. */
  ghost predicate TrimPage(t: Table, t': Table, id: nat, r: Range) {
    && id in t.tree && id in t.keys && t.keys[id].start <= r.start <= r.end <= t.keys[id].end
    && t' == t.(keys := t.keys[id := r])
  }

  /** A page that was invalidated, shrunk or replaced by its halves. */
  ghost predicate RemovePage(t: Table, t': Table, id: nat) {
    id in t.tree && t' == Table(t.keys[id := Range(0, 0)], t.tree - {id})
  }

  /** A page that nobody refers to any more. */
  ghost predicate FreePage(t: Table, t': Table, id: nat) {
    id !in t.tree && t' == t.(keys := t.keys - {id})
  }

  ghost predicate Change(t: Table, t': Table) {
    || (exists id, r :: InsertPage(t, t', id, r))
    || (exists id, r :: TrimPage(t, t', id, r))
    || (exists id :: RemovePage(t, t', id))
    || (exists id :: FreePage(t, t', id))
  }

  lemma InsertKeeps(t: Table, t': Table, id: nat, r: Range)
    requires TableOK(t) && InsertPage(t, t', id, r)
    ensures TableOK(t')
  {
  }

  lemma TrimKeeps(t: Table, t': Table, id: nat, r: Range)
    requires TableOK(t) && TrimPage(t, t', id, r)
    ensures TableOK(t')
  {
    forall other | other in t'.tree && other != id ensures Separate(t'.keys[id], t'.keys[other]) {
      assert Separate(t.keys[id], t.keys[other]);
    }
  }

  lemma RemoveKeeps(t: Table, t': Table, id: nat)
    requires TableOK(t) && (RemovePage(t, t', id) || FreePage(t, t', id))
    ensures TableOK(t')
  {
  }

  lemma ChangeKeeps(t: Table, t': Table)
    requires TableOK(t) && Change(t, t')
    ensures TableOK(t')
  {
    hide TableOK, InsertPage, TrimPage, RemovePage, FreePage;
    if id, r :| InsertPage(t, t', id, r) {
      InsertKeeps(t, t', id, r);
    } else if id, r :| TrimPage(t, t', id, r) {
      TrimKeeps(t, t', id, r);
    } else {
      var id :| RemovePage(t, t', id) || FreePage(t, t', id);
      RemoveKeeps(t, t', id);
    }
  }

  lemma {:induction false} ChangesKeep(tables: seq<Table>, n: nat)
    requires n < |tables| && TableOK(tables[0]) && forall i :: 0 <= i < |tables| - 1 ==> Change(tables[i], tables[i + 1])
    ensures TableOK(tables[n])
  {
    hide TableOK, Change;
    if n > 0 {
      ChangesKeep(tables, n - 1);
      ChangeKeeps(tables[n - 1], tables[n]);
    }
  }

  // ---- the fast path

  /** The page of the tree for a key, if there is one. */
  ghost predicate IsPageFor(t: Table, key: nat, id: nat)
    requires TableOK(t)
  {
    id in t.tree && InRange(t.keys[id], key) && forall other :: other in t.tree && InRange(t.keys[other], key) ==> other == id
  }

  /** The first reference whose keys cover the key. */
  function FirstRef(refs: seq<Ref>, key: nat): (i: nat)
    ensures i <= |refs| && (i < |refs| ==> refs[i].start <= key <= refs[i].end)
  {
    if refs == [] || refs[0].start <= key <= refs[0].end then 0 else 1 + FirstRef(refs[1..], key)
  }

  /** A stale reference is dropped; a page that is found is the one in the tree, for all keys but the first. */
  method GetPcpuPage(t: Table, refs: seq<Ref>, key: nat) returns (page: Option<nat>, refs': seq<Ref>)
    requires TableOK(t) && forall i :: 0 <= i < |refs| ==> refs[i].page in t.keys
    ensures page.Some? ==> (IsPageFor(t, key, page.value) <==> page.value in t.tree)
    ensures page.Some? && key != 0 ==> page.value in t.tree
    ensures page.Some? <==> FirstRef(refs, key) < |refs| && InRange(t.keys[refs[FirstRef(refs, key)].page], key)
    ensures page.Some? ==> page.value == refs[FirstRef(refs, key)].page && refs' == refs
    ensures page.None? ==> refs' == refs || exists i :: 0 <= i < |refs| && !InRange(t.keys[refs[i].page], key) && refs' == refs[..i] + refs[i + 1..]
  {
    var i := FirstRef(refs, key);
    if i == |refs| {
      return None, refs;
    }
    if !InRange(t.keys[refs[i].page], key) {
      return None, refs[..i] + refs[i + 1..];
    }
    return Some(refs[i].page), refs;
  }

  const FIRST_ZONE: nat := 1

  /** Locks cover keys of the zones that are in use, so a page that is found for a locked key is the one in the tree. */
  method GetPageForLockedKey(t: Table, refs: seq<Ref>, key: Key) returns (page: Option<nat>, refs': seq<Ref>)
    requires TableOK(t) && (forall i :: 0 <= i < |refs| ==> refs[i].page in t.keys) && key.zone >= FIRST_ZONE
    ensures page.Some? ==> IsPageFor(t, Number(key), page.value)
  {
    page, refs' := GetPcpuPage(t, refs, Number(key));
  }

  /** The cleared keys of a removed page cover the first key of all, for which it would be found. */
  lemma FirstKeyFindsRemoved()
    ensures var t, refs := Table(map[7 := Range(0, 0)], {}), [Ref(0, 9, 7)];
            && TableOK(t) && FirstRef(refs, 0) == 0 && InRange(t.keys[refs[0].page], 0)
            && !IsPageFor(t, 0, refs[0].page)
  {
  }

  // ---- the table and the pages of the cache

  ghost predicate Named(which: map<nat, Page>, p: Page) {
    exists id :: id in which && which[id] == p
  }

  /** Every page has one number. */
  ghost predicate OneForOne(which: map<nat, Page>, pages: set<Page>) {
    && (forall id :: id in which ==> which[id] in pages)
    && (forall p :: p in pages ==> Named(which, p))
    && (forall id, other :: id in which && other in which && which[id] == which[other] ==> id == other)
  }

  lemma OneMore(which: map<nat, Page>, pages: set<Page>, id: nat, p: Page)
    requires OneForOne(which, pages) && id !in which && p !in pages
    ensures OneForOne(which[id := p], pages + {p})
  {
    var which' := which[id := p];
    forall q | q in pages + {p} ensures Named(which', q) {
      if q == p {
        assert which'[id] == q;
      } else {
        assert Named(which, q);
        var i :| i in which && which[i] == q;
        assert which'[i] == q;
      }
    }
  }

  lemma OneLess(which: map<nat, Page>, pages: set<Page>, id: nat)
    requires OneForOne(which, pages) && id in which
    ensures OneForOne(which - {id}, pages - {which[id]})
  {
    forall q | q in pages - {which[id]} ensures Named(which - {id}, q) {
      assert Named(which, q);
      var i :| i in which && which[i] == q;
      assert (which - {id})[i] == q;
    }
  }

  /** The keys of the pages of the tree are those of the pages of the cache. */
  ghost predicate SameKeys(t: Table, which: map<nat, Page>) {
    which.Keys == t.tree && forall id :: id in which ==> id in t.keys && t.keys[id] == Range(which[id].start, which[id].end)
  }

  /** The pages of the tree are the pages of the cache, one for one. */
  ghost predicate Shows(t: Table, which: map<nat, Page>, pages: set<Page>) {
    TableOK(t) && SameKeys(t, which) && OneForOne(which, pages)
  }

  /** The page that is found knows what the cache knows of the key. */
  lemma FoundIsCached(t: Table, which: map<nat, Page>, pages: set<Page>, key: nat, id: nat)
    requires Good(pages) && Shows(t, which, pages) && IsPageFor(t, key, id)
    ensures id in which && which[id] in pages && Covers(which[id], key) && Look(pages, key) == In(which[id], key)
  {
    hide Look, Good;
    LookIn(pages, which[id], key);
  }

  lemma NewPage(pages: set<Page>, p: Page)
    requires PageOK(p) && forall q :: q in pages ==> Apart(p, q)
    ensures p !in pages
  {
    assert !Apart(p, p);
  }

  /** Adding a page to the cache inserts it in the tree. */
  lemma AddShows(t: Table, which: map<nat, Page>, pages: set<Page>, p: Page, id: nat)
    requires Shows(t, which, pages) && PageOK(p) && id !in t.keys && forall q :: q in pages ==> Apart(p, q)
    ensures var t' := Table(t.keys[id := Range(p.start, p.end)], t.tree + {id});
            InsertPage(t, t', id, Range(p.start, p.end)) && Shows(t', which[id := p], pages + {p})
  {
    var r := Range(p.start, p.end);
    var t' := Table(t.keys[id := r], t.tree + {id});
    assert InsertPage(t, t', id, r) by {
      hide TableOK;
      forall other | other in t.tree && other in t.keys ensures Separate(r, t.keys[other]) {
        assert which[other] in pages;
      }
    }
    hide TableOK, InsertPage, Named;
    InsertKeeps(t, t', id, r);
    NewPage(pages, p);
    assert id !in which by { InTree(t, which, id); }
    OneMore(which, pages, id, p);
  }

  lemma InTree(t: Table, which: map<nat, Page>, id: nat)
    requires TableOK(t) && SameKeys(t, which) && id !in t.keys
    ensures id !in which
  {
  }

  /** Dropping a page from the cache removes it from the tree and clears its keys. */
  lemma DropShows(t: Table, which: map<nat, Page>, pages: set<Page>, id: nat)
    requires Shows(t, which, pages) && id in which
    ensures var t' := Table(t.keys[id := Range(0, 0)], t.tree - {id});
            RemovePage(t, t', id) && Shows(t', which - {id}, pages - {which[id]})
  {
    hide TableOK, Named;
    var t' := Table(t.keys[id := Range(0, 0)], t.tree - {id});
    RemoveKeeps(t, t', id);
    OneLess(which, pages, id);
  }

  /** A page that keeps a part of its range keeps its place in the tree. */
  lemma TrimShows(t: Table, which: map<nat, Page>, pages: set<Page>, id: nat, part: Page)
    requires Good(pages) && Shows(t, which, pages) && id in which && PageOK(part) && Inside(part, which[id])
    ensures var t' := t.(keys := t.keys[id := Range(part.start, part.end)]);
            TrimPage(t, t', id, Range(part.start, part.end)) && Shows(t', which[id := part], pages - {which[id]} + {part})
  {
    hide TableOK, Named, Good;
    var r, p := Range(part.start, part.end), which[id];
    var t' := t.(keys := t.keys[id := r]);
    TrimKeeps(t, t', id, r);
    OneLess(which, pages, id);
    PartIsNew(pages, p, part);
    OneMore(which - {id}, pages - {p}, id, part);
    assert (which - {id})[id := part] == which[id := part];
  }

  lemma PartIsNew(pages: set<Page>, p: Page, part: Page)
    requires Good(pages) && p in pages && PageOK(part) && Inside(part, p)
    ensures part !in pages - {p}
  {
    assert !Apart(part, p);
  }
}
