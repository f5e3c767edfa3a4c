/**
  The items of free extents: each extent is stored under its last block and under
  its negated length, in 64-bit arithmetic, and the root counts their blocks.
*/
module AllocIndex {
  import opened Errno
  import opened Wrappers
  import opened Keys
  import opened Extents
  import opened ExtentOps
  import opened ExtentStore
  import opened ExtentBlocks

  const BLKNO_TYPE: nat := 1
  const LEN_TYPE: nat := 2

  /** The fields that tell the keys of free extents apart, in the order in which they are compared. */
  datatype ExtKey = ExtKey(typ: nat, second: nat, third: nat)

  function Wrap(x: int): (r: nat)
    ensures r < U64
  {
    x % U64
  }

  function InitExtKey(typ: nat, start: nat, len: nat): ExtKey {
    if typ == BLKNO_TYPE then ExtKey(typ, Wrap(start + len - 1), len) else ExtKey(typ, Wrap(0 - len), start)
  }

  function ExtFromKey(k: ExtKey): Ext {
    if k.typ == BLKNO_TYPE then Ext(Wrap(k.second - k.third + 1), k.third, 0, 0)
    else Ext(k.third, Wrap(0 - k.second), 0, 0)
  }

  /** Both keys of an extent give the extent back, whatever wraps. */
  lemma KeyRoundTrip(typ: nat, start: nat, len: nat)
    requires typ in {BLKNO_TYPE, LEN_TYPE} && start < U64 && len < U64
    ensures ExtFromKey(InitExtKey(typ, start, len)) == Ext(start, len, 0, 0)
  {
    hide Wrap;
    if typ == BLKNO_TYPE {
      var end := start + len - 1;
      WrapIs(end);
      WrapIs(Wrap(end) - len + 1);
    } else {
      WrapIs(0 - len);
      WrapIs(0 - Wrap(0 - len));
    }
  }

  lemma WrapIs(x: int)
    requires -U64 <= x < 2 * U64
    ensures Wrap(x) == if x < 0 then x + U64 else if x < U64 then x else x - U64
  {
  }

  function OtherType(typ: nat): nat {
    if typ == BLKNO_TYPE then LEN_TYPE else BLKNO_TYPE
  }

  predicate KeyLess(a: ExtKey, b: ExtKey) {
    a.typ < b.typ || (a.typ == b.typ && (a.second < b.second || (a.second == b.second && a.third < b.third)))
  }

  // ---- the two indexes

  ghost predicate Storable(e: Ext) {
    0 < e.len && End(e) < U64 && e.blk == 0 && e.flags == 0
  }

  ghost predicate AllStorable(s: set<Ext>) {
    Valid(s) && forall e :: e in s ==> Storable(e)
  }

  function KeyOf(typ: nat, e: Ext): ExtKey {
    InitExtKey(typ, e.start, e.len)
  }

  ghost predicate HasBoth(items: set<ExtKey>, e: Ext) {
    KeyOf(BLKNO_TYPE, e) in items && KeyOf(LEN_TYPE, e) in items
  }

  ghost predicate IsKey(s: set<Ext>, k: ExtKey) {
    k.typ in {BLKNO_TYPE, LEN_TYPE} && ExtFromKey(k) in s && KeyOf(k.typ, ExtFromKey(k)) == k
  }

  /** The items are exactly the two keys of every extent. */
  ghost predicate Indexes(items: set<ExtKey>, s: set<Ext>) {
    (forall e :: e in s ==> HasBoth(items, e)) && (forall k :: k in items ==> IsKey(s, k))
  }

  lemma ExtHasKeys(items: set<ExtKey>, s: set<Ext>, e: Ext)
    requires Indexes(items, s) && e in s
    ensures KeyOf(BLKNO_TYPE, e) in items && KeyOf(LEN_TYPE, e) in items
  {
    hide KeyOf, IsKey;
    assert HasBoth(items, e);
  }

  lemma KeyHasExt(items: set<ExtKey>, s: set<Ext>, k: ExtKey)
    requires Indexes(items, s) && k in items
    ensures k.typ in {BLKNO_TYPE, LEN_TYPE} && ExtFromKey(k) in s && KeyOf(k.typ, ExtFromKey(k)) == k
  {
    hide KeyOf, ExtFromKey, HasBoth;
    assert IsKey(s, k);
  }

  /** The keys and the extents are in bijection. */
  lemma KeyIsExt(items: set<ExtKey>, s: set<Ext>, e: Ext, typ: nat)
    requires Indexes(items, s) && typ in {BLKNO_TYPE, LEN_TYPE} && Storable(e)
    ensures KeyOf(typ, e) in items <==> e in s
  {
    hide KeyOf, ExtFromKey, Indexes;
    KeyGivesExt(typ, e);
    if e in s { ExtHasKeys(items, s, e); }
    if KeyOf(typ, e) in items { KeyHasExt(items, s, KeyOf(typ, e)); }
  }

  lemma KeyGivesExt(typ: nat, e: Ext)
    requires typ in {BLKNO_TYPE, LEN_TYPE} && Storable(e)
    ensures ExtFromKey(KeyOf(typ, e)) == e && KeyOf(typ, e).typ == typ
  {
    hide Wrap, ExtFromKey;
    KeyRoundTrip(typ, e.start, e.len);
    assert Ext(e.start, e.len, 0, 0) == e;
  }

  lemma IndexesMore(items: set<ExtKey>, s: set<Ext>, e: Ext)
    requires Indexes(items, s) && Storable(e)
    ensures Indexes(items + {KeyOf(BLKNO_TYPE, e), KeyOf(LEN_TYPE, e)}, s + {e})
  {
    hide KeyOf, ExtFromKey, HasBoth, IsKey;
    var all := items + {KeyOf(BLKNO_TYPE, e), KeyOf(LEN_TYPE, e)};
    KeyGivesExt(BLKNO_TYPE, e);
    KeyGivesExt(LEN_TYPE, e);
    forall f | f in s + {e} ensures HasBoth(all, f) {
      if f != e { ExtHasKeys(items, s, f); }
      MakesBoth(all, f);
    }
    forall k | k in all ensures IsKey(s + {e}, k) {
      if k in items { KeyHasExt(items, s, k); }
      MakesKey(s + {e}, k);
    }
  }

  lemma MakesBoth(items: set<ExtKey>, e: Ext)
    requires KeyOf(BLKNO_TYPE, e) in items && KeyOf(LEN_TYPE, e) in items
    ensures HasBoth(items, e)
  {
  }

  lemma MakesKey(s: set<Ext>, k: ExtKey)
    requires k.typ in {BLKNO_TYPE, LEN_TYPE} && ExtFromKey(k) in s && KeyOf(k.typ, ExtFromKey(k)) == k
    ensures IsKey(s, k)
  {
  }

  lemma IndexesLess(items: set<ExtKey>, s: set<Ext>, e: Ext)
    requires Indexes(items, s) && AllStorable(s) && e in s
    ensures Indexes(items - {KeyOf(BLKNO_TYPE, e), KeyOf(LEN_TYPE, e)}, s - {e})
  {
    hide KeyOf, ExtFromKey, HasBoth, IsKey, Valid, Storable;
    var rest := items - {KeyOf(BLKNO_TYPE, e), KeyOf(LEN_TYPE, e)};
    forall f | f in s - {e} ensures HasBoth(rest, f) {
      ExtHasKeys(items, s, f);
      OtherKeys(e, f);
      MakesBoth(rest, f);
    }
    forall k | k in rest ensures IsKey(s - {e}, k) {
      KeyHasExt(items, s, k);
      MakesKey(s - {e}, k);
    }
  }

  lemma OtherKeys(e: Ext, f: Ext)
    requires Storable(e) && Storable(f) && e != f
    ensures KeyOf(BLKNO_TYPE, f) != KeyOf(BLKNO_TYPE, e) && KeyOf(BLKNO_TYPE, f) != KeyOf(LEN_TYPE, e)
    ensures KeyOf(LEN_TYPE, f) != KeyOf(BLKNO_TYPE, e) && KeyOf(LEN_TYPE, f) != KeyOf(LEN_TYPE, e)
  {
    hide Wrap, InitExtKey, ExtFromKey, KeyOf;
    KeyGivesExt(BLKNO_TYPE, e);
    KeyGivesExt(LEN_TYPE, e);
    KeyGivesExt(BLKNO_TYPE, f);
    KeyGivesExt(LEN_TYPE, f);
  }

  // ---- ordered search

  /** The first key from one on. */
  predicate IsFirst(items: set<ExtKey>, from: ExtKey, k: ExtKey) {
    k in items && !KeyLess(k, from) && forall o :: o in items && !KeyLess(o, from) ==> !KeyLess(o, k)
  }

  lemma {:induction false} FirstExists(items: set<ExtKey>, from: ExtKey, k: ExtKey)
    requires k in items && !KeyLess(k, from)
    ensures exists r :: IsFirst(items, from, r)
    decreases |items|
  {
    if o :| o in items && !KeyLess(o, from) && KeyLess(o, k) {
      FirstExists(items - {k}, from, o);
      var r :| IsFirst(items - {k}, from, r);
      forall x | x in items && !KeyLess(x, from) ensures !KeyLess(x, r) {
        if x == k { assert !KeyLess(o, r); }
      }
      assert IsFirst(items, from, r);
    } else {
      assert IsFirst(items, from, k);
    }
  }

  /** In the order of last blocks the first extent from a block on is the next one. */
  lemma FirstIsNext(items: set<ExtKey>, s: set<Ext>, b: nat, k: ExtKey)
    requires Indexes(items, s) && AllStorable(s) && b < U64
    requires IsFirst(items, InitExtKey(BLKNO_TYPE, b, 1), k)
    ensures k.typ == BLKNO_TYPE ==> ExtFromKey(k) in s && Next(s, b) == Some(ExtFromKey(k))
    ensures k.typ != BLKNO_TYPE ==> Next(s, b) == None
  {
    hide Wrap, InitExtKey, ExtFromKey, KeyOf, Valid, Next, Indexes;
    FromBlkno(b);
    forall e | e in s && b < End(e) ensures k.typ == BLKNO_TYPE && k.second <= End(e) - 1 {
      BlknoKeyIs(e);
      ExtHasKeys(items, s, e);
      assert !KeyLess(KeyOf(BLKNO_TYPE, e), k);
      KeyHasExt(items, s, k);
    }
    if k.typ == BLKNO_TYPE {
      KeyHasExt(items, s, k);
      var e := ExtFromKey(k);
      BlknoKeyIs(e);
      assert IsNext(s, b, Some(e));
      NextUnique(s, b, Some(e));
    } else {
      assert IsNext(s, b, None);
      NextUnique(s, b, None);
    }
  }

  lemma FromBlkno(b: nat)
    requires b < U64
    ensures InitExtKey(BLKNO_TYPE, b, 1) == ExtKey(BLKNO_TYPE, b, 1)
  {
  }

  lemma FromLargest()
    ensures InitExtKey(LEN_TYPE, 0, 0) == ExtKey(LEN_TYPE, 0, 0)
  {
  }

  lemma BlknoKeyIs(e: Ext)
    requires Storable(e)
    ensures KeyOf(BLKNO_TYPE, e) == ExtKey(BLKNO_TYPE, End(e) - 1, e.len)
  {
  }

  lemma LenKeyIs(e: Ext)
    requires Storable(e)
    ensures KeyOf(LEN_TYPE, e) == ExtKey(LEN_TYPE, U64 - e.len, e.start)
  {
  }

  /** The longest extent, and the first of those. */
  predicate IsLargest(s: set<Ext>, e: Ext) {
    e in s && forall f :: f in s ==> f.len < e.len || (f.len == e.len && e.start <= f.start)
  }

  /** In the order of negated lengths the first extent is a largest one. */
  lemma FirstIsLargest(items: set<ExtKey>, s: set<Ext>, k: ExtKey)
    requires Indexes(items, s) && AllStorable(s) && IsFirst(items, InitExtKey(LEN_TYPE, 0, 0), k)
    ensures k.typ == LEN_TYPE && IsLargest(s, ExtFromKey(k))
  {
    hide Wrap, InitExtKey, ExtFromKey, KeyOf, Valid, Indexes;
    FromLargest();
    KeyHasExt(items, s, k);
    var e := ExtFromKey(k);
    LenKeyIs(e);
    forall f | f in s ensures f.len < e.len || (f.len == e.len && e.start <= f.start) {
      LenKeyIs(f);
      ExtHasKeys(items, s, f);
      assert !KeyLess(KeyOf(LEN_TYPE, f), k);
    }
  }

  class Root {
    var items: set<ExtKey>
    var totalLen: nat
    ghost var exts: set<Ext>
    /** How many calls the tree has seen, and which of them it fails. */
    var calls: nat
    const fails: nat -> bool

    ghost predicate Valid()
      reads this
    {
      AllStorable(exts) && Indexes(items, exts) && totalLen == SumLen(exts)
    }

    constructor (fails: nat -> bool)
      ensures Valid() && exts == {}
    {
      items, totalLen, exts, calls := {}, 0, {}, 0;
      this.fails := fails;
    }

    /** The next extent by last block, or the largest when the search by length starts from nothing. */
    method ExtNext(typ: nat, start: nat, len: nat, undo: bool) returns (ret: int, ext: Ext)
      requires Valid() && typ in {BLKNO_TYPE, LEN_TYPE} && start < U64 && len < U64
      modifies `calls
      ensures Valid() && ret in {0, ENOENT, EIO} && (undo ==> ret != EIO)
      ensures ret != EIO && typ == BLKNO_TYPE && len == 1 ==> Next(exts, start) == if ret == 0 then Some(ext) else None
      ensures ret == 0 && typ == LEN_TYPE && start == 0 && len == 0 ==> IsLargest(exts, ext)
      ensures ret == ENOENT && typ == LEN_TYPE && start == 0 && len == 0 ==> exts == {}
    {
      hide Extents.Valid, Indexes, SumLen, Wrap, InitExtKey, ExtFromKey, KeyOf, Next, IsLargest, KeyLess;
      calls := calls + 1;
      if !undo && fails(calls) {
        return EIO, Ext(0, 0, 0, 0);
      }
      var key := InitExtKey(typ, start, len);
      if k :| k in items && !KeyLess(k, key) {
        FirstExists(items, key, k);
        var first :| IsFirst(items, key, first);
        if typ == BLKNO_TYPE && len == 1 { FirstIsNext(items, exts, start, first); }
        if typ == LEN_TYPE && start == 0 && len == 0 { FirstIsLargest(items, exts, first); }
        if first.typ != typ {
          return ENOENT, Ext(0, 0, 0, 0);
        }
        return 0, ExtFromKey(first);
      }
      NothingFrom(items, exts, typ, start, len);
      return ENOENT, Ext(0, 0, 0, 0);
    }

    /**
      Both items of an extent are inserted, or neither.  An undo finds its blocks dirty
      and does not fail.  The items stay one for one with the extents even if an
      extent overlaps others, which the callers rule out.
    */
    method ExtInsert(typ: nat, e: Ext, undo: bool) returns (ret: int)
      requires Valid() && typ in {BLKNO_TYPE, LEN_TYPE} && Storable(e)
      modifies this
      ensures ret in {0, EEXIST, EIO} && (undo ==> ret != EIO) && (ret == EEXIST <==> ret != EIO && e in old(exts))
      ensures Indexes(items, exts) && exts == if ret == 0 then old(exts) + {e} else old(exts)
      ensures ret != 0 ==> items == old(items) && totalLen == old(totalLen)
      ensures ret != 0 || Fresh(old(exts), e) ==> Valid()
    {
      hide SumLen, Indexes, Wrap, InitExtKey, KeyOf, Extents.Valid, Fresh;
      var key, other := KeyOf(typ, e), KeyOf(OtherType(typ), e);
      KeyIsExt(items, exts, e, typ);
      KeyIsExt(items, exts, e, OtherType(typ));
      calls := calls + 1;
      if !undo && fails(calls) {
        return EIO;
      }
      if key in items {
        return EEXIST;
      }
      items := items + {key};
      calls := calls + 1;
      if !undo && fails(calls) {
        items := items - {key};
        return EIO;
      }
      items := items + {other};
      assert items == old(items) + {KeyOf(BLKNO_TYPE, e), KeyOf(LEN_TYPE, e)};
      IndexesMore(old(items), exts, e);
      if Fresh(exts, e) { LengthMore(exts, e); }
      totalLen := Wrap(totalLen + e.len);
      exts := exts + {e};
      return 0;
    }

    /** Both items of an extent are removed, or neither. */
    method ExtRemove(typ: nat, e: Ext, undo: bool) returns (ret: int)
      requires Valid() && typ in {BLKNO_TYPE, LEN_TYPE} && Storable(e)
      modifies this
      ensures Valid() && ret in {0, ENOENT, EIO} && (undo ==> ret != EIO) && (ret == ENOENT <==> ret != EIO && e !in old(exts))
      ensures exts == if ret == 0 then old(exts) - {e} else old(exts)
      ensures ret != 0 ==> items == old(items) && totalLen == old(totalLen)
    {
      hide SumLen, Indexes, Wrap, InitExtKey, KeyOf, Extents.Valid;
      var key, other := KeyOf(typ, e), KeyOf(OtherType(typ), e);
      KeyIsExt(items, exts, e, typ);
      KeyIsExt(items, exts, e, OtherType(typ));
      calls := calls + 1;
      if !undo && fails(calls) {
        return EIO;
      }
      if key !in items {
        return ENOENT;
      }
      items := items - {key};
      calls := calls + 1;
      if !undo && fails(calls) {
        items := items + {key};
        assert items == old(items);
        return EIO;
      }
      items := items - {other};
      assert items == old(items) - {KeyOf(BLKNO_TYPE, e), KeyOf(LEN_TYPE, e)};
      IndexesLess(old(items), exts, e);
      DropAt(exts, e, 0);
      SumLenWithout(exts, e);
      SumFits(exts);
      WrapIs(totalLen - e.len);
      totalLen := Wrap(totalLen - e.len);
      exts := exts - {e};
      return 0;
    }

    /** Makes all of the changes or none of them. */
    method ApplyChanges(typ: nat, chg: seq<Change>, undo: bool) returns (ret: int)
      requires Valid() && typ in {BLKNO_TYPE, LEN_TYPE} && |chg| <= 4 && MakesAll(exts, chg) && PutsStorable(chg)
      modifies this
      ensures Valid() && ret in {0, EIO} && (undo ==> ret == 0)
      ensures exts == if ret == 0 then DoAll(old(exts), chg) else old(exts)
    {
      hide Extents.Valid, MakesAll, Taken, Indexes, SumLen, Makes, AllStorable, Storable;
      ret := 0;
      var i := 0;
      ghost var was := exts;
      assert chg[..0] == [];
      while i < |chg|
        invariant 0 <= i <= |chg| && Valid() && exts == DoAll(was, chg[..i]) && ret == 0
      {
        Prefix(was, chg, i);
        StepsStorable(was, chg, i);
        ret := OneChange(typ, chg[i], undo);
        if ret < 0 {
          break;
        }
        i := i + 1;
      }
      assert chg[..|chg|] == chg;
      while ret < 0 && i > 0
        invariant 0 <= i <= |chg| && Valid() && ret in {0, EIO} && exts == DoAll(was, chg[..i])
        invariant (ret == 0 ==> i == |chg|) && (undo ==> ret == 0)
      {
        i := i - 1;
        Prefix(was, chg, i);
        UndoStep(was, chg, i, exts);
        var err := OneChange(typ, Reverse(chg[i]), true);
      }
    }

    method OneChange(typ: nat, c: Change, undo: bool) returns (ret: int)
      requires Valid() && typ in {BLKNO_TYPE, LEN_TYPE} && Makes(exts, c) && (c.Insert? ==> Storable(c.ext))
      modifies this
      ensures Valid() && ret in {0, EIO} && (undo ==> ret == 0)
      ensures exts == if ret == 0 then Do(old(exts), c) else old(exts)
    {
      if c.Insert? {
        FreshIsNew(exts, c.ext);
        ret := ExtInsert(typ, c.ext, undo);
      } else {
        ret := ExtRemove(typ, c.ext, undo);
      }
    }

    /** Inserts an extent and merges it with its neighbours, which are found by their last blocks. */
    method InsertExt(x: Ext, undo: bool) returns (ret: int)
      requires Valid() && Storable(x)
      modifies this
      ensures Valid() && ret in {0, EINVAL, EIO} && (undo ==> ret != EIO)
      ensures ret == EINVAL <==> ret != EIO && !Fresh(old(exts), x)
      ensures ret == 0 ==> exts == Inserted(old(exts), x)
      ensures ret != 0 ==> exts == old(exts)
    {
      hide Extents.Valid, MakesAll, DoAll, Inserted, Fresh, Indexes, SumLen, AllStorable, Next;
      var chg, ins := [], x;
      var right, left;
      ret, right := Find(x.start, undo);
      if ret == EIO {
        return;
      }
      StorableIs(exts);
      NextOverlaps(exts, x);
      if right.Some? && Overlap(ins, right.value) {
        return EINVAL;
      }
      if right.Some? && CanMerge(ins, right.value) {
        ins := ins.(len := ins.len + right.value.len);
        chg := chg + [Remove(right.value)];
      }
      left := None;
      if x.start > 0 {
        ret, left := Find(x.start - 1, undo);
        if ret == EIO {
          return;
        }
        if left.Some? && CanMerge(left.value, ins) {
          ins := Ext(left.value.start, ins.len + left.value.len, left.value.blk, ins.flags);
          chg := chg + [Remove(left.value)];
        }
      }
      chg := chg + [Insert(ins)];
      assert chg == InsertChanges(left, right, x);
      InsertChangesWork(exts, x);
      InsertsStorable(exts, x);
      ret := ApplyChanges(BLKNO_TYPE, chg, undo);
    }

    method Find(b: nat, undo: bool) returns (ret: int, found: Option<Ext>)
      requires Valid() && b < U64
      modifies `calls
      ensures Valid() && ret in {0, ENOENT, EIO} && (undo ==> ret != EIO)
      ensures (found.Some? <==> ret == 0) && (ret != EIO ==> found == Next(exts, b))
    {
      hide Extents.Valid, Indexes, SumLen, AllStorable, Next;
      var ext;
      ret, ext := ExtNext(BLKNO_TYPE, b, 1, undo);
      found := if ret == 0 then Some(ext) else None;
    }

    /** Takes up to a number of blocks from the front of a largest extent. */
    method AllocExt(count: nat) returns (ret: int, ext: Ext)
      requires Valid()
      modifies this
      ensures Valid() && ret in {0, ENOENT, EIO}
      ensures ret == 0 ==> exists found ::
                IsLargest(old(exts), found) && ext == Piece(found, count) && exts == Allocated(old(exts), found, count)
      ensures ret == ENOENT <==> ret != EIO && old(exts) == {}
      ensures ret != 0 ==> exts == old(exts) && ext == Ext(0, 0, 0, 0)
    {
      hide Extents.Valid, MakesAll, DoAll, Allocated, Indexes, SumLen, AllStorable;
      var e;
      ret, e := ExtNext(LEN_TYPE, 0, 0, false);
      if ret < 0 {
        return ret, Ext(0, 0, 0, 0);
      }
      var chg := [Remove(e)];
      if e.len > count {
        chg := chg + [Insert(Ext(e.start + count, e.len - count, MapAdd(e.blk, count), e.flags))];
      }
      StorableIs(exts);
      AllocMakes(exts, e, count, chg);
      AllocStorable(exts, e, count, chg);
      ret := ApplyChanges(LEN_TYPE, chg, false);
      ext := if ret == 0 then Piece(e, count) else Ext(0, 0, 0, 0);
    }
  }

  function Reverse(c: Change): Change {
    if c.Insert? then Remove(c.ext) else Insert(c.ext)
  }

  ghost predicate PutsStorable(chg: seq<Change>) {
    forall i :: 0 <= i < |chg| && chg[i].Insert? ==> Storable(chg[i].ext)
  }

  lemma StorableIs(s: set<Ext>)
    requires AllStorable(s)
    ensures Valid(s) && forall e :: e in s ==> Storable(e)
  {
  }

  lemma StepsStorable(s: set<Ext>, chg: seq<Change>, i: nat)
    requires MakesAll(s, chg) && PutsStorable(chg) && i < |chg|
    ensures chg[i].Insert? ==> Storable(chg[i].ext)
  {
  }

  lemma {:induction false} PrefixStorable(s: set<Ext>, chg: seq<Change>, i: nat)
    requires MakesAll(s, chg) && i <= |chg| && PutsStorable(chg) && AllStorable(s)
    ensures forall e :: e in DoAll(s, chg[..i]) ==> Storable(e)
  {
    hide Valid, MakesAll, Storable;
    if i > 0 {
      PrefixStorable(s, chg, i - 1);
      Prefix(s, chg, i - 1);
      assert chg[i - 1].Insert? ==> Storable(chg[i - 1].ext);
    } else {
      assert chg[..0] == [];
    }
  }

  /** A change that was made can be taken back. */
  lemma UndoStep(s: set<Ext>, chg: seq<Change>, i: nat, now: set<Ext>)
    requires MakesAll(s, chg) && i < |chg| && now == DoAll(s, chg[..i + 1])
    requires PutsStorable(chg) && AllStorable(s)
    ensures Makes(now, Reverse(chg[i])) && Do(now, Reverse(chg[i])) == DoAll(s, chg[..i])
    ensures Reverse(chg[i]).Insert? ==> Storable(Reverse(chg[i]).ext)
  {
    hide Valid, MakesAll, DoAll, Taken;
    Prefix(s, chg, i);
    PrefixStorable(s, chg, i);
    var t := DoAll(s, chg[..i]);
    Undoes(t, chg[i]);
    if chg[i].Remove? { DropAt(t, chg[i].ext, 0); }
  }

  /** What an insert puts is a part of, or made of, storable extents. */
  lemma InsertsStorable(s: set<Ext>, x: Ext)
    requires AllStorable(s) && Storable(x)
    ensures PutsStorable(InsertChanges(LeftOf(s, x.start), Next(s, x.start), x))
  {
    hide Valid;
  }

  lemma AllocStorable(s: set<Ext>, e: Ext, count: nat, chg: seq<Change>)
    requires AllStorable(s) && e in s
    requires chg == if e.len > count then [Remove(e)] + [Insert(Ext(e.start + count, e.len - count, MapAdd(e.blk, count), e.flags))] else [Remove(e)]
    ensures PutsStorable(chg)
  {
    hide Valid;
  }

  /** The count of the blocks of all extents does not wrap. */
  lemma SumFits(s: set<Ext>)
    requires AllStorable(s)
    ensures SumLen(s) < U64
  {
    hide SumLen, Valid;
    SumBelow(s, U64 - 1);
  }

  lemma LengthMore(s: set<Ext>, e: Ext)
    requires AllStorable(s) && Storable(e) && Fresh(s, e)
    ensures AllStorable(s + {e}) && Wrap(SumLen(s) + e.len) == SumLen(s + {e})
  {
    hide SumLen, Wrap, Fresh, Extents.Valid;
    FreshIsNew(s, e);
    FreshAdds(s, e);
    SumLenWithout(s + {e}, e);
    assert s + {e} - {e} == s;
    SumFits(s + {e});
    WrapIs(SumLen(s) + e.len);
  }

  lemma FreshAdds(s: set<Ext>, e: Ext)
    requires Valid(s) && Fresh(s, e)
    ensures Valid(s + {e})
  {
    AddAt(s, e, 0);
  }

  lemma NothingFrom(items: set<ExtKey>, s: set<Ext>, typ: nat, start: nat, len: nat)
    requires Indexes(items, s) && AllStorable(s) && start < U64
    requires forall k :: k in items ==> KeyLess(k, InitExtKey(typ, start, len))
    ensures typ == BLKNO_TYPE && len == 1 ==> Next(s, start) == None
    ensures typ == LEN_TYPE && start == 0 && len == 0 ==> s == {}
  {
    hide Wrap, InitExtKey, ExtFromKey, KeyOf, Valid, Next, Indexes;
    FromBlkno(start);
    FromLargest();
    if typ == BLKNO_TYPE && len == 1 {
      forall e | e in s ensures End(e) <= start {
        BlknoKeyIs(e);
        ExtHasKeys(items, s, e);
      }
      assert IsNext(s, start, None);
      NextUnique(s, start, None);
    }
    if typ == LEN_TYPE && start == 0 && len == 0 && s != {} {
      var e :| e in s;
      LenKeyIs(e);
      ExtHasKeys(items, s, e);
      assert false;
    }
  }
}
