/**
  The operations that map and unmap the blocks of a file.  Whatever they do and
  however they fail, every data block stays in exactly one place: the available
  extents, the freed extents, the cached extent or a mapping.
*/
module FileData {
  import opened Errno
  import opened Wrappers
  import opened Extents
  import opened ExtentOps
  import opened ExtentStore
  import opened ExtentBlocks
  import opened FileBlocks
  import opened FileExtents
  import opened AllocIndex
  import opened DataAlloc

  const EXTENTS_PER_HOLD: nat := 8
  const EXTEND_PREALLOC_LIMIT: nat := 2048
  const FALLOCATE_ALLOC_LIMIT: nat := 32768

  /** Every data block that the allocator has or that the file is mapped to. */
  ghost function All(d: DataInfo, file: Store): multiset<nat>
    reads d, d.avail, d.freed, file
  {
    d.Held() + Mapped(file.exts)
  }

  ghost predicate OK(d: DataInfo, file: Store)
    reads d, d.avail, d.freed, file
  {
    d.Valid() && FileOK(file.exts) && file.Counted() && Placed(All(d, file), d.first, d.last)
  }

  function Min(a: nat, b: nat): nat {
    if b < a then b else a
  }

  function OrUnwritten(flags: nat): nat {
    if IsUnwritten(flags) then flags else flags + UNWRITTEN
  }

  /** Sets a range that can be set. */
  method SetRange(file: Store, x: Ext, undo: bool) returns (ret: int)
    requires FileOK(file.exts) && file.Counted() && x.len > 0 && Settable(file.exts, x) && (DataExt(x) || Zero(x))
    modifies file
    ensures FileOK(file.exts) && file.Counted() && ret in {0, EIO} && (undo ==> ret == 0)
    ensures ret == 0 ==> file.exts == SetTo(old(file.exts), x)
    ensures ret == 0 ==> Mapped(file.exts) + Replaced(old(file.exts), x) + Lost(old(file.exts), x) == Mapped(old(file.exts)) + BagOf(x)
    ensures DataExt(x) ==> Lost(old(file.exts), x) == multiset{}
    ensures ret == 0 && Lost(old(file.exts), x) == multiset{} ==> forall b :: At(file.exts, b) == SetWant(old(file.exts), x, b)
    ensures ret != 0 ==> file.exts == old(file.exts)
  {
    hide Mapped, Replaced, Lost, BagOf, At, Settable, SetTo, Valid, Total, SetWant;
    SetFile(file.exts, x);
    FileIs(file.exts);
    ret := file.SetExt(x, undo);
  }

  lemma FileIs(s: set<Ext>)
    requires FileOK(s)
    ensures Valid(s)
  {
  }

  /** What an allocation for a write may do to other blocks: unmapped ones after it are mapped, unwritten. */
  ghost predicate Preallocated(s: set<Ext>, s': set<Ext>, iblock: nat, blkno: nat, n: nat, flags: nat) {
    forall b: nat :: At(s', b) ==
                if b == iblock then Some(Val(blkno, 0))
                else if iblock < b < iblock + n then Some(Val(blkno + (b - iblock), OrUnwritten(flags)))
                else At(s, b)
  }

  /** The blocks before and after can be told apart by nothing. */
  ghost predicate SameBlocks(s: set<Ext>, s': set<Ext>) {
    forall b :: At(s', b) == At(s, b)
  }

  /** A range of blocks that is a hole or is inside an offline extent, which `flags` tell. */
  ghost predicate Unmapped(s: set<Ext>, start: nat, len: nat, flags: nat) {
    if flags == 0 then Hole(s, start, len)
    else flags == OFFLINE && exists e :: e in s && e.blk == 0 && e.flags == OFFLINE && e.start <= start && start + len <= End(e)
  }

  lemma UnmappedSet(s: set<Ext>, x: Ext, len: nat, flags: nat)
    requires FileOK(s) && 0 < x.len <= len && Unmapped(s, x.start, len, flags)
    ensures Settable(s, x) && Replaced(s, x) == multiset{}
  {
    hide Valid;
    if flags == 0 {
      HoleSet(s, x);
    } else {
      var e :| e in s && e.blk == 0 && e.flags == OFFLINE && e.start <= x.start && x.start + len <= End(e);
      InsideSet(s, e, x);
    }
  }

  /** After the first block of an unmapped range is set, the rest of the range is unmapped. */
  lemma UnmappedRest(s: set<Ext>, x: Ext, len: nat, flags: nat)
    requires FileOK(s) && x.len == 1 < len && Unmapped(s, x.start, len, flags) && DataExt(x)
    ensures Settable(s, x) && Unmapped(SetTo(s, x), x.start + 1, len - 1, flags)
  {
    hide Valid, At;
    UnmappedSet(s, x, len, flags);
    if flags == 0 {
      SetFile(s, x);
      forall b | x.start + 1 <= b < x.start + len ensures At(SetTo(s, x), b) == None {
        assert At(s, b) == None;
      }
    } else {
      var e :| e in s && e.blk == 0 && e.flags == OFFLINE && e.start <= x.start && x.start + len <= End(e);
      EdgeStays(s, e, x);
    }
  }

  lemma UnmappedAt(s: set<Ext>, start: nat, len: nat, flags: nat, b: nat)
    requires FileOK(s) && Unmapped(s, start, len, flags) && start <= b < start + len
    ensures At(s, b) == if flags == 0 then None else Some(Val(0, OFFLINE))
  {
    if flags != 0 {
      var e :| e in s && e.blk == 0 && e.flags == OFFLINE && e.start <= start && start + len <= End(e);
      AtOne(s, e, b);
    }
  }

  /** The block that was mapped is in one extent, and can be set on its own. */
  lemma MappedBlock(s: set<Ext>, b: nat, blkno: nat, x: Ext)
    requires FileOK(s) && At(s, b) == Some(Val(blkno, 0)) && x.start == b && x.len == 1
    ensures Settable(s, x) && Replaced(s, x) == BagOf(Ext(b, 1, blkno, 0))
  {
    var e :| e in s && Contains(e, b);
    AtOne(s, e, b);
    InsideSet(s, e, x);
    BagOfSame(Part(e, b, 1), Ext(b, 1, blkno, 0));
  }

  /** Maps allocated blocks to an unmapped range: the first one written and the others unwritten. */
  method MapBlocks(file: Store, iblock: nat, blkno: nat, n: nat, flags: nat) returns (ret: int)
    requires FileOK(file.exts) && file.Counted() && n > 0 && blkno > 0 && Unmapped(file.exts, iblock, n, flags)
    modifies file
    ensures FileOK(file.exts) && file.Counted() && ret in {0, EIO}
    ensures ret == 0 ==> Preallocated(old(file.exts), file.exts, iblock, blkno, n, flags)
    ensures ret == 0 ==> Mapped(file.exts) == Mapped(old(file.exts)) + multiset(Run(blkno, n))
    ensures ret != 0 ==> SameBlocks(old(file.exts), file.exts) && Mapped(file.exts) == Mapped(old(file.exts))
  {
    hide Mapped, Replaced, Lost, BagOf, At, Settable, SetTo, Valid, Total, Run, FileOK, Unmapped;
    ghost var s0 := file.exts;
    var x := Ext(iblock, 1, blkno, 0);
    UnmappedSet(s0, x, n, flags);
    ret := SetRange(file, x, false);
    if ret < 0 {
      return;
    }
    OneBlock(x);
    if n > 1 {
      ghost var s1 := file.exts;
      UnmappedRest(s0, x, n, flags);
      FlagsOf(s0, iblock, n, flags);
      var pre := Ext(iblock + 1, n - 1, blkno + 1, OrUnwritten(flags));
      UnmappedSet(s1, pre, n - 1, flags);
      ret := SetRange(file, pre, false);
      if ret < 0 {
        Restorable(s0, s1, iblock, blkno, n, flags);
        var err := SetRange(file, Ext(iblock, 1, 0, flags), true);
        Restored(s0, s1, file.exts, iblock, blkno, n, flags);
        BagBack(Mapped(s0), Mapped(s1), Mapped(file.exts), multiset(Run(blkno, 1)));
        return;
      }
      RunSplit(blkno, 1, n - 1);
      MappedRest(pre);
      BagThere(Mapped(s0), Mapped(s1), Mapped(file.exts), multiset(Run(blkno, 1)), multiset(Run(blkno + 1, n - 1)));
      PreIs(s0, s1, file.exts, iblock, blkno, n, flags);
    } else {
      BagOnce(Mapped(s0), Mapped(file.exts), multiset(Run(blkno, 1)));
      PreOne(s0, file.exts, iblock, blkno, flags);
    }
  }

  lemma BagOnce(m0: multiset<nat>, m1: multiset<nat>, a: multiset<nat>)
    requires m1 + multiset{} + multiset{} == m0 + a
    ensures m1 == m0 + a
  {
    assert m1 + multiset{} + multiset{} == m1;
  }

  lemma BagThere(m0: multiset<nat>, m1: multiset<nat>, m2: multiset<nat>, a: multiset<nat>, b: multiset<nat>)
    requires m1 + multiset{} + multiset{} == m0 + a && m2 + multiset{} + multiset{} == m1 + b
    ensures m2 == m0 + (a + b)
  {
    BagOnce(m0, m1, a);
    BagOnce(m1, m2, b);
    assert m0 + a + b == m0 + (a + b);
  }

  lemma BagBack(m0: multiset<nat>, m1: multiset<nat>, m2: multiset<nat>, a: multiset<nat>)
    requires m1 + multiset{} + multiset{} == m0 + a && m2 + a + multiset{} == m1 + multiset{}
    ensures m2 == m0
  {
    BagOnce(m0, m1, a);
    assert m2 + a + multiset{} == m2 + a && m1 + multiset{} == m1;
    forall x ensures m2[x] == m0[x] { assert (m2 + a)[x] == (m0 + a)[x]; }
  }

  lemma FlagsOf(s: set<Ext>, start: nat, len: nat, flags: nat)
    requires Unmapped(s, start, len, flags)
    ensures flags in {0, OFFLINE} && DataExt(Ext(start + 1, len, 1, OrUnwritten(flags)))
  {
  }

  lemma OneBlock(x: Ext)
    requires x.len == 1 && x.blk != 0
    ensures BagOf(x) == multiset(Run(x.blk, 1))
  {
  }

  lemma MappedRest(x: Ext)
    requires x.blk != 0
    ensures BagOf(x) == multiset(Run(x.blk, x.len))
  {
  }

  /** The first block can be unmapped again, and nothing is lost by that. */
  lemma Restorable(s0: set<Ext>, s1: set<Ext>, iblock: nat, blkno: nat, n: nat, flags: nat)
    requires FileOK(s0) && FileOK(s1) && n > 1 && blkno > 0 && Unmapped(s0, iblock, n, flags)
    requires forall b :: At(s1, b) == SetWant(s0, Ext(iblock, 1, blkno, 0), b)
    ensures var x := Ext(iblock, 1, 0, flags);
            && Settable(s1, x) && (DataExt(x) || Zero(x)) && Replaced(s1, x) == multiset(Run(blkno, 1)) && Lost(s1, x) == multiset{}
            && BagOf(x) == multiset{}
  {
    hide Run, Valid, At, BagOf, Replaced, Lost, Settable;
    var x := Ext(iblock, 1, 0, flags);
    FlagsOf(s0, iblock, n, flags);
    FileIs(s1);
    assert At(s1, iblock) == Some(Val(blkno, 0));
    MappedBlock(s1, iblock, blkno, x);
    OneBlock(Ext(iblock, 1, blkno, 0));
    UnmappedAt(s0, iblock, n, flags, iblock + 1);
    if flags == 0 { NothingNext(s1, x); } else { NoneLost(s1, x); }
    EmptyBag(x);
  }

  lemma EmptyBag(x: Ext)
    requires x.blk == 0
    ensures BagOf(x) == multiset{}
  {
  }

  lemma Restored(s0: set<Ext>, s1: set<Ext>, s2: set<Ext>, iblock: nat, blkno: nat, n: nat, flags: nat)
    requires FileOK(s0) && n > 1 && Unmapped(s0, iblock, n, flags)
    requires forall b :: At(s1, b) == SetWant(s0, Ext(iblock, 1, blkno, 0), b)
    requires forall b :: At(s2, b) == SetWant(s1, Ext(iblock, 1, 0, flags), b)
    ensures SameBlocks(s0, s2)
  {
    hide Valid, At;
    FlagsOf(s0, iblock, n, flags);
    UnmappedAt(s0, iblock, n, flags, iblock);
    forall b ensures At(s2, b) == At(s0, b) {
      assert At(s1, b) == SetWant(s0, Ext(iblock, 1, blkno, 0), b);
    }
  }

  lemma PreOne(s0: set<Ext>, s1: set<Ext>, iblock: nat, blkno: nat, flags: nat)
    requires forall b :: At(s1, b) == SetWant(s0, Ext(iblock, 1, blkno, 0), b)
    requires blkno > 0
    ensures Preallocated(s0, s1, iblock, blkno, 1, flags)
  {
    hide At;
    forall b: nat ensures At(s1, b) == if b == iblock then Some(Val(blkno, 0)) else At(s0, b) {
      assert At(s1, b) == SetWant(s0, Ext(iblock, 1, blkno, 0), b);
    }
  }

  lemma PreIs(s0: set<Ext>, s1: set<Ext>, s2: set<Ext>, iblock: nat, blkno: nat, n: nat, flags: nat)
    requires blkno > 0 && n > 1
    requires forall b :: At(s1, b) == SetWant(s0, Ext(iblock, 1, blkno, 0), b)
    requires forall b :: At(s2, b) == SetWant(s1, Ext(iblock + 1, n - 1, blkno + 1, OrUnwritten(flags)), b)
    ensures Preallocated(s0, s2, iblock, blkno, n, flags)
  {
    hide At;
    forall b: nat ensures At(s2, b) ==
                     if b == iblock then Some(Val(blkno, 0))
                     else if iblock < b < iblock + n then Some(Val(blkno + (b - iblock), OrUnwritten(flags)))
                     else At(s0, b)
    {
      assert At(s1, b) == SetWant(s0, Ext(iblock, 1, blkno, 0), b);
    }
  }

  // ---- writing

  /** Blocks moved from the allocator to the mappings of a file, or back. */
  lemma BagMoves(h0: multiset<nat>, h1: multiset<nat>, m0: multiset<nat>, m1: multiset<nat>, run: multiset<nat>)
    requires h1 + run == h0 && m1 == m0 + run
    ensures h1 + m1 == h0 + m0
  {
    assert h1 + m1 == (h1 + run) + m0;
  }

  lemma BagReturns(h0: multiset<nat>, h1: multiset<nat>, h2: multiset<nat>, run: multiset<nat>)
    requires h1 + run == h0 && h2 == h1 + run
    ensures h2 == h0
  {
  }

  /** Blocks that were just allocated: their numbers, and that they can be freed again. */
  lemma JustTaken(h0: multiset<nat>, h1: multiset<nat>, m: multiset<nat>, blkno: nat, n: nat, first: nat, last: nat)
    requires Placed(h0 + m, first, last) && n > 0 && first > 0 && h1 + multiset(Run(blkno, n)) == h0
    ensures blkno > 0 && Placed(h1 + multiset(Run(blkno, n)), first, last)
  {
    hide Run, Placed;
    PlacedPart(h0 + m, h0, first, last);
    PlacedRange(h0, blkno, n, first, last);
  }

  lemma ExtIsUnmapped(s: set<Ext>, e: Ext, iblock: nat, n: nat)
    requires FileOK(s) && e in s && e.blk == 0 && Contains(e, iblock) && iblock + n <= End(e)
    ensures e.flags == OFFLINE && Unmapped(s, iblock, n, e.flags)
  {
  }

  /** The next extent after a block that has none starts after it. */
  lemma NextStarts(s: set<Ext>, b: nat)
    requires Valid(s) && At(s, b) == None && Next(s, b).Some?
    ensures b < Next(s, b).value.start
  {
    var n := Next(s, b).value;
    if n.start <= b { AtOne(s, n, b); }
  }

  /** How many unmapped blocks to allocate for a block that is written: more than it only when a file grows. */
  method CountFor(file: Store, ext: Ext, iblock: nat) returns (ret: int, count: nat, flags: nat)
    requires FileOK(file.exts) && (ext.len > 0 ==> ext in file.exts && Contains(ext, iblock) && ext.blk == 0)
    requires ext.len == 0 ==> At(file.exts, iblock) == None
    modifies file`calls
    ensures ret in {0, EIO}
    ensures ret == 0 ==> && 0 < count <= EXTEND_PREALLOC_LIMIT && (count > 1 ==> count <= iblock == file.online)
                         && Unmapped(file.exts, iblock, count, flags)
  {
    hide At, Valid, FileOK, Unmapped, Next;
    FileIs(file.exts);
    ret, count, flags := 0, EXTEND_PREALLOC_LIMIT, 0;
    if ext.len > 0 {
      count, flags := ext.len - (iblock - ext.start), ext.flags;
      ExtIsUnmapped(file.exts, ext, iblock, count);
    } else {
      var found;
      ret, found := file.OpNext(iblock, false);
      if ret == EIO {
        return;
      }
      ret := 0;
      if found.Some? {
        NextStarts(file.exts, iblock);
        if found.value.start > iblock { count := found.value.start - iblock; }
      }
      NextHole(file.exts, iblock, count);
      HoleUnmapped(file.exts, iblock, count, count);
    }
    ghost var room := count;
    count := Min(count, EXTEND_PREALLOC_LIMIT);
    if iblock > 1 && iblock == file.online {
      count := Min(iblock, count);
    } else {
      count := 1;
    }
    UnmappedLess(file.exts, iblock, count, room, flags);
  }

  lemma {:induction false} UnmappedLess(s: set<Ext>, start: nat, n: nat, len: nat, flags: nat)
    requires Unmapped(s, start, len, flags) && n <= len
    ensures Unmapped(s, start, n, flags)
  {
    if flags != 0 {
      var e :| e in s && e.blk == 0 && e.flags == OFFLINE && e.start <= start && start + len <= End(e);
    }
  }

  /**
    Allocates a block for a write, and more after it when the file is written from
    its start on: as many as it has, up to a limit and to the end of the hole or of
    the offline extent that is being written.
  */
  method AllocBlock(d: DataInfo, file: Store, ext: Ext, iblock: nat) returns (ret: int, got: Ext)
    requires OK(d, file) && (ext.len > 0 ==> ext in file.exts) && (ext.len == 0 ==> At(file.exts, iblock) == None)
    modifies d, d.avail, d.freed, file
    ensures OK(d, file) && All(d, file) == old(All(d, file)) && ret in {0, EINVAL, EIO, ENOSPC}
    ensures ret == EINVAL <==> ext.len > 0 && !(Contains(ext, iblock) && ext.blk == 0)
    ensures ret == 0 ==> got == Ext(iblock, 1, got.blk, 0) && exists n: nat, flags: nat ::
              && Preallocated(old(file.exts), file.exts, iblock, got.blk, n, flags)
              && 0 < n <= EXTEND_PREALLOC_LIMIT && (n > 1 ==> n <= iblock == old(file.online))
    ensures ret != 0 ==> SameBlocks(old(file.exts), file.exts)
  {
    hide Mapped, At, Valid, Total, Run, FileOK, Placed, HeldOf, Blocks, Indexes, SumLen, AllStorable, Unmapped, Preallocated, Next;
    got := Ext(0, 0, 0, 0);
    if ext.len > 0 && !(Contains(ext, iblock) && ext.blk == 0 && IsOffline(ext.flags)) {
      OfflineIs(file.exts, ext);
      return EINVAL, got;
    }
    var count, flags;
    ret, count, flags := CountFor(file, ext, iblock);
    if ret < 0 {
      return;
    }
    var blkno, n;
    ghost var h0, s0 := d.Held(), file.exts;
    ret, blkno, n := d.AllocData(count);
    if ret < 0 {
      return;
    }
    JustTaken(h0, d.Held(), Mapped(s0), blkno, n, d.first, d.last);
    UnmappedLess(s0, iblock, n, count, flags);
    ghost var h1 := d.Held();
    ret := MapBlocks(file, iblock, blkno, n, flags);
    if ret < 0 {
      var err := d.FreeData(d.freed, blkno, n, true);
      BagReturns(h0, h1, d.Held(), multiset(Run(blkno, n)));
      return;
    }
    BagMoves(h0, h1, Mapped(s0), Mapped(file.exts), multiset(Run(blkno, n)));
    got := Ext(iblock, 1, blkno, 0);
  }

  /** An unmapped extent of a file is offline. */
  lemma OfflineIs(s: set<Ext>, e: Ext)
    requires FileOK(s) && e in s
    ensures e.blk == 0 ==> IsOffline(e.flags)
  {
  }

  /** A block that was preallocated becomes written where it is. */
  method WriteUnwritten(d: DataInfo, file: Store, ext: Ext, iblock: nat) returns (ret: int)
    requires OK(d, file) && ext in file.exts && Contains(ext, iblock) && ext.blk != 0
    modifies file
    ensures OK(d, file) && All(d, file) == old(All(d, file)) && ret in {0, EIO}
    ensures ret == 0 ==> Preallocated(old(file.exts), file.exts, iblock, ext.blk + (iblock - ext.start), 1, 0)
    ensures ret != 0 ==> file.exts == old(file.exts)
  {
    hide Mapped, At, Valid, Total, Run, FileOK, Placed, HeldOf, Blocks, Indexes, SumLen, AllStorable, Next, Replaced, Lost, BagOf, Settable;
    var un := Ext(iblock, 1, ext.blk + (iblock - ext.start), 0);
    FileIs(file.exts);
    ghost var s0 := file.exts;
    InsideSet(s0, ext, un);
    BagOfSame(Part(ext, iblock, 1), un);
    ret := SetRange(file, un, false);
    if ret == 0 {
      BagSame(Mapped(s0), Mapped(file.exts), BagOf(un));
      PreOne(s0, file.exts, iblock, un.blk, 0);
    }
  }

  lemma BagSame(m0: multiset<nat>, m1: multiset<nat>, a: multiset<nat>)
    requires m1 + a + multiset{} == m0 + a
    ensures m1 == m0
  {
    assert m1 + a + multiset{} == m1 + a;
    forall x ensures m1[x] == m0[x] { assert (m1 + a)[x] == (m0 + a)[x]; }
  }

  // ---- preallocating

  /** A block is mapped as it was, or else now, unwritten and with the flags that it had. */
  predicate FallocatedAt(was: Option<Val>, now: Option<Val>) {
    if was.Some? && was.value.blk != 0 then now == was
    else now.Some? && now.value.blk != 0 && now.value.flags == OrUnwritten(if was.Some? then was.value.flags else 0)
  }

  ghost predicate Fallocated(s: set<Ext>, s': set<Ext>, start: nat, end: nat) {
    forall b: nat :: if start <= b < end then FallocatedAt(At(s, b), At(s', b)) else At(s', b) == At(s, b)
  }

  lemma FallocateSkips(s0: set<Ext>, s: set<Ext>, start: nat, iblock: nat, e: Ext, n: nat)
    requires FileOK(s) && Fallocated(s0, s, start, iblock) && start <= iblock
    requires e in s && e.blk != 0 && Contains(e, iblock) && iblock + n <= End(e)
    ensures Fallocated(s0, s, start, iblock + n)
  {
    hide At;
    forall b: nat | iblock <= b < iblock + n ensures FallocatedAt(At(s0, b), At(s, b)) {
      AtOne(s, e, b);
      assert At(s, b) == At(s0, b);
    }
  }

  lemma FallocateSets(s0: set<Ext>, s: set<Ext>, s': set<Ext>, start: nat, iblock: nat, n: nat, blkno: nat, flags: nat)
    requires FileOK(s) && Fallocated(s0, s, start, iblock) && start <= iblock && blkno > 0 && Unmapped(s, iblock, n, flags)
    requires forall b :: At(s', b) == SetWant(s, Ext(iblock, n, blkno, OrUnwritten(flags)), b)
    ensures Fallocated(s0, s', start, iblock + n)
  {
    hide At, FileOK, Unmapped;
    forall b: nat ensures if start <= b < iblock + n then FallocatedAt(At(s0, b), At(s', b)) else At(s', b) == At(s0, b) {
      assert At(s', b) == SetWant(s, Ext(iblock, n, blkno, OrUnwritten(flags)), b);
      if iblock <= b < iblock + n {
        UnmappedAt(s, iblock, n, flags, b);
        UnmappedFlags(s, iblock, n, flags);
        assert At(s, b) == At(s0, b);
      }
    }
  }

  lemma UnmappedFlags(s: set<Ext>, iblock: nat, n: nat, flags: nat)
    requires Unmapped(s, iblock, n, flags)
    ensures flags in {0, OFFLINE}
  {
  }

  /** Allocates unwritten blocks for what is not mapped, a few extents at a time; how many blocks are done is returned. */
  method FallocateExtents(d: DataInfo, file: Store, start: nat, last: nat) returns (ret: int, ghost end: nat)
    requires OK(d, file)
    modifies d, d.avail, d.freed, file
    ensures OK(d, file) && All(d, file) == old(All(d, file)) && (ret < 0 ==> ret in {EIO, ENOSPC})
    ensures start <= end && Fallocated(old(file.exts), file.exts, start, end)
    ensures ret >= 0 ==> end == start + ret && (start <= last ==> start < end <= last + 1)
  {
    hide Mapped, At, Valid, Total, Run, FileOK, Placed, HeldOf, Blocks, Indexes, SumLen, AllStorable, Unmapped, Fallocated, Next;
    var iblock, done, i := start, 0, 0;
    ret := 0;
    NothingYet(file.exts, start);
    while iblock <= last && i < EXTENTS_PER_HOLD
      invariant OK(d, file) && All(d, file) == old(All(d, file)) && ret == 0
      invariant 0 <= done && iblock == start + done && (start <= last ==> iblock <= last + 1) && Fallocated(old(file.exts), file.exts, start, iblock)
      invariant start <= last && i > 0 ==> done > 0
      decreases EXTENTS_PER_HOLD - i
    {
      i := i + 1;
      end := iblock;
      FileIs(file.exts);
      var found;
      ret, found := file.OpNext(iblock, false);
      if ret == EIO {
        return;
      }
      ret := 0;
      NextIs(file.exts, iblock);
      var count, flags := last - iblock + 1, 0;
      if found.Some? && found.value.start <= iblock && found.value.blk != 0 {
        count := Min(count, found.value.len - (iblock - found.value.start));
        FallocateSkips(old(file.exts), file.exts, start, iblock, found.value, count);
        iblock, done := iblock + count, done + count;
        continue;
      } else if found.Some? && found.value.start <= iblock {
        count, flags := Min(count, found.value.len - (iblock - found.value.start)), found.value.flags;
      } else if found.Some? {
        count := Min(count, found.value.start - iblock);
      }
      if !(found.Some? && found.value.start <= iblock) { NextHole(file.exts, iblock, count); }
      ghost var room := count;
      count := Min(count, FALLOCATE_ALLOC_LIMIT);
      var n;
      ghost var s := file.exts;
      ret, n := FallocateOne(d, file, iblock, count, room, flags, found);
      if ret < 0 {
        SameFallocated(old(file.exts), s, file.exts, start, iblock);
        return;
      }
      FallocatedMore(old(file.exts), s, file.exts, start, iblock, n);
      iblock, done := iblock + n, done + n;
    }
    end := iblock;
    ret := done;
  }

  lemma NothingYet(s: set<Ext>, start: nat)
    ensures Fallocated(s, s, start, start)
  {
  }

  lemma NextIs(s: set<Ext>, b: nat)
    requires Valid(s)
    ensures Next(s, b).Some? ==> Next(s, b).value in s && b < End(Next(s, b).value) && Next(s, b).value.len > 0
  {
  }

  lemma SameFallocated(s0: set<Ext>, s: set<Ext>, s': set<Ext>, start: nat, iblock: nat)
    requires Fallocated(s0, s, start, iblock) && SameBlocks(s, s')
    ensures Fallocated(s0, s', start, iblock)
  {
    hide At;
    forall b: nat ensures if start <= b < iblock then FallocatedAt(At(s0, b), At(s', b)) else At(s', b) == At(s0, b) {
      assert At(s', b) == At(s, b);
    }
  }

  lemma FallocatedMore(s0: set<Ext>, s: set<Ext>, s': set<Ext>, start: nat, iblock: nat, n: nat)
    requires Fallocated(s0, s, start, iblock) && start <= iblock && Fallocated(s, s', iblock, iblock + n)
    ensures Fallocated(s0, s', start, iblock + n)
  {
    hide At;
    forall b: nat ensures if start <= b < iblock + n then FallocatedAt(At(s0, b), At(s', b)) else At(s', b) == At(s0, b) {
      assert if iblock <= b < iblock + n then FallocatedAt(At(s, b), At(s', b)) else At(s', b) == At(s, b);
      assert if start <= b < iblock then FallocatedAt(At(s0, b), At(s, b)) else At(s, b) == At(s0, b);
    }
  }

  /** Allocates blocks for an unmapped range and maps them, or gives them back. */
  method FallocateOne(d: DataInfo, file: Store, iblock: nat, count: nat, ghost room: nat, flags: nat, ghost found: Option<Ext>)
    returns (ret: int, n: nat)
    requires OK(d, file) && 0 < count <= room
    requires if found.Some? && found.value.start <= iblock
             then found.value in file.exts && found.value.blk == 0 && iblock + room <= End(found.value) && flags == found.value.flags
             else flags == 0 && Hole(file.exts, iblock, room)
    modifies d, d.avail, d.freed, file
    ensures OK(d, file) && All(d, file) == old(All(d, file)) && ret in {0, EIO, ENOSPC}
    ensures ret == 0 ==> 0 < n <= count && Fallocated(old(file.exts), file.exts, iblock, iblock + n)
    ensures ret != 0 ==> SameBlocks(old(file.exts), file.exts)
  {
    hide Mapped, At, Valid, Total, Run, FileOK, Placed, HeldOf, Blocks, Indexes, SumLen, AllStorable, Unmapped, Fallocated, Next, BagOf, Replaced, Lost, Settable, Hole;
    ghost var h0, s0 := d.Held(), file.exts;
    var blkno;
    ret, blkno, n := d.AllocData(count);
    if ret < 0 {
      return;
    }
    ghost var h1 := d.Held();
    JustTaken(h0, h1, Mapped(s0), blkno, n, d.first, d.last);
    if found.Some? && found.value.start <= iblock { ExtIsUnmapped(s0, found.value, iblock, n); } else { HoleUnmapped(s0, iblock, n, room); }
    var x := Ext(iblock, n, blkno, OrUnwritten(flags));
    FlagsOf(s0, iblock, n, flags);
    UnmappedSet(s0, x, n, flags);
    ret := SetRange(file, x, false);
    if ret < 0 {
      var err := d.FreeData(d.avail, blkno, n, true);
      BagReturns(h0, h1, d.Held(), multiset(Run(blkno, n)));
      return;
    }
    MappedRest(x);
    BagOnce(Mapped(s0), Mapped(file.exts), multiset(Run(blkno, n)));
    BagMoves(h0, h1, Mapped(s0), Mapped(file.exts), multiset(Run(blkno, n)));
    NothingYet(s0, iblock);
    FallocateSets(s0, s0, file.exts, iblock, iblock, n, blkno, flags);
  }

  lemma HoleUnmapped(s: set<Ext>, iblock: nat, n: nat, room: nat)
    requires n <= room && Hole(s, iblock, room)
    ensures Unmapped(s, iblock, n, 0)
  {
  }
}
