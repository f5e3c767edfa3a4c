/**
  Allocating the blocks of file data: blocks come from the available extents, by
  way of a cached extent if few are asked for, and go to the freed extents.
*/
module DataAlloc {
  import opened Errno
  import opened Wrappers
  import opened Keys
  import opened Extents
  import opened ExtentBlocks
  import opened AllocIndex
  import opened AllocMove
  import ExtentOps

  const LG_THRESH: nat := 2048

  /** Metadata starts after the quorum blocks, and data after at least one metadata block of 16 data blocks. */
  const FIRST_META: nat := 8
  const FIRST_DATA: nat := (FIRST_META + 1) * 16

  /** The blocks of the available and freed extents and of the cached one. */
  ghost function HeldOf(avail: set<nat>, freed: set<nat>, cached: set<nat>): multiset<nat> {
    multiset(avail) + multiset(freed) + multiset(cached)
  }

  /** Every block is in one place, and is a data block of the device. */
  ghost predicate Placed(m: multiset<nat>, first: nat, last: nat) {
    forall b :: m[b] <= 1 && (b in m ==> first <= b <= last)
  }

  lemma PlacedPart(m: multiset<nat>, part: multiset<nat>, first: nat, last: nat)
    requires Placed(m, first, last) && part <= m
    ensures Placed(part, first, last)
  {
  }

  /** Blocks that are in hand are apart from those in another place. */
  lemma PlacedApart(m: multiset<nat>, a: set<nat>, run: set<nat>, first: nat, last: nat)
    requires Placed(m, first, last) && multiset(a) + multiset(run) <= m
    ensures a !! run
  {
    forall b | b in a ensures b !in run {
      assert (multiset(a) + multiset(run))[b] <= m[b];
    }
  }

  lemma PlacedRange(m: multiset<nat>, start: nat, len: nat, first: nat, last: nat)
    requires Placed(m, first, last) && multiset(Run(start, len)) <= m && len > 0
    ensures first <= start && start + len - 1 <= last
  {
    hide Run;
    RunMember(start, len, start);
    RunMember(start, len, start + len - 1);
    assert start in multiset(Run(start, len)) && start + len - 1 in multiset(Run(start, len));
  }

  lemma TakeFrom(a: set<nat>, a': set<nat>, f: set<nat>, c: set<nat>, run: set<nat>)
    requires run <= a && a' == a - run
    ensures HeldOf(a', f, c) + multiset(run) == HeldOf(a, f, c)
  {
    assert a' + run == a && multiset(a' + run) == multiset(a') + multiset(run);
    var rest := multiset(f) + multiset(c);
    assert HeldOf(a', f, c) + multiset(run) == multiset(a') + multiset(run) + rest;
    assert HeldOf(a, f, c) == multiset(a) + rest;
  }

  lemma PutTo(a: set<nat>, f: set<nat>, c: set<nat>, run: set<nat>)
    requires a !! run
    ensures HeldOf(a + run, f, c) == HeldOf(a, f, c) + multiset(run)
  {
    TakeFrom(a + run, a, f, c, run);
  }

  lemma HeldSwap(a: set<nat>, f: set<nat>, c: set<nat>)
    ensures HeldOf(a, f, c) == HeldOf(f, a, c) == HeldOf(c, f, a)
  {
  }

  /** The front of a run and the rest of it. */
  lemma RunFront(start: nat, len: nat, n: nat)
    requires n <= len
    ensures Run(start, n) <= Run(start, len) && Run(start + n, len - n) == Run(start, len) - Run(start, n)
  {
    hide Run;
    forall b
      ensures b in Run(start, n) ==> b in Run(start, len)
      ensures b in Run(start + n, len - n) <==> b in Run(start, len) - Run(start, n)
    {
      RunMember(start, n, b);
      RunMember(start, len, b);
      RunMember(start + n, len - n, b);
    }
  }

  /** A piece was taken from the front of a largest extent. */
  ghost predicate TakesFront(was: set<Ext>, now: set<Ext>, ext: Ext, count: nat) {
    exists found :: IsLargest(was, found) && ext == ExtentOps.Piece(found, count) && now == ExtentOps.Allocated(was, found, count)
  }

  /** Blocks were taken from the front of a cached extent. */
  predicate GivesFront(from: Ext, cached: Ext, count: nat, blkno: nat, n: nat) {
    && blkno == from.start && n == (if from.len < count then from.len else count)
    && cached == Ext(from.start + n, from.len - n, from.blk, from.flags)
  }

  class DataInfo {
    const avail: Root
    const freed: Root
    var cached: Ext
    /** The data blocks of the device. */
    const first: nat
    const last: nat

    constructor (avail: Root, freed: Root, first: nat, last: nat)
      requires avail != freed && avail.Valid() && freed.Valid() && FIRST_DATA <= first && last < U64 - 1
      ensures Valid() && this.avail == avail && this.freed == freed && this.first == first && this.last == last
      ensures cached.len == 0
    {
      this.avail, this.freed, this.first, this.last := avail, freed, first, last;
      cached := Ext(0, 0, 0, 0);
    }

    ghost predicate Valid()
      reads this, avail, freed
    {
      avail != freed && avail.Valid() && freed.Valid() && FIRST_DATA <= first && last < U64 - 1
    }

    ghost function Held(): multiset<nat>
      reads this, avail, freed
    {
      HeldOf(Blocks(avail.exts), Blocks(freed.exts), Run(cached.start, cached.len))
    }

    /** Takes up to a number of blocks, at least one; few at a time come from the cached extent. */
    method AllocData(count: nat) returns (ret: int, blkno: nat, n: nat)
      requires Valid() && count > 0
      modifies `cached, avail
      ensures Valid() && ret in {0, ENOSPC, EIO}
      ensures ret == 0 ==> 0 < n <= count && Held() + multiset(Run(blkno, n)) == old(Held())
      ensures ret != 0 ==> Held() == old(Held()) && blkno == 0 && n == 0
      ensures ret == ENOSPC ==> avail.exts == {}
      ensures ret == 0 && count >= LG_THRESH ==>
                cached == old(cached) && exists ext :: TakesFront(old(avail.exts), avail.exts, ext, count) && blkno == ext.start && n == ext.len
      ensures ret == 0 && count < LG_THRESH && old(cached).len > 0 ==>
                avail.exts == old(avail.exts) && GivesFront(old(cached), cached, count, blkno, n)
      ensures ret == 0 && count < LG_THRESH && old(cached).len == 0 ==>
                exists ext :: TakesFront(old(avail.exts), avail.exts, ext, LG_THRESH) && GivesFront(ext, cached, count, blkno, n)
    {
      hide Blocks, Run, Indexes, SumLen, AllStorable, HeldOf, TakesFront;
      var ext;
      if count >= LG_THRESH {
        ret, ext := TakeExt(count);
        if ret == 0 {
          return 0, ext.start, ext.len;
        }
        return if ret == ENOENT then ENOSPC else ret, 0, 0;
      }
      if cached.len == 0 {
        ret, ext := TakeExt(LG_THRESH);
        CacheIsEmpty(Blocks(avail.exts), Blocks(freed.exts), cached, ext);
        cached := ext;
        if ret < 0 {
          return if ret == ENOENT then ENOSPC else ret, 0, 0;
        }
      }
      n := if cached.len < count then cached.len else count;
      blkno := cached.start;
      CacheGives(Blocks(avail.exts), Blocks(freed.exts), cached.start, cached.len, n);
      cached := Ext(cached.start + n, cached.len - n, cached.blk, cached.flags);
      return 0, blkno, n;
    }

    /** Takes the front of a largest available extent. */
    method TakeExt(count: nat) returns (ret: int, ext: Ext)
      requires Valid() && count > 0
      modifies avail
      ensures Valid() && ret in {0, ENOENT, EIO}
      ensures ret == 0 ==> 0 < ext.len <= count && Held() + multiset(Run(ext.start, ext.len)) == old(Held())
      ensures ret != 0 ==> Held() == old(Held()) && ext.len == 0
      ensures ret == ENOENT ==> avail.exts == {}
      ensures ret == 0 ==> TakesFront(old(avail.exts), avail.exts, ext, count)
    {
      hide Blocks, Run, Indexes, SumLen, AllStorable, HeldOf, ExtentOps.Allocated, IsLargest;
      ghost var was := avail.exts;
      ret, ext := avail.AllocExt(count);
      if ret == 0 {
        TakenBlocks(was, avail.exts, ext, count);
        TakeFrom(Blocks(was), Blocks(avail.exts), Blocks(freed.exts), Run(cached.start, cached.len), Run(ext.start, ext.len));
      }
    }

    /** Puts blocks that are in no other place to one of the roots. */
    method FreeData(root: Root, blkno: nat, count: nat, undo: bool) returns (ret: int)
      requires Valid() && root in {avail, freed} && count > 0
      modifies root
      ensures Valid() && ret in {0, EINVAL, EIO}
      ensures ret == 0 ==> Held() == old(Held()) + multiset(Run(blkno, count))
      ensures ret != 0 ==> Held() == old(Held())
      ensures undo ==> ret != EIO
      ensures Placed(old(Held()) + multiset(Run(blkno, count)), first, last) ==> ret != EINVAL
    {
      hide Blocks, Run, Indexes, SumLen, AllStorable, HeldOf, Placed, ExtentOps.Inserted, ExtentOps.Fresh;
      FreeIsPlaced(Blocks(avail.exts), Blocks(freed.exts), Run(cached.start, cached.len), blkno, count, first, last);
      if !(first <= blkno && blkno + count - 1 <= last) {
        return EINVAL;
      }
      var x := Ext(blkno, count, 0, 0);
      ghost var a, f, was := Blocks(avail.exts), Blocks(freed.exts), root.exts;
      ApartIsFresh(was, x);
      ret := root.InsertExt(x, undo);
      if ret == 0 {
        PutBlocks(was, x);
        if root == avail {
          PutTo(a, f, Run(cached.start, cached.len), Run(blkno, count));
        } else {
          PutTo(f, a, Run(cached.start, cached.len), Run(blkno, count));
          HeldSwap(a, f, Run(cached.start, cached.len));
          HeldSwap(a, f + Run(blkno, count), Run(cached.start, cached.len));
        }
      }
    }

    /** Before a commit the cached extent goes back to where it came from. */
    method PrepareCommit() returns (ret: int)
      requires Valid() && Placed(Held(), first, last)
      modifies `cached, avail
      ensures Valid() && Held() == old(Held()) && ret in {0, EIO}
      ensures ret == 0 ==> cached.len == 0
    {
      hide Blocks, Run, Indexes, SumLen, AllStorable, HeldOf;
      ret := 0;
      if cached.len > 0 {
        ghost var c := Run(cached.start, cached.len);
        ghost var a, f, was := Blocks(avail.exts), Blocks(freed.exts), avail.exts;
        CachedApart(a, f, c, first, last);
        PlacedRange(Held(), cached.start, cached.len, first, last);
        var x := Ext(cached.start, cached.len, 0, 0);
        ApartIsFresh(was, x);
        ret := avail.InsertExt(x, false);
        if ret == 0 {
          PutBlocks(was, x);
          NoRun(0);
          CachedBack(a, f, c);
          cached := Ext(0, 0, 0, 0);
        }
      }
    }
  }

  /** An empty cached extent is filled. */
  lemma CacheIsEmpty(a: set<nat>, f: set<nat>, cached: Ext, ext: Ext)
    requires cached.len == 0
    ensures HeldOf(a, f, Run(ext.start, ext.len)) == HeldOf(a, f, Run(cached.start, cached.len)) + multiset(Run(ext.start, ext.len))
  {
    hide Run;
    NoRun(cached.start);
  }

  lemma CacheGives(a: set<nat>, f: set<nat>, start: nat, len: nat, n: nat)
    requires n <= len
    ensures HeldOf(a, f, Run(start + n, len - n)) + multiset(Run(start, n)) == HeldOf(a, f, Run(start, len))
  {
    hide Run, HeldOf;
    RunFront(start, len, n);
    TakeFrom(Run(start, len), Run(start + n, len - n), f, a, Run(start, n));
    HeldSwap(a, f, Run(start, len));
    HeldSwap(a, f, Run(start + n, len - n));
  }

  lemma NoRun(start: nat)
    ensures Run(start, 0) == {}
  {
  }

  lemma FreeIsPlaced(a: set<nat>, f: set<nat>, c: set<nat>, blkno: nat, count: nat, first: nat, last: nat)
    requires count > 0
    ensures Placed(HeldOf(a, f, c) + multiset(Run(blkno, count)), first, last) ==>
              first <= blkno && blkno + count - 1 <= last && a !! Run(blkno, count) && f !! Run(blkno, count)
  {
    hide Run, Placed;
    var run := Run(blkno, count);
    var m := HeldOf(a, f, c) + multiset(run);
    if Placed(m, first, last) {
      PlacedRange(m, blkno, count, first, last);
      PlacedApart(m, a, run, first, last);
      PlacedApart(m, f, run, first, last);
    }
  }

  lemma CachedApart(a: set<nat>, f: set<nat>, c: set<nat>, first: nat, last: nat)
    requires Placed(HeldOf(a, f, c), first, last)
    ensures a !! c && multiset(c) <= HeldOf(a, f, c)
  {
    hide Placed;
    PlacedApart(HeldOf(a, f, c), a, c, first, last);
  }

  lemma CachedBack(a: set<nat>, f: set<nat>, c: set<nat>)
    requires a !! c
    ensures HeldOf(a + c, f, {}) == HeldOf(a, f, c)
  {
    PutTo(a, f, {}, c);
    assert HeldOf(a, f, {}) + multiset(c) == HeldOf(a, f, c);
  }
}
