/**
  Truncating and releasing the blocks of a file.  The extents of a range are
  unmapped one after the other and their blocks are freed.  A mapped extent is
  lost when the range that is cleared before it is as long as the number of its
  first block, which merging takes for blocks that go on from each other.
*/
module FileTruncate {
  import opened Errno
  import opened Wrappers
  import opened Extents
  import opened ExtentOps
  import opened ExtentStore
  import opened ExtentBlocks
  import opened FileBlocks
  import opened FileExtents
  import opened AllocIndex
  import opened DataAlloc
  import opened FileData

  /** The part of an extent from a block on and up to a last one. */
  function Front(e: Ext, iblock: nat): nat {
    if e.start < iblock then iblock else e.start
  }

  function Range(e: Ext, iblock: nat, last: nat, flags: nat): Ext
    requires iblock < End(e) && e.start <= last && iblock <= last
  {
    var start := Front(e, iblock);
    Ext(start, Min(End(e) - start, last - start + 1), 0, flags)
  }

  function NewFlags(offline: bool): nat {
    if offline then OFFLINE else 0
  }

  /** Unmaps a part of an extent and frees the blocks that it was mapped to. */
  method TruncateOne(d: DataInfo, file: Store, ext: Ext, iblock: nat, last: nat, offline: bool) returns (ret: int)
    requires OK(d, file) && ext in file.exts && iblock < End(ext) && ext.start <= last && iblock <= last
    modifies d.freed, file
    ensures OK(d, file) && ret in {0, EIO} && Settable(old(file.exts), Range(ext, iblock, last, NewFlags(offline)))
    ensures ret == 0 ==> file.exts == SetTo(old(file.exts), Range(ext, iblock, last, NewFlags(offline)))
    ensures ret == 0 ==> All(d, file) + Lost(old(file.exts), Range(ext, iblock, last, NewFlags(offline))) == old(All(d, file))
    ensures ret != 0 ==> file.exts == old(file.exts) && All(d, file) == old(All(d, file))
  {
    hide Mapped, At, Valid, Total, Run, FileOK, Placed, HeldOf, Blocks, Indexes, SumLen, AllStorable, BagOf, Replaced, Lost, Settable, SetTo;
    var start := Front(ext, iblock);
    var x := Range(ext, iblock, last, NewFlags(offline));
    var tr := Part(ext, start, x.len);
    ghost var s0, h0 := file.exts, d.Held();
    HasLength(s0, ext);
    PartFits(s0, ext, x, h0, d.first, d.last);
    FlagsFit(offline, x);
    if tr.blk != 0 {
      MappedRest(tr);
      ret := d.FreeData(d.freed, tr.blk, tr.len, false);
      if ret < 0 {
        return;
      }
    } else {
      EmptyBag(tr);
    }
    ret := SetRange(file, x, true);
    EmptyBag(x);
    BagTruncates(h0, d.Held(), Mapped(s0), Mapped(file.exts), BagOf(tr), Lost(s0, x));
    PlacedPart(h0 + Mapped(s0), All(d, file), d.first, d.last);
  }

  lemma HasLength(s: set<Ext>, e: Ext)
    requires FileOK(s) && e in s
    ensures e.len > 0
  {
  }

  lemma FlagsFit(offline: bool, x: Ext)
    requires x.blk == 0 && x.flags == NewFlags(offline)
    ensures DataExt(x) || Zero(x)
  {
  }

  /** The part of an extent can be set, and its blocks can be freed. */
  lemma PartFits(s: set<Ext>, e: Ext, x: Ext, held: multiset<nat>, first: nat, last: nat)
    requires FileOK(s) && e in s && x.len > 0 && Inside(x, e) && Placed(held + Mapped(s), first, last)
    ensures Valid(s) && Settable(s, x) && Replaced(s, x) == BagOf(Part(e, x.start, x.len))
    ensures Placed(held + BagOf(Part(e, x.start, x.len)), first, last)
  {
    hide Mapped, BagOf, Placed, Valid;
    InsideSet(s, e, x);
    CutMapped(s, e, x.start, x.len);
    var part := BagOf(Part(e, x.start, x.len));
    assert held + part <= held + Mapped(s);
    PlacedPart(held + Mapped(s), held + part, first, last);
  }

  lemma BagTruncates(h0: multiset<nat>, h1: multiset<nat>, m0: multiset<nat>, m1: multiset<nat>, part: multiset<nat>, lost: multiset<nat>)
    requires h1 == h0 + part && m1 + part + lost == m0 + multiset{}
    ensures h1 + m1 + lost == h0 + m0 && h1 + m1 <= h0 + m0
  {
    assert h1 + m1 + lost == h0 + (m1 + part + lost);
  }

  // ---- what is lost

  /** An extent that is cleared from `from` on is as long as the number of the first block of the extent after it. */
  ghost predicate Clash(s: set<Ext>, from: nat, e: Ext, r: Ext) {
    e in s && r in s && from < End(e) == r.start && r.flags == 0 && r.blk == End(e) - Front(e, from)
  }

  ghost predicate Clashes(s: set<Ext>, from: nat, to: nat) {
    exists e, r :: Clash(s, from, e, r) && End(e) <= to
  }

  /** A cleared range loses a neighbour exactly when there is a clash. */
  lemma LostIsClash(s: set<Ext>, e: Ext, x: Ext)
    requires FileOK(s) && e in s && Inside(x, e) && x.len > 0 && Zero(x)
    ensures Settable(s, x)
    ensures Lost(s, x) != multiset{} <==> exists r :: r in s && End(e) == End(x) == r.start && r.flags == 0 && r.blk == x.len
    ensures forall r :: r in s && End(e) == End(x) == r.start && r.flags == 0 && r.blk == x.len ==> Lost(s, x) == BagOf(r)
  {
    hide BagOf, SetBase;
    InsideSet(s, e, x);
    SetNeighbours(s, x);
    ClearsRight(s, x);
    var n := SetRight(s, x);
    if MergesRight(x, n) {
      Lengths(s, n.value, n.value);
      MappedBag(n.value);
      assert n.value in s && End(e) == End(x) == n.value.start && n.value.flags == 0 && n.value.blk == x.len;
    }
    forall r | r in s && End(e) == End(x) == r.start && r.flags == 0 && r.blk == x.len ensures Lost(s, x) == BagOf(r) != multiset{} {
      NextCovers(s, End(x), r);
      assert n == Some(r);
      MappedBag(r);
    }
  }

  // ---- one batch

  function TruncatedAt(was: Option<Val>, offline: bool): Option<Val> {
    if was.None? then None else if offline then Some(Val(0, OFFLINE)) else None
  }

  /** The blocks of a range are unmapped, and offline if they existed and are released; all others are as they were. */
  ghost predicate Truncated(s: set<Ext>, s': set<Ext>, from: nat, to: nat, offline: bool) {
    forall b: nat :: At(s', b) == if from <= b < to then TruncatedAt(At(s, b), offline) else At(s, b)
  }

  /** The extents that end after a block are the same. */
  ghost predicate SameTail(s: set<Ext>, s': set<Ext>, iblock: nat) {
    forall e :: End(e) > iblock ==> (e in s <==> e in s')
  }

  /** No extent reaches over a block where an earlier one ended. */
  ghost predicate Boundary(s: set<Ext>, from: nat, iblock: nat) {
    iblock > from ==> forall e :: e in s ==> !(e.start < iblock < End(e))
  }

  /** Where a truncation from one block stands when it has come to another. */
  ghost predicate Stands(s0: set<Ext>, s: set<Ext>, from: nat, iblock: nat, last: nat, offline: bool, lost: multiset<nat>) {
    && (lost == multiset{} ==> Truncated(s0, s, from, Min(iblock, last + 1), offline))
    && (offline ==> lost == multiset{})
    && (!offline && lost == multiset{} && iblock <= last ==> SameTail(s0, s, iblock) && Boundary(s0, from, iblock))
    && (!offline ==> (lost != multiset{} <==> Clashes(s0, from, iblock)))
  }

  lemma StandsAtFirst(s: set<Ext>, from: nat, last: nat, offline: bool)
    requires from <= last
    ensures Stands(s, s, from, from, last, offline, multiset{})
  {
    hide At;
  }

  /** Up to the next extent nothing has to be done. */
  lemma TruncatedGap(s0: set<Ext>, s: set<Ext>, from: nat, iblock: nat, to: nat, offline: bool)
    requires FileOK(s) && Truncated(s0, s, from, iblock, offline) && from <= iblock <= to && Hole(s, iblock, to - iblock)
    ensures Truncated(s0, s, from, to, offline)
  {
    hide At, FileOK;
    forall b: nat ensures At(s, b) == if from <= b < to then TruncatedAt(At(s0, b), offline) else At(s0, b) {
      if iblock <= b < to { assert At(s, b) == None; }
      assert At(s, b) == if from <= b < iblock then TruncatedAt(At(s0, b), offline) else At(s0, b);
    }
  }

  lemma TruncatedStep(s0: set<Ext>, s: set<Ext>, s': set<Ext>, from: nat, x: Ext, offline: bool, e: Ext)
    requires FileOK(s) && Truncated(s0, s, from, x.start, offline) && from <= x.start && e in s && Inside(x, e)
    requires x.blk == 0 && x.flags == NewFlags(offline) && forall b :: At(s', b) == SetWant(s, x, b)
    ensures Truncated(s0, s', from, End(x), offline)
  {
    hide At;
    forall b: nat ensures At(s', b) == if from <= b < End(x) then TruncatedAt(At(s0, b), offline) else At(s0, b) {
      assert At(s', b) == SetWant(s, x, b);
      assert At(s, b) == if from <= b < x.start then TruncatedAt(At(s0, b), offline) else At(s0, b);
      if Contains(x, b) { AtOne(s, e, b); }
    }
  }

  /** An extent that is offline already is passed over. */
  lemma TruncatedSkip(s0: set<Ext>, s: set<Ext>, from: nat, iblock: nat, to: nat, e: Ext)
    requires FileOK(s) && Truncated(s0, s, from, iblock, true) && from <= iblock <= to <= End(e)
    requires e in s && e.blk == 0 && e.flags == OFFLINE && e.start <= iblock
    ensures Truncated(s0, s, from, to, true)
  {
    hide At;
    forall b: nat ensures At(s, b) == if from <= b < to then TruncatedAt(At(s0, b), true) else At(s0, b) {
      assert At(s, b) == if from <= b < iblock then TruncatedAt(At(s0, b), true) else At(s0, b);
      if iblock <= b < to { AtOne(s, e, b); }
    }
  }

  lemma CutIs(s: set<Ext>, e: Ext, x: Ext)
    requires FileOK(s) && e in s && Inside(x, e) && x.len > 0 && Zero(x) && Settable(s, x) && Lost(s, x) == multiset{}
    ensures SetTo(s, x) == Cut(s, e, x.start, x.len)
  {
    hide BagOf, Valid, Cut;
    FileIs(s);
    InsideSet(s, e, x);
    ClearIsClean(s, x);
  }

  /** A step of a truncation that does not release. */
  lemma ClearStands(s0: set<Ext>, s: set<Ext>, from: nat, iblock: nat, last: nat, e: Ext)
    requires FileOK(s0) && FileOK(s) && from <= iblock <= last && e in s && Next(s, iblock) == Some(e) && e.start <= last
    requires iblock < End(e) && Stands(s0, s, from, iblock, last, false, multiset{})
    ensures var x := Range(e, iblock, last, 0);
            && Settable(s, x) && x.len > 0 && Stands(s0, SetTo(s, x), from, End(x), last, false, Lost(s, x))
  {
    hide At, Truncated, BagOf, SetTo, Lost, Settable;
    var x := Range(e, iblock, last, 0);
    HasLength(s, e);
    FileIs(s);
    InsideSet(s, e, x);
    SetFile(s, x);
    LostIsClash(s, e, x);
    EndsLater(s0, s, from, iblock, last, e);
    NewClash(s0, s, from, iblock, last, e, x);
    if Lost(s, x) == multiset{} {
      GapBefore(s, iblock, e);
      TruncatedGap(s0, s, from, iblock, x.start, false);
      TruncatedStep(s0, s, SetTo(s, x), from, x, false, e);
      CutIs(s, e, x);
      if End(x) <= last { TailStays(s0, s, from, e, x); }
    }
  }

  lemma GapBefore(s: set<Ext>, iblock: nat, e: Ext)
    requires Valid(s) && Next(s, iblock) == Some(e)
    ensures Hole(s, iblock, Front(e, iblock) - iblock)
  {
    hide At;
    if e.start > iblock { NextHole(s, iblock, e.start - iblock); }
  }

  /** The extent that is found is one of the first ones, and it is found as it was. */
  lemma EndsLater(s0: set<Ext>, s: set<Ext>, from: nat, iblock: nat, last: nat, e: Ext)
    requires FileOK(s0) && Stands(s0, s, from, iblock, last, false, multiset{}) && iblock <= last && from <= iblock
    requires e in s && iblock < End(e)
    ensures e in s0 && Front(e, iblock) == Front(e, from)
  {
    hide Truncated, Clashes;
  }

  /** There is a clash up to the end of the range exactly when the range loses its neighbour. */
  lemma NewClash(s0: set<Ext>, s: set<Ext>, from: nat, iblock: nat, last: nat, e: Ext, x: Ext)
    requires FileOK(s0) && FileOK(s) && from <= iblock <= last && Next(s, iblock) == Some(e) && e in s && iblock < End(e) && e.start <= last
    requires Stands(s0, s, from, iblock, last, false, multiset{}) && x == Range(e, iblock, last, 0)
    requires e in s0 && Front(e, iblock) == Front(e, from)
    ensures Clashes(s0, from, End(x)) <==> exists r :: r in s && End(e) == End(x) == r.start && r.flags == 0 && r.blk == x.len
  {
    hide Truncated;
    if r :| r in s && End(e) == End(x) == r.start && r.flags == 0 && r.blk == x.len {
      HasLength(s, r);
      assert r in s0;
      assert Clash(s0, from, e, r);
    }
    if Clashes(s0, from, End(x)) {
      var f, r :| Clash(s0, from, f, r) && End(f) <= End(x);
      assert !(Clash(s0, from, f, r) && End(f) <= iblock);
      assert f in s && IsNext(s, iblock, Some(e));
      FirstIs(s, iblock, e, f);
      HasLength(s0, r);
      assert r in s;
    }
  }

  /** Nothing else ends where the next extent does or before. */
  lemma FirstIs(s: set<Ext>, iblock: nat, e: Ext, f: Ext)
    requires FileOK(s) && IsNext(s, iblock, Some(e)) && f in s && iblock < End(f) <= End(e)
    ensures f == e
  {
    assert f == e || !Overlap(e, f);
  }

  lemma TailStays(s0: set<Ext>, s: set<Ext>, from: nat, e: Ext, x: Ext)
    requires FileOK(s0) && FileOK(s) && e in s && e in s0 && Inside(x, e) && End(x) == End(e) && x.len > 0 && from <= x.start
    requires forall f :: End(f) > End(e) ==> (f in s0 <==> f in s)
    ensures SameTail(s0, Cut(s, e, x.start, x.len), End(x)) && Boundary(s0, from, End(x))
  {
    forall f | f in s0 ensures !(f.start < End(x) < End(f)) {
      if f != e { assert !Overlap(e, f); }
    }
  }

  /** A step of a release: nothing is ever lost. */
  lemma ReleaseStands(s0: set<Ext>, s: set<Ext>, from: nat, iblock: nat, last: nat, e: Ext)
    requires FileOK(s) && from <= iblock <= last && e in s && Next(s, iblock) == Some(e) && e.start <= last
    requires iblock < End(e) && Stands(s0, s, from, iblock, last, true, multiset{})
    ensures var x := Range(e, iblock, last, OFFLINE);
            && Settable(s, x) && x.len > 0 && Lost(s, x) == multiset{}
            && Stands(s0, SetTo(s, x), from, End(x), last, true, multiset{})
  {
    hide At, Truncated, BagOf, SetTo, Lost, Settable;
    var x := Range(e, iblock, last, OFFLINE);
    HasLength(s, e);
    FileIs(s);
    InsideSet(s, e, x);
    SetFile(s, x);
    GapBefore(s, iblock, e);
    TruncatedGap(s0, s, from, iblock, x.start, true);
    TruncatedStep(s0, s, SetTo(s, x), from, x, true, e);
  }

  lemma SkipStands(s0: set<Ext>, s: set<Ext>, from: nat, iblock: nat, last: nat, e: Ext)
    requires FileOK(s) && from <= iblock <= last && e in s && Next(s, iblock) == Some(e) && e.start <= last
    requires iblock < End(e) && Stands(s0, s, from, iblock, last, true, multiset{}) && e.blk == 0
    ensures Stands(s0, s, from, End(e), last, true, multiset{})
  {
    hide At, Truncated;
    FileIs(s);
    GapBefore(s, iblock, e);
    TruncatedGap(s0, s, from, iblock, Front(e, iblock), true);
    TruncatedSkip(s0, s, from, Front(e, iblock), Min(End(e), last + 1), e);
  }

  /** When no extent is left in the range the truncation is at its end. */
  lemma EndStands(s0: set<Ext>, s: set<Ext>, from: nat, iblock: nat, last: nat, offline: bool, lost: multiset<nat>)
    requires FileOK(s) && FileOK(s0) && from <= iblock <= last && Stands(s0, s, from, iblock, last, offline, lost)
    requires Next(s, iblock).Some? ==> Next(s, iblock).value.start > last
    ensures Stands(s0, s, from, last + 1, last, offline, lost)
  {
    hide At, Truncated;
    FileIs(s);
    NextHole(s, iblock, last + 1 - iblock);
    if lost == multiset{} {
      TruncatedGap(s0, s, from, iblock, last + 1, offline);
      if !offline { NoMoreClash(s0, s, from, iblock, last); }
    } else {
      MoreClashes(s0, from, iblock, last + 1);
    }
  }

  lemma MoreClashes(s: set<Ext>, from: nat, to: nat, to': nat)
    requires to <= to' && Clashes(s, from, to)
    ensures Clashes(s, from, to')
  {
    var e, r :| Clash(s, from, e, r) && End(e) <= to;
    assert Clash(s, from, e, r) && End(e) <= to';
  }

  lemma NoMoreClash(s0: set<Ext>, s: set<Ext>, from: nat, iblock: nat, last: nat)
    requires FileOK(s) && FileOK(s0) && from <= iblock <= last && Stands(s0, s, from, iblock, last, false, multiset{})
    requires Next(s, iblock).Some? ==> Next(s, iblock).value.start > last
    ensures !Clashes(s0, from, last + 1)
  {
    hide Truncated;
    forall e, r | Clash(s0, from, e, r) ensures End(e) > last + 1 {
      assert !(Clash(s0, from, e, r) && End(e) <= iblock);
      HasLength(s0, e);
      assert e in s;
      assert IsNext(s, iblock, Next(s, iblock));
      HasLength(s, Next(s, iblock).value);
    }
  }

  /**
    Unmaps the extents of a range, a few at a time.  It returns an error, zero at
    the end or the block to go on with.  What is lost is lost exactly when extents
    clash: all other blocks that were mapped are freed.
  */
  method TruncateExtents(d: DataInfo, file: Store, from: nat, last: nat, offline: bool)
    returns (ret: int, ghost to: nat, ghost lost: multiset<nat>)
    requires OK(d, file) && from <= last
    modifies d.freed, file
    ensures OK(d, file) && All(d, file) + lost == old(All(d, file))
    ensures from <= to && Stands(old(file.exts), file.exts, from, to, last, offline, lost)
    ensures ret == 0 ==> to > last
    ensures ret > 0 ==> from < to == ret <= last
    ensures ret < 0 ==> ret == EIO
  {
    hide Mapped, At, Valid, Total, Run, FileOK, Placed, HeldOf, Blocks, Indexes, SumLen, AllStorable, BagOf, Replaced, Lost, Settable, SetTo, Stands, Next, Truncated;
    var iblock, i := from, 0;
    lost := multiset{};
    ret := 0;
    StandsAtFirst(file.exts, from, last, offline);
    NothingLost(All(d, file));
    while iblock <= last
      invariant OK(d, file) && All(d, file) + lost == old(All(d, file)) && ret == 0 && from <= iblock
      invariant Stands(old(file.exts), file.exts, from, iblock, last, offline, lost) && (i > 0 ==> iblock > from) && FileOK(old(file.exts))
      decreases last + 1 - iblock
    {
      to := iblock;
      if i == EXTENTS_PER_HOLD {
        return iblock, to, lost;
      }
      i := i + 1;
      FileIs(file.exts);
      var found;
      ret, found := file.OpNext(iblock, false);
      if ret == EIO {
        return;
      }
      NextIs(file.exts, iblock);
      if found.None? || found.value.start > last {
        EndStands(old(file.exts), file.exts, from, iblock, last, offline, lost);
        return 0, last + 1, lost;
      }
      var ext := found.value;
      OffIs(file.exts, old(file.exts), from, iblock, last, offline, lost);
      if offline && IsOffline(ext.flags) && ext.blk == 0 {
        SkipStands(old(file.exts), file.exts, from, iblock, last, ext);
        iblock := End(ext);
        continue;
      }
      ghost var s, all := file.exts, All(d, file);
      var x := Range(ext, iblock, last, NewFlags(offline));
      ret := TruncateOne(d, file, ext, iblock, last, offline);
      if ret < 0 {
        return;
      }
      ghost var more := Lost(s, x);
      StepStands(old(file.exts), s, from, iblock, last, ext, offline, lost);
      BagLoses(old(All(d, file)), all, All(d, file), lost, more);
      lost := lost + more;
      iblock := iblock + (x.start - iblock) + x.len;
    }
    to := iblock;
  }

  lemma NothingLost(m: multiset<nat>)
    ensures m + multiset{} == m
  {
  }

  lemma BagLoses(first: multiset<nat>, was: multiset<nat>, now: multiset<nat>, lost: multiset<nat>, more: multiset<nat>)
    requires was + lost == first && now + more == was
    ensures now + (lost + more) == first
  {
    assert now + (lost + more) == (now + more) + lost;
  }

  lemma OffIs(s: set<Ext>, s0: set<Ext>, from: nat, iblock: nat, last: nat, offline: bool, lost: multiset<nat>)
    requires Stands(s0, s, from, iblock, last, offline, lost)
    ensures offline ==> lost == multiset{}
  {
    hide Truncated;
  }

  /** A step of either kind, whatever was lost before. */
  lemma StepStands(s0: set<Ext>, s: set<Ext>, from: nat, iblock: nat, last: nat, e: Ext, offline: bool, lost: multiset<nat>)
    requires FileOK(s0) && FileOK(s) && from <= iblock <= last && e in s && Next(s, iblock) == Some(e) && e.start <= last
    requires iblock < End(e) && Stands(s0, s, from, iblock, last, offline, lost)
    ensures var x := Range(e, iblock, last, NewFlags(offline));
            && Settable(s, x) && x.len > 0 && Stands(s0, SetTo(s, x), from, End(x), last, offline, lost + Lost(s, x))
  {
    hide At, Truncated, BagOf, SetTo, Lost, Settable;
    var x := Range(e, iblock, last, NewFlags(offline));
    if offline {
      ReleaseStands(s0, s, from, iblock, last, e);
    } else if lost == multiset{} {
      ClearStands(s0, s, from, iblock, last, e);
      assert lost + Lost(s, x) == Lost(s, x);
    } else {
      HasLength(s, e);
      FileIs(s);
      InsideSet(s, e, x);
      MoreClashes(s0, from, iblock, End(x));
      assert lost + Lost(s, x) != multiset{} by { NotEmpty(lost, Lost(s, x)); }
    }
  }

  lemma NotEmpty(a: multiset<nat>, b: multiset<nat>)
    requires a != multiset{}
    ensures a + b != multiset{}
  {
    var x :| x in a;
    assert x in a + b;
  }

  // ---- all batches

  const BLOCK_SM_MAX: nat := 0xF_FFFF_FFFF_FFFF

  lemma TruncatedOn(s0: set<Ext>, s1: set<Ext>, s2: set<Ext>, from: nat, mid: nat, to: nat, offline: bool)
    requires Truncated(s0, s1, from, mid, offline) && Truncated(s1, s2, mid, to, offline) && from <= mid <= to
    ensures Truncated(s0, s2, from, to, offline)
  {
    hide At;
    forall b: nat ensures At(s2, b) == if from <= b < to then TruncatedAt(At(s0, b), offline) else At(s0, b) {
      assert At(s1, b) == if from <= b < mid then TruncatedAt(At(s0, b), offline) else At(s0, b);
      assert At(s2, b) == if mid <= b < to then TruncatedAt(At(s1, b), offline) else At(s1, b);
    }
  }

  /** The clashes of a range are those of its two parts. */
  lemma ClashesOn(s0: set<Ext>, s1: set<Ext>, from: nat, mid: nat, to: nat)
    requires FileOK(s0) && FileOK(s1) && SameTail(s0, s1, mid) && Boundary(s0, from, mid) && from <= mid <= to && !Clashes(s0, from, mid)
    ensures Clashes(s0, from, to) <==> Clashes(s1, mid, to)
  {
    if Clashes(s0, from, to) {
      var e, r :| Clash(s0, from, e, r) && End(e) <= to;
      assert !(Clash(s0, from, e, r) && End(e) <= mid);
      HasLength(s0, r);
      assert Clash(s1, mid, e, r) && End(e) <= to;
    }
    if Clashes(s1, mid, to) {
      var e, r :| Clash(s1, mid, e, r) && End(e) <= to;
      HasLength(s1, r);
      assert Clash(s0, from, e, r) && End(e) <= to;
    }
  }

  lemma TailOn(s0: set<Ext>, s1: set<Ext>, s2: set<Ext>, from: nat, mid: nat, to: nat)
    requires SameTail(s0, s1, mid) && Boundary(s0, from, mid) && SameTail(s1, s2, to) && Boundary(s1, mid, to) && from <= mid <= to
    ensures SameTail(s0, s2, to) && Boundary(s0, from, to)
  {
  }

  /** Two batches after each other are one. */
  lemma StandsOn(s0: set<Ext>, s1: set<Ext>, s2: set<Ext>, from: nat, mid: nat, to: nat, last: nat, offline: bool, lost: multiset<nat>, more: multiset<nat>)
    requires FileOK(s0) && FileOK(s1) && from <= mid <= last && mid <= to
    requires Stands(s0, s1, from, mid, last, offline, lost) && Stands(s1, s2, mid, to, last, offline, more)
    ensures Stands(s0, s2, from, to, last, offline, lost + more)
  {
    hide Truncated, SameTail, Boundary, Clashes;
    if lost == multiset{} {
      assert lost + more == more;
      if more == multiset{} { TruncatedOn(s0, s1, s2, from, mid, Min(to, last + 1), offline); }
      if !offline {
        ClashesOn(s0, s1, from, mid, to);
        if more == multiset{} && to <= last { TailOn(s0, s1, s2, from, mid, to); }
      }
    } else {
      NotEmpty(lost, more);
      MoreClashes(s0, from, mid, to);
    }
  }

  /** Truncates or releases a range in as many transactions as it takes. */
  method TruncateItems(d: DataInfo, file: Store, from: nat, end: nat, offline: bool)
    returns (ret: int, ghost to: nat, ghost lost: multiset<nat>)
    requires OK(d, file)
    modifies d.freed, file
    ensures OK(d, file) && All(d, file) + lost == old(All(d, file)) && ret in {0, EIO, EINVAL}
    ensures ret == EINVAL <==> Min(end, BLOCK_SM_MAX) < from
    ensures ret == EINVAL ==> file.exts == old(file.exts) && lost == multiset{}
    ensures ret != EINVAL ==> from <= to && Stands(old(file.exts), file.exts, from, to, Min(end, BLOCK_SM_MAX), offline, lost)
    ensures ret == 0 ==> to > Min(end, BLOCK_SM_MAX)
  {
    hide Mapped, At, Valid, Total, Run, FileOK, Placed, HeldOf, Blocks, Indexes, SumLen, AllStorable, Stands;
    var iblock, last := from, Min(end, BLOCK_SM_MAX);
    lost, to, ret := multiset{}, from, 0;
    NothingLost(All(d, file));
    if last < from {
      return EINVAL, to, lost;
    }
    StandsAtFirst(file.exts, from, last, offline);
    while iblock <= last
      invariant OK(d, file) && All(d, file) + lost == old(All(d, file)) && ret == 0 && from <= iblock && to == iblock
      invariant Stands(old(file.exts), file.exts, from, iblock, last, offline, lost) && FileOK(old(file.exts))
      decreases last + 1 - iblock
    {
      if * {
        // no transaction could be held
        return EIO, to, lost;
      }
      ghost var s, all := file.exts, All(d, file);
      ghost var mid, more;
      ret, mid, more := TruncateExtents(d, file, iblock, last, offline);
      StandsOn(old(file.exts), s, file.exts, from, iblock, mid, last, offline, lost, more);
      BagLoses(old(All(d, file)), all, All(d, file), lost, more);
      lost, to := lost + more, mid;
      if ret <= 0 {
        return;
      }
      iblock, ret := ret, 0;
    }
  }

  /** A clash loses blocks as soon as the first of the extents is cleared. */
  lemma ClashLoses(s: set<Ext>, e: Ext, r: Ext)
    requires FileOK(s) && Clash(s, e.start, e, r)
    ensures var x := Ext(e.start, e.len, 0, 0);
            Settable(s, x) && Lost(s, x) == BagOf(r) != multiset{} && Clashes(s, e.start, End(e))
  {
    hide Lost, Settable, Valid;
    HasLength(s, e);
    FileIs(s);
    var x := Ext(e.start, e.len, 0, 0);
    InsideSet(s, e, x);
    LostIsClash(s, e, x);
  }

  /**
    A file whose extent of `len` blocks is followed by one that is mapped to the
    device block of that number.  All of them are data blocks of the device, each
    mapped once, and truncating the file loses the last one.
  */
  lemma TruncatingLosesBlock(s: set<Ext>, len: nat, first: nat, last: nat)
    requires FIRST_DATA <= first <= len && 3 * len <= last + 1 && s == {Ext(0, len, 2 * len, 0), Ext(len, 1, len, 0)}
    ensures FileOK(s) && Placed(Mapped(s), first, last)
    ensures Settable(s, Ext(0, len, 0, 0)) && Lost(s, Ext(0, len, 0, 0)) == multiset{len} && Clashes(s, 0, len)
  {
    hide Lost, Settable, Mapped, BagOf;
    var e, r := Ext(0, len, 2 * len, 0), Ext(len, 1, len, 0);
    assert e in s && r in s && !Overlap(e, r) && !Overlap(r, e);
    assert FileOK(s);
    hide Valid;
    ClashLoses(s, e, r);
    OneBlock(r);
    MappedWithout(s, e);
    assert s - {e} == {r};
    MappedWithout({r}, r);
    assert {r} - {r} == {};
    NothingMapped();
    assert Mapped(s) == BagOf(e) + multiset{len};
    forall b: nat ensures Mapped(s)[b] <= 1 && (b in Mapped(s) ==> first <= b <= last) { InBag(e, b); }
  }

  lemma NothingMapped()
    ensures Mapped({}) == multiset{}
  {
  }

  lemma OneBlock(r: Ext)
    requires r.blk != 0 && r.len == 1
    ensures BagOf(r) == multiset{r.blk}
  {
    assert Run(r.blk, 1) == {r.blk} by { forall b: nat ensures b in Run(r.blk, 1) <==> b == r.blk { RunMember(r.blk, 1, b); } }
  }

  lemma InBag(e: Ext, b: nat)
    requires e.blk != 0
    ensures BagOf(e)[b] == if e.blk <= b < e.blk + e.len then 1 else 0
  {
    RunMember(e.blk, e.len, b);
  }
}
