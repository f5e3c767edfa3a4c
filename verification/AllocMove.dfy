/** Moving free blocks from one allocator to another. */
module AllocMove {
  import opened Errno
  import opened Wrappers
  import opened Extents
  import opened ExtentOps
  import opened ExtentStore
  import opened ExtentBlocks
  import opened AllocIndex

  /** A piece of a largest extent left a root. */
  lemma TakenBlocks(s: set<Ext>, s': set<Ext>, ext: Ext, count: nat)
    requires AllStorable(s) && count > 0
    requires exists found :: IsLargest(s, found) && ext == Piece(found, count) && s' == Allocated(s, found, count)
    ensures Storable(ext) && ext.len <= count && Run(ext.start, ext.len) <= Blocks(s) && Blocks(s') == Blocks(s) - Run(ext.start, ext.len)
  {
    hide Run, Blocks, Allocated;
    var found :| IsLargest(s, found) && ext == Piece(found, count) && s' == Allocated(s, found, count);
    BlocksAllocated(s, found, count);
  }

  lemma PutBlocks(s: set<Ext>, x: Ext)
    requires AllStorable(s) && Storable(x) && Fresh(s, x)
    ensures Blocks(Inserted(s, x)) == Blocks(s) + Run(x.start, x.len) && Blocks(s) !! Run(x.start, x.len)
  {
    hide Run, Blocks, Inserted;
    BlocksInserted(s, x);
  }

  lemma ApartIsFresh(s: set<Ext>, x: Ext)
    requires AllStorable(s) && Storable(x)
    ensures Fresh(s, x) <==> Blocks(s) !! Run(x.start, x.len)
  {
    hide Run, Blocks;
    FreshBlocks(s, x);
  }

  lemma CountsBlocks(r: Root)
    requires r.Valid()
    ensures r.totalLen == |Blocks(r.exts)|
  {
    hide Blocks, SumLen, Indexes;
    BlocksCount(r.exts);
  }

  lemma Disjoint(a: set<nat>, b: set<nat>)
    requires a !! b
    ensures |a + b| == |a| + |b|
  {
  }

  /** Takes blocks from one root and puts them to another, or back where they came from. */
  method MoveOne(dst: Root, src: Root, count: nat) returns (ret: int, len: nat)
    requires dst.Valid() && src.Valid() && Blocks(dst.exts) !! Blocks(src.exts) && count > 0
    modifies dst, src
    ensures dst.Valid() && src.Valid() && ret in {0, ENOENT, EIO} && Blocks(dst.exts) !! Blocks(src.exts)
    ensures Blocks(dst.exts) + Blocks(src.exts) == old(Blocks(dst.exts) + Blocks(src.exts))
    ensures Blocks(dst.exts) >= old(Blocks(dst.exts)) && (ret != 0 ==> Blocks(dst.exts) == old(Blocks(dst.exts)))
    ensures ret == ENOENT ==> src.exts == {}
    ensures ret == 0 ==> 0 < len <= count && |Blocks(dst.exts)| == |old(Blocks(dst.exts))| + len
    ensures ret == 0 ==> |Blocks(src.exts)| + len == |old(Blocks(src.exts))|
  {
    hide Blocks, Run, Extents.Valid, Indexes, SumLen, Inserted, Allocated, Fresh, AllStorable, Storable;
    ghost var d, s := Blocks(dst.exts), Blocks(src.exts);
    ghost var before := src.exts;
    var ext;
    ret, ext := src.AllocExt(count);
    len := ext.len;
    if ret < 0 {
      return;
    }
    TakenBlocks(before, src.exts, ext, count);
    ApartIsFresh(dst.exts, ext);
    ghost var run := Run(ext.start, ext.len);
    ghost var into := dst.exts;
    ret := dst.InsertExt(ext, false);
    if ret < 0 {
      ghost var after := src.exts;
      ApartIsFresh(after, ext);
      var err := src.InsertExt(ext, true);
      PutBlocks(after, ext);
      assert Blocks(src.exts) == s;
      return;
    }
    PutBlocks(into, ext);
    RunCount(ext.start, ext.len);
    StorableLen(ext);
    Disjoint(d, run);
    Disjoint(s - run, run);
    assert s - run + run == s;
  }

  /**
    Moves blocks from one root to another until a total is reached.  Whatever
    happens, no block is lost or in both roots: an extent that cannot be inserted
    goes back to where it came from.
  */
  method Move(dst: Root, src: Root, total: nat) returns (ret: int)
    requires dst.Valid() && src.Valid() && Blocks(dst.exts) !! Blocks(src.exts)
    modifies dst, src
    ensures dst.Valid() && src.Valid() && ret in {0, ENOENT, EIO}
    ensures Blocks(dst.exts) !! Blocks(src.exts)
    ensures Blocks(dst.exts) + Blocks(src.exts) == old(Blocks(dst.exts) + Blocks(src.exts))
    ensures Blocks(dst.exts) >= old(Blocks(dst.exts))
    ensures ret == 0 ==> dst.totalLen == old(dst.totalLen) + total && src.totalLen + total == old(src.totalLen)
    ensures ret == ENOENT ==> src.exts == {} && old(src.totalLen) < total
  {
    hide Blocks, Indexes, SumLen, AllStorable;
    var moved := 0;
    ret := 0;
    CountsBlocks(dst);
    CountsBlocks(src);
    while moved < total
      invariant dst.Valid() && src.Valid() && moved <= total && ret == 0
      invariant Blocks(dst.exts) !! Blocks(src.exts)
      invariant Blocks(dst.exts) + Blocks(src.exts) == old(Blocks(dst.exts) + Blocks(src.exts))
      invariant Blocks(dst.exts) >= old(Blocks(dst.exts))
      invariant |Blocks(dst.exts)| == old(dst.totalLen) + moved && |Blocks(src.exts)| + moved == old(src.totalLen)
    {
      ghost var d, s := Blocks(dst.exts), Blocks(src.exts);
      var len;
      ret, len := MoveOne(dst, src, total - moved);
      if ret < 0 {
        assert Blocks(src.exts) == s;
        if ret == ENOENT { NoBlocks(); }
        return;
      }
      moved := moved + len;
    }
    CountsBlocks(dst);
    CountsBlocks(src);
  }

  lemma StorableLen(e: Ext)
    requires Storable(e)
    ensures e.len > 0
  {
  }

  lemma NoBlocks()
    ensures Blocks({}) == {}
  {
  }
}
