/** The blocks that extents cover, as sets, and how many they are. */
module ExtentBlocks {
  import opened Wrappers
  import opened Extents
  import opened ExtentOps

  /** The numbers from `start` on. */
  function Run(start: nat, len: nat): (r: set<nat>)
    ensures forall b :: b in r <==> start <= b < start + len
    ensures |r| == len
  {
    if len == 0 then {} else Run(start, len - 1) + {start + len - 1}
  }

  lemma RunIs(start: nat, i: nat)
    ensures Run(start, i + 1) == Run(start, i) + {start + i} && start + i !in Run(start, i) && Run(start, 0) == {}
  {
  }

  lemma RunMember(start: nat, len: nat, b: nat)
    ensures b in Run(start, len) <==> start <= b < start + len
  {
  }

  ghost function SumLen(s: set<Ext>): nat {
    if s == {} then 0 else
      var e :| e in s;
      e.len + SumLen(s - {e})
  }

  lemma {:induction false} SumLenWithout(s: set<Ext>, e: Ext)
    requires e in s
    ensures SumLen(s) == e.len + SumLen(s - {e})
    decreases |s|
  {
    var x :| x in s && SumLen(s) == x.len + SumLen(s - {x});
    if x != e {
      SumLenWithout(s - {x}, e);
      SumLenWithout(s - {e}, x);
      assert s - {x} - {e} == s - {e} - {x};
    }
  }

  ghost function Blocks(s: set<Ext>): set<nat> {
    if s == {} then {} else
      var e :| e in s;
      Run(e.start, e.len) + Blocks(s - {e})
  }

  lemma {:induction false} BlocksHas(s: set<Ext>, b: nat)
    ensures b in Blocks(s) <==> exists e :: e in s && Contains(e, b)
    decreases |s|
  {
    hide Run;
    if s != {} {
      var e :| e in s && Blocks(s) == Run(e.start, e.len) + Blocks(s - {e});
      BlocksHas(s - {e}, b);
      RunMember(e.start, e.len, b);
      if x :| x in s && Contains(x, b) {
        if x != e { assert x in s - {e}; }
      }
    }
  }

  lemma BlocksAt(s: set<Ext>, b: nat)
    ensures b in Blocks(s) <==> At(s, b).Some?
  {
    hide Blocks;
    BlocksHas(s, b);
  }

  /** Extents that are apart cover as many blocks as they are long. */
  lemma {:induction false} BlocksCount(s: set<Ext>)
    requires Valid(s)
    ensures |Blocks(s)| == SumLen(s)
    decreases |s|
  {
    hide Run;
    if s != {} {
      var e :| e in s && Blocks(s) == Run(e.start, e.len) + Blocks(s - {e});
      SumLenWithout(s, e);
      DropAt(s, e, 0);
      BlocksCount(s - {e});
      RunCount(e.start, e.len);
      assert Run(e.start, e.len) !! Blocks(s - {e}) by {
        forall b | b in Run(e.start, e.len) ensures b !in Blocks(s - {e}) {
          RunMember(e.start, e.len, b);
          BlocksHas(s - {e}, b);
        }
      }
      assert |Run(e.start, e.len) + Blocks(s - {e})| == |Run(e.start, e.len)| + |Blocks(s - {e})|;
    }
  }

  lemma RunCount(start: nat, len: nat)
    ensures |Run(start, len)| == len
  {
  }

  lemma {:induction false} SubsetCount(a: set<nat>, b: set<nat>)
    requires a <= b
    ensures |a| <= |b|
    decreases |a|
  {
    if x :| x in a { SubsetCount(a - {x}, b - {x}); }
  }

  /** Extents below an end are no longer than that together. */
  lemma SumBelow(s: set<Ext>, end: nat)
    requires Valid(s) && forall e :: e in s ==> End(e) <= end
    ensures SumLen(s) <= end
  {
    hide Run, Blocks, SumLen, Valid;
    forall b | b in Blocks(s) ensures b in Run(0, end) {
      BlocksHas(s, b);
      RunMember(0, end, b);
    }
    BlocksCount(s);
    SubsetCount(Blocks(s), Run(0, end));
    RunCount(0, end);
  }

  /** Extents without mappings. */
  ghost predicate Plain(s: set<Ext>) {
    forall e :: e in s ==> e.blk == 0 && e.flags == 0
  }

  lemma BlocksInserted(s: set<Ext>, x: Ext)
    requires Valid(s) && Fresh(s, x) && Plain(s + {x})
    ensures Valid(Inserted(s, x)) && Blocks(Inserted(s, x)) == Blocks(s) + Run(x.start, x.len)
    ensures Blocks(s) !! Run(x.start, x.len)
  {
    hide Run, Blocks, Valid, Inserted;
    InsertedIsValid(s, x);
    assert x in s + {x};
    assert InsertClean(s, x) by { FlagsKeepInsertClean(s, x); }
    forall b: nat
      ensures b in Blocks(Inserted(s, x)) <==> b in Blocks(s) + Run(x.start, x.len)
      ensures !(b in Blocks(s) && b in Run(x.start, x.len))
    {
      BlocksAt(Inserted(s, x), b);
      BlocksHas(s, b);
      BlocksAt(s, b);
      RunMember(x.start, x.len, b);
      InsertedAt(s, x, b);
    }
  }

  lemma BlocksAllocated(s: set<Ext>, found: Ext, count: nat)
    requires Valid(s) && found in s
    ensures var p := Piece(found, count);
            Run(p.start, p.len) <= Blocks(s) && Blocks(Allocated(s, found, count)) == Blocks(s) - Run(p.start, p.len)
  {
    hide Run, Blocks, Valid, Allocated;
    var p := Piece(found, count);
    forall b: nat
      ensures b in Blocks(Allocated(s, found, count)) <==> b in Blocks(s) - Run(p.start, p.len)
      ensures b in Run(p.start, p.len) ==> b in Blocks(s)
    {
      BlocksAt(s, b);
      BlocksAt(Allocated(s, found, count), b);
      RunMember(p.start, p.len, b);
      AllocRefines(s, found, count, b);
    }
  }

  /** A run is apart from extents exactly when it has none of their blocks. */
  lemma FreshBlocks(s: set<Ext>, x: Ext)
    requires x.len > 0 && Valid(s)
    ensures Fresh(s, x) <==> Blocks(s) !! Run(x.start, x.len)
  {
    hide Run, Blocks;
    if Fresh(s, x) {
      forall b | b in Run(x.start, x.len) ensures b !in Blocks(s) {
        RunMember(x.start, x.len, b);
        BlocksHas(s, b);
      }
    } else {
      var e :| e in s && Overlap(x, e);
      var b := if x.start < e.start then e.start else x.start;
      RunMember(x.start, x.len, b);
      BlocksHas(s, b);
      assert Contains(e, b);
    }
  }
}
