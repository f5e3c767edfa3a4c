/** The device blocks that the extents of a file are mapped to, and what setting a range does to them. */
module FileBlocks {
  import opened Wrappers
  import opened Extents
  import opened ExtentOps
  import opened ExtentBlocks

  function BagOf(e: Ext): multiset<nat> {
    if e.blk == 0 then multiset{} else multiset(Run(e.blk, e.len))
  }

  /** Every device block that is mapped, as often as it is. */
  ghost function Mapped(s: set<Ext>): multiset<nat> {
    if s == {} then multiset{} else
      var e :| e in s;
      BagOf(e) + Mapped(s - {e})
  }

  lemma {:induction false} MappedWithout(s: set<Ext>, e: Ext)
    requires e in s
    ensures Mapped(s) == BagOf(e) + Mapped(s - {e})
    decreases |s|
  {
    hide BagOf;
    var x :| x in s && Mapped(s) == BagOf(x) + Mapped(s - {x});
    if x != e {
      MappedWithout(s - {x}, e);
      MappedWithout(s - {e}, x);
      assert s - {x} - {e} == s - {e} - {x};
    }
  }

  lemma MappedMore(s: set<Ext>, e: Ext)
    requires e !in s
    ensures Mapped(s + {e}) == BagOf(e) + Mapped(s)
  {
    hide BagOf, Mapped;
    MappedWithout(s + {e}, e);
    assert s + {e} - {e} == s;
  }

  // ---- runs of blocks

  lemma RunSplit(start: nat, a: nat, b: nat)
    ensures multiset(Run(start, a + b)) == multiset(Run(start, a)) + multiset(Run(start + a, b))
  {
    hide Run;
    var x, y, z := Run(start, a), Run(start + a, b), Run(start, a + b);
    forall k ensures k in z <==> k in x + y {
      RunMember(start, a, k);
      RunMember(start + a, b, k);
      RunMember(start, a + b, k);
    }
    forall k ensures !(k in x && k in y) {
      RunMember(start, a, k);
      RunMember(start + a, b, k);
    }
    assert z == x + y;
    assert multiset(x + y) == multiset(x) + multiset(y);
  }

  /** A part of an extent, with the blocks that it is mapped to. */
  function Part(e: Ext, start: nat, len: nat): Ext
    requires e.start <= start
  {
    Ext(start, len, MapAdd(e.blk, start - e.start), e.flags)
  }

  lemma BagSplit(e: Ext, n: nat)
    requires n <= e.len
    ensures BagOf(e) == BagOf(Part(e, e.start, n)) + BagOf(Part(e, e.start + n, e.len - n))
  {
    hide Run;
    if e.blk != 0 { RunSplit(e.blk, n, e.len - n); }
  }

  lemma NoLength(e: Ext)
    requires e.len == 0
    ensures BagOf(e) == multiset{}
  {
    if e.blk != 0 { RunIs(e.blk, 0); }
  }

  function BagOfEdge(e: Option<Ext>): multiset<nat> {
    if e.Some? then BagOf(e.value) else multiset{}
  }

  /** The edges that a cut leaves and the part that it takes make up the extent. */
  lemma BagOfCut(e: Ext, start: nat, len: nat)
    requires e.start <= start && start + len <= End(e)
    ensures BagOf(e) == BagOfEdge(LeftEdge(e, start)) + BagOf(Part(e, start, len)) + BagOfEdge(RightEdge(e, start + len))
  {
    hide BagOf;
    var n := start - e.start;
    var rest := Part(e, start, End(e) - start);
    BagSplit(e, n);
    BagSplit(rest, len);
    assert Part(rest, start, len) == Part(e, start, len);
    var last := Part(rest, start + len, rest.len - len);
    assert last == Part(e, start + len, End(e) - start - len);
    if n == 0 { NoLength(Part(e, e.start, n)); }
    if last.len == 0 { NoLength(last); }
    assert Part(e, e.start, n) == Ext(e.start, n, e.blk, e.flags);
  }

  /** The blocks that a cut takes out of a store. */
  lemma CutMapped(s: set<Ext>, e: Ext, start: nat, len: nat)
    requires Valid(s) && e in s && e.start <= start && start + len <= End(e) && len > 0
    ensures Mapped(Cut(s, e, start, len)) + BagOf(Part(e, start, len)) == Mapped(s)
  {
    hide BagOf, Mapped, Valid;
    var l, r := LeftEdge(e, start), RightEdge(e, start + len);
    var t := s - {e};
    DropAt(s, e, 0);
    MappedWithout(s, e);
    BagOfCut(e, start, len);
    if l.Some? {
      PartsAreFresh(t, e, l.value);
      NotIn(t, l.value);
      MappedMore(t, l.value);
    } else {
      assert t + {} == t;
    }
    var u := t + AsSet(l);
    assert Mapped(u) == Mapped(t) + BagOfEdge(l);
    if r.Some? {
      PartsAreFresh(t, e, r.value);
      NotIn(t, r.value);
      MappedMore(u, r.value);
    } else {
      assert u + {} == u;
    }
    BagOfParts(Mapped(s), Mapped(t), BagOfEdge(l), BagOfEdge(r), BagOf(Part(e, start, len)), BagOf(e));
  }

  lemma NotIn(s: set<Ext>, e: Ext)
    requires e.len > 0 && forall f :: f in s ==> !Overlap(e, f)
    ensures e !in s
  {
    assert Overlap(e, e);
  }

  lemma BagOfParts(all: multiset<nat>, rest: multiset<nat>, l: multiset<nat>, r: multiset<nat>, mid: multiset<nat>, e: multiset<nat>)
    requires all == e + rest && e == l + mid + r
    ensures rest + l + r + mid == all
  {
  }

  /** Merging two extents that go on from each other keeps their blocks. */
  lemma BagOfJoin(l: Ext, r: Ext)
    requires CanMerge(l, r) && !Confused(l, r)
    ensures BagOf(Join(l, r)) == BagOf(l) + BagOf(r)
  {
    hide BagOf;
    var e := Join(l, r);
    BagSplit(e, l.len);
    assert Part(e, e.start, l.len) == l;
    BagOfSame(Part(e, e.start + l.len, r.len), r);
  }

  lemma BagOfSame(a: Ext, b: Ext)
    requires a.blk == b.blk && a.len == b.len
    ensures BagOf(a) == BagOf(b)
  {
  }

  lemma GlueMapped(s: set<Ext>, l: Ext, r: Ext)
    requires Valid(s) && l in s && r in s && CanMerge(l, r) && !Confused(l, r)
    ensures Mapped(Glue(s, l, r)) == Mapped(s)
  {
    hide BagOf, Mapped, Valid;
    DropAt(s, l, 0);
    assert l != r by { Lengths(s, l, r); }
    DropAt(s - {l}, r, 0);
    MappedWithout(s, l);
    MappedWithout(s - {l}, r);
    var t := s - {l, r};
    assert s - {l} - {r} == t;
    forall f | f in t ensures !Overlap(Join(l, r), f) { assert !Overlap(l, f) && !Overlap(r, f); }
    Lengths(s, l, r);
    NotIn(t, Join(l, r));
    MappedMore(t, Join(l, r));
    BagOfJoin(l, r);
  }

  lemma Lengths(s: set<Ext>, l: Ext, r: Ext)
    requires Valid(s) && l in s && r in s
    ensures l.len > 0 && r.len > 0
  {
  }

  // ---- setting a range

  /** The blocks that a range was mapped to. */
  ghost function Replaced(s: set<Ext>, x: Ext): multiset<nat> {
    var c := Covering(s, x);
    if c.Some? && Inside(x, c.value) then BagOf(Part(c.value, x.start, x.len)) else multiset{}
  }

  /** The blocks of the extent that is dropped because a cleared range was merged with it. */
  ghost function Lost(s: set<Ext>, x: Ext): multiset<nat>
    requires Settable(s, x)
  {
    var r := SetRight(s, x);
    if Zero(x) && MergesRight(x, r) then BagOf(r.value) else multiset{}
  }

  lemma BaseMapped(s: set<Ext>, x: Ext)
    requires Valid(s) && x.len > 0 && Settable(s, x)
    ensures Mapped(SetBase(s, x)) + Replaced(s, x) == Mapped(s)
  {
    hide BagOf, Mapped, Valid, Next, Cut;
    var c := Covering(s, x);
    if c.Some? {
      CoveringIn(s, x);
      CutMapped(s, c.value, x.start, x.len);
    }
  }

  lemma CoveringIn(s: set<Ext>, x: Ext)
    requires Covering(s, x).Some?
    ensures Covering(s, x).value in s
  {
  }

  /** A set exchanges the blocks of its range for those it is given, unless it clears and loses a neighbour. */
  lemma SetMapped(s: set<Ext>, x: Ext)
    requires Valid(s) && x.len > 0 && Settable(s, x) && (SetClean(s, x) || Zero(x)) && forall e :: e in s ==> !Zero(e)
    ensures Mapped(SetTo(s, x)) + Replaced(s, x) + Lost(s, x) == Mapped(s) + BagOf(x)
  {
    BaseMapped(s, x);
    if Zero(x) { ClearMapped(s, x); } else { PutMapped(s, x); }
    BagOfSet(Mapped(SetTo(s, x)), Mapped(SetBase(s, x)), Replaced(s, x), Lost(s, x), BagOf(x), Mapped(s));
  }

  lemma BagOfSet(to: multiset<nat>, base: multiset<nat>, taken: multiset<nat>, lost: multiset<nat>, x: multiset<nat>, all: multiset<nat>)
    requires base + taken == all && to + lost == base + x
    ensures to + taken + lost == all + x
  {
    assert to + taken + lost == (to + lost) + taken;
  }

  lemma ClearMapped(s: set<Ext>, x: Ext)
    requires Valid(s) && x.len > 0 && Settable(s, x) && Zero(x) && forall e :: e in s ==> !Zero(e)
    ensures Mapped(SetTo(s, x)) + Lost(s, x) == Mapped(SetBase(s, x)) + BagOf(x)
  {
    hide BagOf, Mapped, Valid, SetBase;
    var l, r, base := SetLeft(s, x), SetRight(s, x), SetBase(s, x);
    SetNeighbours(s, x);
    ClearsRight(s, x);
    ZeroBag(x);
    if MergesRight(x, r) {
      MappedWithout(base, r.value);
      assert SetTo(s, x) == base - {r.value};
    } else {
      assert SetTo(s, x) == base;
    }
  }

  lemma ZeroBag(x: Ext)
    requires Zero(x)
    ensures BagOf(x) == multiset{}
  {
  }

  /** A cleared range is not merged to the left: no extent is without mapping and flags. */
  lemma ClearsRight(s: set<Ext>, x: Ext)
    requires Valid(s) && x.len > 0 && Settable(s, x) && Zero(x) && forall e :: e in s ==> !Zero(e)
    ensures !MergesLeft(SetLeft(s, x), x) && JoinLeft(SetLeft(s, x), x) == x
  {
    hide SetBase;
    SetNeighbours(s, x);
  }

  lemma PutMapped(s: set<Ext>, x: Ext)
    requires Valid(s) && x.len > 0 && Settable(s, x) && SetClean(s, x) && !Zero(x) && forall e :: e in s ==> !Zero(e)
    ensures Mapped(SetTo(s, x)) + Lost(s, x) == Mapped(SetBase(s, x)) + BagOf(x)
  {
    hide BagOf, Mapped, Valid, SetBase;
    var l, r, base := SetLeft(s, x), SetRight(s, x), SetBase(s, x);
    SetBaseAt(s, x, 0);
    SetNeighbours(s, x);
    AddAt(base, x, 0);
    NotIn(base, x);
    MappedMore(base, x);
    var s1 := base + {x};
    var s2, x1 := GlueLeft(s1, l, x), JoinLeft(l, x);
    if MergesLeft(l, x) {
      GlueValid(s1, l.value, x);
      GlueMapped(s1, l.value, x);
    }
    if MergesRight(x1, r) {
      RightStays(s, x);
      GlueMapped(s2, x1, r.value);
    }
  }

  lemma RightStays(s: set<Ext>, x: Ext)
    requires Valid(s) && x.len > 0 && Settable(s, x)
    requires MergesRight(JoinLeft(SetLeft(s, x), x), SetRight(s, x))
    ensures SetRight(s, x).value in GlueLeft(SetBase(s, x) + {x}, SetLeft(s, x), x)
  {
    hide SetBase;
    SetNeighbours(s, x);
  }
}
