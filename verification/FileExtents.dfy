/** What the extents of a file are like, and what setting and clearing ranges of them does. */
module FileExtents {
  import opened Wrappers
  import opened Extents
  import opened ExtentOps
  import opened ExtentStore
  import opened ExtentBlocks
  import opened FileBlocks

  /** An extent of a file is mapped unless it is offline and nothing else. */
  predicate DataExt(e: Ext) {
    e.flags < 4 && (e.blk == 0 <==> e.flags == OFFLINE)
  }

  ghost predicate FileOK(s: set<Ext>) {
    Valid(s) && forall e :: e in s ==> DataExt(e)
  }

  lemma Keeps(s: set<Ext>, x: Ext)
    requires FileOK(s) && x.len > 0 && Settable(s, x) && (DataExt(x) || Zero(x))
    ensures FileOK(SetTo(s, x))
  {
    hide Valid;
    SetToIsValid(s, x);
    BaseKeeps(s, x);
    SetNeighbours(s, x);
    hide SetBase;
  }

  lemma BaseKeeps(s: set<Ext>, x: Ext)
    requires FileOK(s) && Settable(s, x)
    ensures forall e :: e in SetBase(s, x) ==> DataExt(e)
  {
    hide Valid, Next;
  }

  lemma IsClean(s: set<Ext>, x: Ext)
    requires FileOK(s) && x.len > 0 && Settable(s, x) && DataExt(x)
    ensures SetClean(s, x)
  {
    hide Valid, Settable, SetClean;
    FlagsKeepSetClean(s, x);
  }

  lemma MappedBag(e: Ext)
    requires e.blk != 0 && e.len > 0
    ensures BagOf(e) != multiset{}
  {
    RunMember(e.blk, e.len, e.blk);
    assert e.blk in multiset(Run(e.blk, e.len));
  }

  /** Clearing a range is clean exactly when it loses no neighbour. */
  lemma ClearIsClean(s: set<Ext>, x: Ext)
    requires FileOK(s) && x.len > 0 && Settable(s, x) && Zero(x)
    ensures Lost(s, x) == multiset{} <==> SetClean(s, x)
  {
    hide Valid, BagOf, SetBase;
    ClearsRight(s, x);
    SetNeighbours(s, x);
    var r := SetRight(s, x);
    if MergesRight(x, r) {
      Lengths(s, r.value, r.value);
      MappedBag(r.value);
    }
  }

  /** Setting a range of a file: its blocks are exchanged, and only its blocks are read differently. */
  lemma SetFile(s: set<Ext>, x: Ext)
    requires FileOK(s) && x.len > 0 && Settable(s, x) && (DataExt(x) || Zero(x))
    ensures FileOK(SetTo(s, x))
    ensures Mapped(SetTo(s, x)) + Replaced(s, x) + Lost(s, x) == Mapped(s) + BagOf(x)
    ensures DataExt(x) ==> Lost(s, x) == multiset{}
    ensures Lost(s, x) == multiset{} ==> forall b :: At(SetTo(s, x), b) == SetWant(s, x, b)
  {
    hide Valid, BagOf, Mapped, Settable, SetClean, Lost, Replaced, SetTo, At;
    Keeps(s, x);
    if DataExt(x) {
      IsClean(s, x);
      NoneLost(s, x);
    } else {
      ClearIsClean(s, x);
    }
    SetMapped(s, x);
    if Lost(s, x) == multiset{} {
      forall b ensures At(SetTo(s, x), b) == SetWant(s, x, b) { SetToAt(s, x, b); }
    }
  }

  lemma NoneLost(s: set<Ext>, x: Ext)
    requires Settable(s, x) && DataExt(x)
    ensures Lost(s, x) == multiset{}
  {
  }

  // ---- where ranges can be set

  ghost predicate Hole(s: set<Ext>, start: nat, len: nat) {
    forall b :: start <= b < start + len ==> At(s, b) == None
  }

  /** A range without extents can be set. */
  lemma HoleSet(s: set<Ext>, x: Ext)
    requires Valid(s) && x.len > 0 && Hole(s, x.start, x.len)
    ensures Settable(s, x) && Covering(s, x) == None && Replaced(s, x) == multiset{}
  {
    var n := Next(s, x.start);
    if n.Some? && Overlap(n.value, x) {
      var b := if n.value.start < x.start then x.start else n.value.start;
      AtOne(s, n.value, b);
      assert false;
    }
  }

  /** A range inside one extent can be set. */
  lemma InsideSet(s: set<Ext>, e: Ext, x: Ext)
    requires Valid(s) && x.len > 0 && e in s && Inside(x, e)
    ensures Settable(s, x) && Covering(s, x) == Some(e) && Replaced(s, x) == BagOf(Part(e, x.start, x.len))
  {
    NextCovers(s, x.start, e);
  }

  /** Up to the next extent there is a hole. */
  lemma NextHole(s: set<Ext>, b: nat, len: nat)
    requires Valid(s) && (Next(s, b).Some? ==> b + len <= Next(s, b).value.start)
    ensures Hole(s, b, len)
  {
    forall k | b <= k < b + len ensures At(s, k) == None {
      forall e | e in s ensures !Contains(e, k) {
        if Next(s, b).Some? { assert Next(s, b).value == e || !Overlap(Next(s, b).value, e); }
      }
    }
  }

  /** Nothing starts where a cleared range ends, so nothing is lost. */
  lemma NothingNext(s: set<Ext>, x: Ext)
    requires Valid(s) && x.len > 0 && Settable(s, x) && At(s, End(x)) == None
    ensures Lost(s, x) == multiset{}
  {
    hide SetBase;
    SetNeighbours(s, x);
    var r := SetRight(s, x);
    if Zero(x) && MergesRight(x, r) {
      AtOne(s, r.value, End(x));
      assert false;
    }
  }

  /** The edge that is left behind a set range. */
  lemma EdgeStays(s: set<Ext>, e: Ext, x: Ext)
    requires FileOK(s) && x.len > 0 && e in s && Inside(x, e) && End(x) < End(e) && DataExt(x)
    ensures Settable(s, x) && RightEdge(e, End(x)).value in SetTo(s, x)
  {
    InsideSet(s, e, x);
    SetNeighbours(s, x);
    var edge := RightEdge(e, End(x)).value;
    assert edge in SetBase(s, x);
    assert SetRight(s, x).None?;
    hide Valid;
    assert !Zero(JoinLeft(SetLeft(s, x), x));
  }
}
