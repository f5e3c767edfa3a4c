/** What inserting, removing, allocating and setting extents does to the store and to its block map. */
module ExtentOps {
  import opened Wrappers
  import opened Extents

  /** The candidate for merging on the left: the first extent that ends at or after the block before `start`. */
  ghost function LeftOf(s: set<Ext>, start: nat): Option<Ext> {
    if start > 0 then Next(s, start - 1) else None
  }

  predicate MergesLeft(l: Option<Ext>, x: Ext) {
    l.Some? && CanMerge(l.value, x)
  }

  predicate MergesRight(x: Ext, r: Option<Ext>) {
    r.Some? && CanMerge(x, r.value)
  }

  function JoinLeft(l: Option<Ext>, x: Ext): Ext {
    if MergesLeft(l, x) then Join(l.value, x) else x
  }

  function JoinRight(x: Ext, r: Option<Ext>): Ext {
    if MergesRight(x, r) then Join(x, r.value) else x
  }

  ghost function GlueLeft(s: set<Ext>, l: Option<Ext>, x: Ext): set<Ext> {
    if MergesLeft(l, x) then Glue(s, l.value, x) else s
  }

  ghost function GlueRight(s: set<Ext>, x: Ext, r: Option<Ext>): set<Ext> {
    if MergesRight(x, r) then Glue(s, x, r.value) else s
  }

  ghost predicate Fresh(s: set<Ext>, x: Ext) {
    x.len > 0 && forall e :: e in s ==> !Overlap(x, e)
  }

  // ---- insert

  ghost function Inserted(s: set<Ext>, x: Ext): set<Ext> {
    var l, r := LeftOf(s, x.start), Next(s, x.start);
    GlueLeft(GlueRight(s + {x}, x, r), l, JoinRight(x, r))
  }

  /** Neither merge confuses an unmapped extent with a mapped one. */
  ghost predicate InsertClean(s: set<Ext>, x: Ext) {
    var l, r := LeftOf(s, x.start), Next(s, x.start);
    && (MergesRight(x, r) ==> !Confused(x, r.value))
    && (MergesLeft(l, x) ==> !Confused(l.value, x))
  }

  ghost function InsertWant(s: set<Ext>, x: Ext, b: nat): Option<Val> {
    if Contains(x, b) then Some(ValueAt(x, b)) else At(s, b)
  }

  lemma InsertedIsValid(s: set<Ext>, x: Ext)
    requires Valid(s) && Fresh(s, x)
    ensures Valid(Inserted(s, x)) && JoinLeft(LeftOf(s, x.start), JoinRight(x, Next(s, x.start))) in Inserted(s, x)
  {
    var l, r := LeftOf(s, x.start), Next(s, x.start);
    AddAt(s, x, 0);
    if MergesRight(x, r) { GlueValid(s + {x}, x, r.value); }
    var s1, x1 := GlueRight(s + {x}, x, r), JoinRight(x, r);
    if MergesLeft(l, x1) {
      assert l.value in s1;
      GlueValid(s1, l.value, x1);
    }
  }

  lemma InsertedAt(s: set<Ext>, x: Ext, b: nat)
    requires Valid(s) && Fresh(s, x) && InsertClean(s, x)
    ensures At(Inserted(s, x), b) == InsertWant(s, x, b)
  {
    var l, r := LeftOf(s, x.start), Next(s, x.start);
    AddAt(s, x, b);
    if MergesRight(x, r) { GlueAt(s + {x}, x, r.value, b); }
    var s1, x1 := GlueRight(s + {x}, x, r), JoinRight(x, r);
    if MergesLeft(l, x1) {
      assert l.value in s1;
      GlueAt(s1, l.value, x1, b);
    }
  }

  /** Inserting is the pointwise update of the block map exactly when no merge is confused. */
  lemma InsertRefines(s: set<Ext>, x: Ext)
    requires Valid(s) && Fresh(s, x)
    ensures (forall b :: At(Inserted(s, x), b) == InsertWant(s, x, b)) <==> InsertClean(s, x)
  {
    var l, r := LeftOf(s, x.start), Next(s, x.start);
    if InsertClean(s, x) {
      forall b ensures At(Inserted(s, x), b) == InsertWant(s, x, b) { InsertedAt(s, x, b); }
    } else {
      InsertedIsValid(s, x);
      var w := JoinLeft(l, JoinRight(x, r));
      if MergesRight(x, r) && Confused(x, r.value) {
        AtOne(Inserted(s, x), w, r.value.start);
        AtOne(s, r.value, r.value.start);
        assert At(Inserted(s, x), r.value.start) != InsertWant(s, x, r.value.start);
      } else {
        AtOne(Inserted(s, x), w, x.start);
        assert At(Inserted(s, x), x.start) != InsertWant(s, x, x.start);
      }
    }
  }

  lemma {:induction false} FirstAfter(s: set<Ext>, x: Ext, e: Ext)
    requires Valid(s) && Fresh(s, x) && e in s && e.start == End(x)
    ensures Next(s, x.start) == Some(e)
  {
    assert IsNext(s, x.start, Some(e)) by {
      forall f | f in s && x.start < End(f) ensures End(e) <= End(f) {
        if f != e { assert !Overlap(e, f) && !Overlap(x, f) && f.len > 0; }
      }
    }
    NextUnique(s, x.start, Some(e));
  }

  lemma LastBefore(s: set<Ext>, start: nat, e: Ext)
    requires Valid(s) && e in s && End(e) == start
    ensures LeftOf(s, start) == Some(e)
  {
    assert e.len > 0;
    NextCovers(s, start - 1, e);
  }

  /** Inserting into a maximally merged store leaves it maximally merged. */
  lemma InsertMerged(s: set<Ext>, x: Ext)
    requires Valid(s) && Fresh(s, x) && Merged(s) && InsertClean(s, x)
    ensures Merged(Inserted(s, x))
  {
    var l, r := LeftOf(s, x.start), Next(s, x.start);
    var t, w := Inserted(s, x), JoinLeft(l, JoinRight(x, r));
    InsertedIsValid(s, x);
    forall e, f | e in t && f in t ensures !Continues(e, f) {
      assert e == w || e in s;
      assert f == w || f in s;
      if e == w && f != w && Continues(w, f) {
        if MergesRight(x, r) { assert Continues(r.value, f); } else { FirstAfter(s, x, f); }
        assert false;
      }
      if f == w && e != w && Continues(e, w) {
        if MergesLeft(l, x) { assert Continues(e, l.value); } else { LastBefore(s, x.start, e); }
        assert false;
      }
    }
  }

  // ---- remove and alloc

  /** The edges of a cut extent are not neighbours, and neither continues what the whole didn't. */
  lemma CutMerged(s: set<Ext>, e: Ext, start: nat, len: nat)
    requires Valid(s) && Merged(s) && e in s && len > 0 && e.start <= start && start + len <= End(e)
    ensures Merged(Cut(s, e, start, len))
  {
    var l, r := LeftEdge(e, start), RightEdge(e, start + len);
    forall f, g | f in Cut(s, e, start, len) && g in Cut(s, e, start, len) ensures !Continues(f, g) {
      var f', g' := if f in s - {e} then f else e, if g in s - {e} then g else e;
      assert !Continues(f', g');
      assert f' != e ==> !Overlap(f', e);
      assert g' != e ==> !Overlap(g', e);
    }
  }

  /** The range can be removed when one extent covers all of it. */
  ghost predicate Removable(s: set<Ext>, start: nat, len: nat) {
    exists e :: e in s && e.start <= start && start + len <= End(e)
  }

  lemma RemovableNext(s: set<Ext>, start: nat, len: nat)
    requires Valid(s) && len > 0
    ensures Removable(s, start, len) <==>
            Next(s, start).Some? && Inside(Ext(start, len, 0, 0), Next(s, start).value)
  {
    if e :| e in s && e.start <= start && start + len <= End(e) { NextCovers(s, start, e); }
  }

  ghost function Removed(s: set<Ext>, start: nat, len: nat): set<Ext>
    requires len > 0 && Valid(s) && Removable(s, start, len)
  {
    RemovableNext(s, start, len);
    Cut(s, Next(s, start).value, start, len)
  }

  /** Removing takes exactly the range out of the block map. */
  lemma RemoveRefines(s: set<Ext>, start: nat, len: nat, b: nat)
    requires Valid(s) && len > 0 && Removable(s, start, len)
    ensures Valid(Removed(s, start, len)) && (Merged(s) ==> Merged(Removed(s, start, len)))
    ensures At(Removed(s, start, len), b) == if start <= b < start + len then None else At(s, b)
  {
    RemovableNext(s, start, len);
    var e := Next(s, start).value;
    CutAt(s, e, start, len, b);
    if Merged(s) { CutMerged(s, e, start, len); }
  }

  /** Allocating takes up to `count` blocks from the front of the found extent. */
  ghost function Allocated(s: set<Ext>, found: Ext, count: nat): set<Ext> {
    s - {found} + AsSet(RightEdge(found, found.start + count))
  }

  function Piece(found: Ext, count: nat): Ext {
    found.(len := if found.len < count then found.len else count)
  }

  lemma AllocRefines(s: set<Ext>, found: Ext, count: nat, b: nat)
    requires Valid(s) && found in s
    ensures Valid(Allocated(s, found, count)) && (Merged(s) ==> Merged(Allocated(s, found, count)))
    ensures At(Allocated(s, found, count), b) == if Contains(Piece(found, count), b) then None else At(s, b)
    ensures Contains(Piece(found, count), b) ==> At(s, b) == Some(ValueAt(Piece(found, count), b))
  {
    if Contains(found, b) { AtOne(s, found, b); }
    if count == 0 {
      assert RightEdge(found, found.start) == Some(found);
      assert Allocated(s, found, count) == s;
    } else {
      var n := Piece(found, count).len;
      assert Allocated(s, found, count) == Cut(s, found, found.start, n);
      CutAt(s, found, found.start, n, b);
      if Merged(s) { CutMerged(s, found, found.start, n); }
    }
  }

  // ---- set

  predicate Zero(x: Ext) {
    x.blk == 0 && x.flags == 0
  }

  /** The extent that the set range overlaps, if any. */
  ghost function Covering(s: set<Ext>, x: Ext): Option<Ext> {
    var n := Next(s, x.start);
    if n.Some? && Overlap(n.value, x) then n else None
  }

  /** A set must fall in a hole or entirely inside one extent. */
  ghost predicate Settable(s: set<Ext>, x: Ext) {
    Covering(s, x).Some? ==> Inside(x, Covering(s, x).value)
  }

  ghost function SetBase(s: set<Ext>, x: Ext): set<Ext>
    requires Settable(s, x)
  {
    var c := Covering(s, x);
    if c.Some? then Cut(s, c.value, x.start, x.len) else s
  }

  /** The merge candidates on each side; an edge that is left behind is not a candidate. */
  ghost function SetLeft(s: set<Ext>, x: Ext): Option<Ext> {
    var c := Covering(s, x);
    if c.Some? && LeftEdge(c.value, x.start).Some? then None else LeftOf(s, x.start)
  }

  ghost function SetRight(s: set<Ext>, x: Ext): Option<Ext>
    requires Settable(s, x)
  {
    var c := Covering(s, x);
    if c.Some? && RightEdge(c.value, End(x)).Some? then None else Next(s, End(x))
  }

  /** The store after a set; a merged value with no mapping and no flags is not stored. */
  ghost function SetTo(s: set<Ext>, x: Ext): set<Ext>
    requires Settable(s, x)
  {
    var l, r := SetLeft(s, x), SetRight(s, x);
    var x1 := JoinLeft(l, x);
    if Zero(x1) then
      SetBase(s, x) - (if MergesLeft(l, x) then {l.value} else {}) - (if MergesRight(x1, r) then {r.value} else {})
    else
      GlueRight(GlueLeft(SetBase(s, x) + {x}, l, x), x1, r)
  }

  ghost function SetWant(s: set<Ext>, x: Ext, b: nat): Option<Val> {
    if !Contains(x, b) then At(s, b) else if Zero(x) then None else Some(ValueAt(x, b))
  }

  /** No merge is confused, and nothing is merged into a range that is being cleared. */
  ghost predicate SetClean(s: set<Ext>, x: Ext)
    requires Settable(s, x)
  {
    var l, r := SetLeft(s, x), SetRight(s, x);
    var x1 := JoinLeft(l, x);
    if Zero(x) then
      !MergesLeft(l, x) && !MergesRight(x1, r)
    else
      (MergesLeft(l, x) ==> !Confused(l.value, x)) && (MergesRight(x1, r) ==> !Confused(x1, r.value))
  }

  /** The extent found for the start of the range is the only one that can overlap the range. */
  lemma CoveringIsOnly(s: set<Ext>, x: Ext, e: Ext)
    requires Valid(s) && x.len > 0 && Settable(s, x) && e in s && Overlap(e, x)
    ensures Covering(s, x) == Some(e)
  {
  }

  lemma SetBaseAt(s: set<Ext>, x: Ext, b: nat)
    requires Valid(s) && x.len > 0 && Settable(s, x)
    ensures Valid(SetBase(s, x)) && Fresh(SetBase(s, x), x)
    ensures At(SetBase(s, x), b) == if Contains(x, b) then None else At(s, b)
  {
    var c := Covering(s, x);
    if c.Some? {
      CutAt(s, c.value, x.start, x.len, b);
      forall e | e in SetBase(s, x) ensures !Overlap(x, e) {
        if e in s - {c.value} && Overlap(e, x) { CoveringIsOnly(s, x, e); }
      }
    } else {
      forall e | e in s ensures !Overlap(x, e) {
        if Overlap(e, x) { CoveringIsOnly(s, x, e); }
      }
      if e :| e in s && Contains(e, b) && Contains(x, b) { assert Overlap(x, e); }
    }
  }

  /** A candidate that merges is an untouched extent of the store. */
  lemma SetNeighbours(s: set<Ext>, x: Ext)
    requires Valid(s) && x.len > 0 && Settable(s, x)
    ensures var l, r := SetLeft(s, x), SetRight(s, x);
            && (MergesLeft(l, x) ==> l.value in s && l.value in SetBase(s, x))
            && (MergesRight(JoinLeft(l, x), r) ==> r.value in s && r.value in SetBase(s, x) && r.value.start == End(x))
  {
    var c := Covering(s, x);
  }

  lemma SetToIsValid(s: set<Ext>, x: Ext)
    requires Valid(s) && x.len > 0 && Settable(s, x)
    ensures Valid(SetTo(s, x))
    ensures !Zero(JoinLeft(SetLeft(s, x), x)) ==>
              JoinRight(JoinLeft(SetLeft(s, x), x), SetRight(s, x)) in SetTo(s, x)
  {
    var l, r := SetLeft(s, x), SetRight(s, x);
    SetBaseAt(s, x, 0);
    SetNeighbours(s, x);
    if !Zero(JoinLeft(l, x)) {
      AddAt(SetBase(s, x), x, 0);
      var s1 := SetBase(s, x) + {x};
      if MergesLeft(l, x) { GlueValid(s1, l.value, x); }
      var s2, x1 := GlueLeft(s1, l, x), JoinLeft(l, x);
      if MergesRight(x1, r) { GlueValid(s2, x1, r.value); }
    }
  }

  lemma SetToAt(s: set<Ext>, x: Ext, b: nat)
    requires Valid(s) && x.len > 0 && Settable(s, x) && SetClean(s, x)
    ensures At(SetTo(s, x), b) == SetWant(s, x, b)
  {
    var l, r := SetLeft(s, x), SetRight(s, x);
    SetBaseAt(s, x, b);
    SetNeighbours(s, x);
    if Zero(x) {
      assert SetTo(s, x) == SetBase(s, x);
    } else {
      AddAt(SetBase(s, x), x, b);
      var s1 := SetBase(s, x) + {x};
      if MergesLeft(l, x) { GlueAt(s1, l.value, x, b); }
      var s2, x1 := GlueLeft(s1, l, x), JoinLeft(l, x);
      if MergesRight(x1, r) { GlueAt(s2, x1, r.value, b); }
    }
  }

  lemma SetBaseInside(s: set<Ext>, x: Ext, f: Ext)
    requires Settable(s, x) && f in SetBase(s, x)
    ensures f in s || (Covering(s, x).Some? && Covering(s, x).value in s && Inside(f, Covering(s, x).value))
  {
  }

  lemma SetLosesNeighbour(s: set<Ext>, x: Ext, e: Ext)
    requires Valid(s) && x.len > 0 && Settable(s, x) && Zero(x) && e in s && !Overlap(e, x) && e !in SetTo(s, x)
    ensures At(SetTo(s, x), e.start) != SetWant(s, x, e.start)
  {
    AtOne(s, e, e.start);
    SetToIsValid(s, x);
    assert SetTo(s, x) <= SetBase(s, x);
    hide SetTo, SetBase, SetLeft, SetRight;
    if f :| f in SetTo(s, x) && Contains(f, e.start) {
      SetBaseInside(s, x, f);
      assert false;
    }
  }

  /** Setting is the pointwise update of the block map exactly when its merges are clean. */
  lemma SetRefines(s: set<Ext>, x: Ext)
    requires Valid(s) && x.len > 0 && Settable(s, x)
    ensures (forall b :: At(SetTo(s, x), b) == SetWant(s, x, b)) <==> SetClean(s, x)
  {
    var l, r := SetLeft(s, x), SetRight(s, x);
    var x1 := JoinLeft(l, x);
    var w := JoinRight(x1, r);
    SetNeighbours(s, x);
    SetToIsValid(s, x);
    if SetClean(s, x) {
      forall b ensures At(SetTo(s, x), b) == SetWant(s, x, b) { SetToAt(s, x, b); }
    } else if Zero(x) {
      SetLosesNeighbour(s, x, if MergesLeft(l, x) then l.value else r.value);
    } else if MergesLeft(l, x) && Confused(l.value, x) {
      if Zero(x1) {
        SetBaseAt(s, x, x.start);
        assert SetTo(s, x) <= SetBase(s, x);
      } else {
        AtOne(SetTo(s, x), w, x.start);
      }
      assert At(SetTo(s, x), x.start) != SetWant(s, x, x.start);
    } else {
      AtOne(SetTo(s, x), w, r.value.start);
      AtOne(s, r.value, r.value.start);
      assert At(SetTo(s, x), r.value.start) != SetWant(s, x, r.value.start);
    }
  }

  /** The value that is set is the one that the blocks already have. */
  predicate SetsSame(c: Ext, x: Ext)
    requires Inside(x, c)
  {
    x.flags == c.flags && x.blk == MapAdd(c.blk, x.start - c.start)
  }

  /** Flags tell whether an extent is mapped. */
  ghost predicate FlagsDecide(s: set<Ext>) {
    forall e, f :: e in s && f in s && e.flags == f.flags ==> (e.blk == 0 <==> f.blk == 0)
  }

  /** The caller can rule confusion out: equal flags must agree on being mapped. */
  lemma FlagsKeepSetClean(s: set<Ext>, x: Ext)
    requires Valid(s) && x.len > 0 && Settable(s, x) && FlagsDecide(s + {x}) && forall e :: e in s ==> !Zero(e)
    ensures SetClean(s, x)
  {
    SetNeighbours(s, x);
    var l, r := SetLeft(s, x), SetRight(s, x);
    if MergesLeft(l, x) { assert l.value in s + {x} && x in s + {x}; }
    if MergesRight(JoinLeft(l, x), r) { assert r.value in s + {x} && x in s + {x}; }
  }

  lemma FlagsKeepInsertClean(s: set<Ext>, x: Ext)
    requires Valid(s) && FlagsDecide(s + {x})
    ensures InsertClean(s, x)
  {
    var l, r := LeftOf(s, x.start), Next(s, x.start);
    if MergesLeft(l, x) { assert l.value in s + {x} && x in s + {x}; }
    if MergesRight(x, r) { assert r.value in s + {x} && x in s + {x}; }
  }

  /** The left and right neighbours of the range after a set, other than the range itself. */
  lemma SetAdjacent(s: set<Ext>, x: Ext, e: Ext)
    requires Valid(s) && x.len > 0 && Settable(s, x) && e in SetBase(s, x)
    ensures End(e) == x.start ==> SetLeft(s, x) == Some(e) || (Covering(s, x).Some? && LeftEdge(Covering(s, x).value, x.start) == Some(e))
    ensures e.start == End(x) ==> SetRight(s, x) == Some(e) || (Covering(s, x).Some? && RightEdge(Covering(s, x).value, End(x)) == Some(e))
  {
    var c := Covering(s, x);
    SetBaseAt(s, x, 0);
    if e in s && End(e) == x.start {
      assert e.len > 0;
      LastBefore(s, x.start, e);
      if c.Some? && c.value.start < x.start { assert Overlap(e, c.value); }
    }
    if e in s && e.start == End(x) {
      assert e.len > 0;
      NextCovers(s, End(x), e);
      if c.Some? && End(x) < End(c.value) { assert Overlap(e, c.value); }
    }
  }

  /** An edge is left unmerged exactly when the value that is set is the one the blocks already had. */
  ghost predicate SplitsSame(s: set<Ext>, x: Ext)
    requires Settable(s, x)
  {
    var c := Covering(s, x);
    !Zero(x) && c.Some? && SetsSame(c.value, x) && (LeftEdge(c.value, x.start).Some? || RightEdge(c.value, End(x)).Some?)
  }

  ghost function SetWhole(s: set<Ext>, x: Ext): Ext
    requires Settable(s, x)
  {
    JoinRight(JoinLeft(SetLeft(s, x), x), SetRight(s, x))
  }

  lemma SetToMembers(s: set<Ext>, x: Ext, e: Ext)
    requires Valid(s) && x.len > 0 && Settable(s, x) && e in SetTo(s, x)
    ensures e in SetBase(s, x) || (!Zero(x) && e == SetWhole(s, x))
  {
  }

  lemma SetBaseMerged(s: set<Ext>, x: Ext)
    requires Valid(s) && x.len > 0 && Settable(s, x) && Merged(s)
    ensures Merged(SetBase(s, x))
  {
    var c := Covering(s, x);
    if c.Some? { CutMerged(s, c.value, x.start, x.len); }
  }

  lemma WholeVersusRight(s: set<Ext>, x: Ext, f: Ext)
    requires Valid(s) && x.len > 0 && Settable(s, x) && Merged(s) && !Zero(x) && SetClean(s, x) && !SplitsSame(s, x)
    requires f in SetBase(s, x) && f in SetTo(s, x)
    ensures !Continues(SetWhole(s, x), f)
  {
    var l, r, c := SetLeft(s, x), SetRight(s, x), Covering(s, x);
    var x1, w := JoinLeft(l, x), SetWhole(s, x);
    SetNeighbours(s, x);
    assert x in s + {x} && (c.Some? ==> c.value in s + {x});
    if Continues(w, f) {
      if MergesRight(x1, r) {
        SetBaseMerged(s, x);
        assert Continues(r.value, f);
      } else {
        SetAdjacent(s, x, f);
      }
      assert false;
    }
  }

  lemma WholeVersusLeft(s: set<Ext>, x: Ext, f: Ext)
    requires Valid(s) && x.len > 0 && Settable(s, x) && Merged(s) && !Zero(x) && SetClean(s, x) && !SplitsSame(s, x)
    requires f in SetBase(s, x) && f in SetTo(s, x)
    ensures !Continues(f, SetWhole(s, x))
  {
    var l, r, c := SetLeft(s, x), SetRight(s, x), Covering(s, x);
    var w := SetWhole(s, x);
    SetNeighbours(s, x);
    assert x in s + {x} && (c.Some? ==> c.value in s + {x});
    if Continues(f, w) {
      if MergesLeft(l, x) {
        SetBaseMerged(s, x);
        assert Continues(f, l.value);
      } else {
        SetAdjacent(s, x, f);
      }
      assert false;
    }
  }

  /** Rewriting part of an extent with its own value leaves edges that should have been merged. */
  lemma SplitLeavesEdges(s: set<Ext>, x: Ext)
    requires Valid(s) && x.len > 0 && Settable(s, x) && SetClean(s, x) && SplitsSame(s, x)
    ensures !Merged(SetTo(s, x))
  {
    var c := Covering(s, x).value;
    var l, r := LeftEdge(c, x.start), RightEdge(c, End(x));
    var w := SetWhole(s, x);
    SetNeighbours(s, x);
    SetToIsValid(s, x);
    SetBaseAt(s, x, 0);
    if l.Some? {
      assert l.value in SetTo(s, x) && Continues(l.value, w);
    } else {
      assert r.value in SetTo(s, x) && Continues(w, r.value);
    }
  }

  /** A set keeps a store maximally merged unless it rewrites part of an extent with its own value. */
  lemma SetMerged(s: set<Ext>, x: Ext)
    requires Valid(s) && x.len > 0 && Settable(s, x) && Merged(s) && SetClean(s, x)
    ensures Merged(SetTo(s, x)) <==> !SplitsSame(s, x)
  {
    if SplitsSame(s, x) {
      SplitLeavesEdges(s, x);
    } else {
      SetBaseMerged(s, x);
      forall e, f | e in SetTo(s, x) && f in SetTo(s, x) ensures !Continues(e, f) {
        SetToMembers(s, x, e);
        SetToMembers(s, x, f);
        if e in SetBase(s, x) {
          if f !in SetBase(s, x) { WholeVersusLeft(s, x, e); }
        } else if f in SetBase(s, x) {
          WholeVersusRight(s, x, f);
        }
      }
    }
  }

  lemma NextOfOne(e: Ext, b: nat)
    requires e.len > 0
    ensures Valid({e}) && Next({e}, b) == if b < End(e) then Some(e) else None
  {
    NextUnique({e}, b, if b < End(e) then Some(e) else None);
  }

  /** Clearing five unmapped blocks also drops the three mapped blocks that follow them. */
  lemma ClearingLosesBlocks()
    ensures var s, x := {Ext(5, 3, 5, 0)}, Ext(0, 5, 0, 0);
            Valid(s) && Merged(s) && Settable(s, x) && At(s, 6) == Some(Val(6, 0)) && At(SetTo(s, x), 6) == None
  {
    var e, x := Ext(5, 3, 5, 0), Ext(0, 5, 0, 0);
    NextOfOne(e, 0);
    NextOfOne(e, 5);
    AtOne({e}, e, 6);
    assert SetTo({e}, x) == {};
  }

  /** Setting one of four blocks to the value it has leaves three extents that could be one. */
  lemma ResettingSplits()
    ensures var s, x := {Ext(0, 4, 10, 0)}, Ext(1, 1, 11, 0);
            Valid(s) && Merged(s) && Settable(s, x) && SetClean(s, x) && !Merged(SetTo(s, x))
  {
    var e, x := Ext(0, 4, 10, 0), Ext(1, 1, 11, 0);
    NextOfOne(e, 0);
    NextOfOne(e, 1);
    NextOfOne(e, 2);
    SplitLeavesEdges({e}, x);
  }
}
