/**
  The extent algebra: a store of disjoint extents seen as a partial map from
  logical blocks to a device block and flags, with merging of neighbours and
  splitting of existing extents.
*/
module Extents {
  import opened Wrappers

  /** `len` blocks from `start`, mapped to blocks from `blk` unless `blk` is zero. */
  datatype Ext = Ext(start: nat, len: nat, blk: nat, flags: nat)

  /** What the store says about one block. */
  datatype Val = Val(blk: nat, flags: nat)

  function End(e: Ext): nat {
    e.start + e.len
  }

  predicate Contains(e: Ext, b: nat) {
    e.start <= b < End(e)
  }

  predicate Overlap(e: Ext, f: Ext) {
    !(End(e) <= f.start || End(f) <= e.start)
  }

  predicate Inside(e: Ext, out: Ext) {
    out.start <= e.start && End(e) <= End(out)
  }

  /** Mappings are only translated when they exist. */
  function MapAdd(blk: nat, diff: nat): nat {
    if blk == 0 then 0 else blk + diff
  }

  function ValueAt(e: Ext, b: nat): Val
    requires Contains(e, b)
  {
    Val(MapAdd(e.blk, b - e.start), e.flags)
  }

  predicate CanMerge(left: Ext, right: Ext) {
    && End(left) == right.start
    && ((left.blk == 0 && right.blk == 0) || left.blk + left.len == right.blk)
    && left.flags == right.flags
  }

  function Join(left: Ext, right: Ext): Ext {
    Ext(left.start, left.len + right.len, left.blk, left.flags)
  }

  /** The merge test accepts an unmapped extent before one that is mapped to its length. */
  predicate Confused(left: Ext, right: Ext) {
    left.blk == 0 && right.blk != 0
  }

  ghost predicate Valid(s: set<Ext>) {
    && (forall e :: e in s ==> e.len > 0)
    && (forall e, f :: e in s && f in s && e != f ==> !Overlap(e, f))
  }

  /** The block map that the store stands for. */
  ghost function At(s: set<Ext>, b: nat): Option<Val> {
    if exists e :: e in s && Contains(e, b) then
      var e :| e in s && Contains(e, b);
      Some(ValueAt(e, b))
    else
      None
  }

  /** The right extent goes on where the left one stops, in blocks and in what they are mapped to. */
  predicate Continues(left: Ext, right: Ext) {
    CanMerge(left, right) && !Confused(left, right)
  }

  /** No two extents could be one. */
  ghost predicate Merged(s: set<Ext>) {
    forall e, f :: e in s && f in s ==> !Continues(e, f)
  }

  lemma AtOne(s: set<Ext>, e: Ext, b: nat)
    requires Valid(s) && e in s && Contains(e, b)
    ensures At(s, b) == Some(ValueAt(e, b))
  {
  }

  // ---- the building blocks: adding, cutting and gluing extents

  lemma AddAt(s: set<Ext>, e: Ext, b: nat)
    requires Valid(s) && e.len > 0 && forall f :: f in s ==> !Overlap(e, f)
    ensures Valid(s + {e})
    ensures At(s + {e}, b) == if Contains(e, b) then Some(ValueAt(e, b)) else At(s, b)
  {
    if Contains(e, b) {
      AtOne(s + {e}, e, b);
    } else if x :| x in s && Contains(x, b) {
      AtOne(s, x, b);
      AtOne(s + {e}, x, b);
    }
  }

  lemma DropAt(s: set<Ext>, e: Ext, b: nat)
    requires Valid(s) && e in s
    ensures Valid(s - {e})
    ensures At(s - {e}, b) == if Contains(e, b) then None else At(s, b)
    ensures Contains(e, b) ==> At(s, b) == Some(ValueAt(e, b))
    ensures forall f :: f in s - {e} ==> !Overlap(e, f)
  {
    if !Contains(e, b) {
      if x :| x in s && Contains(x, b) {
        AtOne(s, x, b);
        AtOne(s - {e}, x, b);
      }
    }
  }

  ghost function Glue(s: set<Ext>, l: Ext, r: Ext): set<Ext> {
    s - {l, r} + {Join(l, r)}
  }

  lemma GlueValid(s: set<Ext>, l: Ext, r: Ext)
    requires Valid(s) && l in s && r in s && CanMerge(l, r)
    ensures Valid(Glue(s, l, r))
  {
    assert l != r;
    forall f | f in s - {l, r} ensures !Overlap(Join(l, r), f) {
      assert !Overlap(l, f) && !Overlap(r, f);
    }
  }

  /** Merging two neighbours keeps the block map unless it confuses an unmapped with a mapped extent. */
  lemma GlueAt(s: set<Ext>, l: Ext, r: Ext, b: nat)
    requires Valid(s) && l in s && r in s && l != r && CanMerge(l, r) && !Confused(l, r)
    ensures Valid(Glue(s, l, r)) && At(Glue(s, l, r), b) == At(s, b)
  {
    hide Valid, At;
    GlueValid(s, l, r);
    DropAt(s, l, b);
    DropAt(s - {l}, r, b);
    assert s - {l} - {r} == s - {l, r};
    AddAt(s - {l, r}, Join(l, r), b);
  }

  /** The edges that are left when a range is cut out of an extent. */
  function LeftEdge(e: Ext, start: nat): Option<Ext> {
    if e.start < start then Some(Ext(e.start, start - e.start, e.blk, e.flags)) else None
  }

  function RightEdge(e: Ext, end: nat): Option<Ext>
    requires e.start <= end
  {
    if end < End(e) then Some(Ext(end, End(e) - end, MapAdd(e.blk, end - e.start), e.flags)) else None
  }

  function AsSet(e: Option<Ext>): set<Ext> {
    if e.Some? then {e.value} else {}
  }

  ghost function Cut(s: set<Ext>, e: Ext, start: nat, len: nat): set<Ext>
    requires e.start <= start + len
  {
    s - {e} + AsSet(LeftEdge(e, start)) + AsSet(RightEdge(e, start + len))
  }

  lemma PartsAreFresh(s: set<Ext>, e: Ext, part: Ext)
    requires Inside(part, e) && forall f :: f in s ==> !Overlap(e, f)
    ensures forall f :: f in s ==> !Overlap(part, f)
  {
    forall f | f in s ensures !Overlap(part, f) { assert !Overlap(e, f); }
  }

  lemma AddMaybe(s: set<Ext>, p: Option<Ext>, b: nat)
    requires Valid(s) && (p.Some? ==> p.value.len > 0 && forall f :: f in s ==> !Overlap(p.value, f))
    ensures Valid(s + AsSet(p))
    ensures At(s + AsSet(p), b) == if p.Some? && Contains(p.value, b) then Some(ValueAt(p.value, b)) else At(s, b)
  {
    if p.Some? { AddAt(s, p.value, b); } else { assert s + {} == s; }
  }

  /** Two separate parts of a hole can be added one after the other. */
  lemma AddParts(s: set<Ext>, hole: Ext, l: Option<Ext>, r: Option<Ext>, b: nat)
    requires Valid(s) && forall f :: f in s ==> !Overlap(hole, f)
    requires l.Some? ==> l.value.len > 0 && Inside(l.value, hole)
    requires r.Some? ==> r.value.len > 0 && Inside(r.value, hole)
    requires l.Some? && r.Some? ==> !Overlap(r.value, l.value)
    ensures Valid(s + AsSet(l) + AsSet(r))
    ensures At(s + AsSet(l) + AsSet(r), b) ==
            if r.Some? && Contains(r.value, b) then Some(ValueAt(r.value, b))
            else if l.Some? && Contains(l.value, b) then Some(ValueAt(l.value, b)) else At(s, b)
  {
    hide Valid, At;
    if l.Some? { PartsAreFresh(s, hole, l.value); }
    if r.Some? { PartsAreFresh(s, hole, r.value); }
    AddMaybe(s, l, b);
    AddMaybe(s + AsSet(l), r, b);
  }

  /** Cutting a range out of an extent removes exactly that range from the block map. */
  lemma CutAt(s: set<Ext>, e: Ext, start: nat, len: nat, b: nat)
    requires Valid(s) && e in s && len > 0 && e.start <= start && start + len <= End(e)
    ensures Valid(Cut(s, e, start, len))
    ensures At(Cut(s, e, start, len), b) == if start <= b < start + len then None else At(s, b)
  {
    hide Valid, At;
    DropAt(s, e, b);
    AddParts(s - {e}, e, LeftEdge(e, start), RightEdge(e, start + len), b);
  }

  // ---- ordered search

  /** The extent with the smallest end past a block: the store's items are keyed by their last block. */
  predicate IsNext(s: set<Ext>, b: nat, r: Option<Ext>) {
    match r
    case None => forall e :: e in s ==> End(e) <= b
    case Some(e) => e in s && b < End(e) && forall f :: f in s && b < End(f) ==> End(e) <= End(f)
  }

  lemma {:induction false} NextExists(s: set<Ext>, b: nat)
    ensures exists r :: IsNext(s, b, r)
    decreases |s|
  {
    if e :| e in s && b < End(e) {
      var t := s - {e};
      NextExists(t, b);
      var r :| IsNext(t, b, r);
      if r.Some? && End(r.value) < End(e) {
        assert IsNext(s, b, r);
      } else {
        assert IsNext(s, b, Some(e));
      }
    } else {
      assert IsNext(s, b, None);
    }
  }

  ghost function Next(s: set<Ext>, b: nat): (r: Option<Ext>)
    ensures IsNext(s, b, r)
  {
    NextExists(s, b);
    var r :| IsNext(s, b, r);
    r
  }

  /** Disjoint extents have different ends, so the search has one answer. */
  lemma NextUnique(s: set<Ext>, b: nat, r: Option<Ext>)
    requires Valid(s) && IsNext(s, b, r)
    ensures r == Next(s, b)
  {
  }

  lemma NextCovers(s: set<Ext>, b: nat, e: Ext)
    requires Valid(s) && e in s && Contains(e, b)
    ensures Next(s, b) == Some(e)
  {
    assert IsNext(s, b, Some(e)) by {
      forall f | f in s && b < End(f) ensures End(e) <= End(f) {
        if f != e { assert !Overlap(e, f) && f.len > 0; }
      }
    }
    NextUnique(s, b, Some(e));
  }
}
