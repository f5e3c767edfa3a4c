/** The extent operations over stored items, with undo when the storage fails part way. */
module ExtentStore {
  import opened Errno
  import opened Wrappers
  import opened Extents
  import opened ExtentOps

  datatype Change = Insert(ext: Ext) | Remove(ext: Ext)

  function Do(s: set<Ext>, c: Change): set<Ext> {
    match c
    case Insert(e) => s + {e}
    case Remove(e) => s - {e}
  }

  function DoAll(s: set<Ext>, chg: seq<Change>): set<Ext> {
    if chg == [] then s else Do(DoAll(s, chg[..|chg| - 1]), chg[|chg| - 1])
  }

  /** Items are keyed by the last block of their extent and its length. */
  predicate Taken(s: set<Ext>, e: Ext) {
    exists f :: f in s && End(f) == End(e) && f.len == e.len
  }

  /** A change that the storage can make: it inserts a new key or removes a present item. */
  ghost predicate Makes(s: set<Ext>, c: Change) {
    && Valid(s)
    && match c
       case Insert(e) => Fresh(s, e)
       case Remove(e) => e in s
  }

  ghost predicate MakesAll(s: set<Ext>, chg: seq<Change>) {
    forall i :: 0 <= i < |chg| ==> Makes(DoAll(s, chg[..i]), chg[i])
  }

  lemma Extend(s: set<Ext>, chg: seq<Change>, c: Change)
    requires MakesAll(s, chg) && Makes(DoAll(s, chg), c)
    ensures MakesAll(s, chg + [c]) && DoAll(s, chg + [c]) == Do(DoAll(s, chg), c)
  {
    var t := chg + [c];
    assert t[..|t| - 1] == chg;
    forall i | 0 <= i < |t| ensures Makes(DoAll(s, t[..i]), t[i]) {
      if i < |chg| { assert t[..i] == chg[..i]; }
    }
  }

  /** Distinct extents of a valid store have distinct keys. */
  lemma OneKey(s: set<Ext>, e: Ext, f: Ext)
    requires Valid(s) && e in s && f in s && End(e) == End(f)
    ensures e == f
  {
  }

  /** A change can be made, and what was made can be taken back. */
  lemma Undoes(s: set<Ext>, c: Change)
    requires Makes(s, c)
    ensures c.Insert? ==> !Taken(s, c.ext) && c.ext in Do(s, c) && Do(s, c) - {c.ext} == s
    ensures c.Remove? ==> c.ext in s && Taken(s, c.ext) && !Taken(Do(s, c), c.ext) && Do(s, c) + {c.ext} == s
    ensures Valid(s) && Valid(Do(s, c))
  {
    if c.Insert? {
      AddAt(s, c.ext, 0);
      assert Overlap(c.ext, c.ext);
    } else {
      DropAt(s, c.ext, 0);
    }
  }

  lemma Prefix(s: set<Ext>, chg: seq<Change>, i: nat)
    requires MakesAll(s, chg) && i < |chg|
    ensures Makes(DoAll(s, chg[..i]), chg[i])
    ensures DoAll(s, chg[..i + 1]) == Do(DoAll(s, chg[..i]), chg[i])
  {
    assert chg[..i + 1][..i] == chg[..i];
  }

  function When(c: bool, change: Change): seq<Change> {
    if c then [change] else []
  }

  lemma ExtendWhen(s: set<Ext>, chg: seq<Change>, b: bool, c: Change)
    requires MakesAll(s, chg) && (b ==> Makes(DoAll(s, chg), c))
    ensures MakesAll(s, chg + When(b, c))
    ensures DoAll(s, chg + When(b, c)) == if b then Do(DoAll(s, chg), c) else DoAll(s, chg)
  {
    if b { Extend(s, chg, c); } else { assert chg + [] == chg; }
  }

  // ---- the change lists of the four operations

  function InsertChanges(l: Option<Ext>, r: Option<Ext>, x: Ext): seq<Change> {
    When(MergesRight(x, r), Remove(JoinOf(r))) + When(MergesLeft(l, x), Remove(JoinOf(l)))
      + [Insert(JoinLeft(l, JoinRight(x, r)))]
  }

  /** The extent of an option that is known to be there. */
  function JoinOf(e: Option<Ext>): Ext {
    if e.Some? then e.value else Ext(0, 0, 0, 0)
  }

  ghost function WithoutMerged(s: set<Ext>, l: Option<Ext>, x: Ext, r: Option<Ext>): set<Ext> {
    s - (if MergesRight(x, r) then {r.value} else {}) - (if MergesLeft(l, x) then {l.value} else {})
  }

  /** What the new extent grew into is out of the store by the time it is inserted. */
  lemma WholeIsFresh(s: set<Ext>, l: Option<Ext>, x: Ext, r: Option<Ext>)
    requires Valid(s) && Fresh(s, x) && (l.Some? ==> l.value in s) && (r.Some? ==> r.value in s)
    ensures Valid(WithoutMerged(s, l, x, r)) && Fresh(WithoutMerged(s, l, x, r), JoinLeft(l, JoinRight(x, r)))
  {
    var w := JoinLeft(l, JoinRight(x, r));
    forall f | f in WithoutMerged(s, l, x, r) ensures !Overlap(w, f) {
      assert !Overlap(x, f);
      assert MergesLeft(l, x) ==> !Overlap(l.value, f);
      assert MergesRight(x, r) ==> !Overlap(r.value, f);
    }
  }

  lemma WholeIsGlued(s: set<Ext>, l: Option<Ext>, x: Ext, r: Option<Ext>)
    requires Valid(s) && Fresh(s, x) && (l.Some? ==> l.value in s) && (r.Some? ==> r.value in s)
    ensures WithoutMerged(s, l, x, r) + {JoinLeft(l, JoinRight(x, r))} ==
            GlueLeft(GlueRight(s + {x}, x, r), l, JoinRight(x, r))
  {
    assert Overlap(x, x) && x !in s;
    var x1 := JoinRight(x, r);
    assert MergesLeft(l, x) == MergesLeft(l, x1);
    assert GlueRight(s + {x}, x, r) == s - (if MergesRight(x, r) then {r.value} else {}) + {x1};
    WholeIsFresh(s, None, x, r);
    assert Overlap(x1, x1);
  }

  lemma InsertMakes(s: set<Ext>, l: Option<Ext>, x: Ext, r: Option<Ext>)
    requires Valid(s) && Fresh(s, x) && (l.Some? ==> l.value in s) && (r.Some? ==> r.value in s)
    ensures |InsertChanges(l, r, x)| <= 4 && MakesAll(s, InsertChanges(l, r, x))
    ensures DoAll(s, InsertChanges(l, r, x)) == GlueLeft(GlueRight(s + {x}, x, r), l, JoinRight(x, r))
  {
    var a, b := MergesRight(x, r), MergesLeft(l, x);
    var c1 := When(a, Remove(JoinOf(r)));
    var c2 := c1 + When(b, Remove(JoinOf(l)));
    WholeIsFresh(s, l, x, r);
    WholeIsFresh(s, None, x, r);
    WholeIsGlued(s, l, x, r);
    assert b && a ==> l.value != r.value;
    hide Valid, Fresh, GlueLeft, GlueRight;
    assert [] + c1 == c1;
    ExtendWhen(s, [], a, Remove(JoinOf(r)));
    ExtendWhen(s, c1, b, Remove(JoinOf(l)));
    Extend(s, c2, Insert(JoinLeft(l, JoinRight(x, r))));
  }

  /** The changes of an insert can all be made and give the store that an insert stands for. */
  lemma InsertChangesWork(s: set<Ext>, x: Ext)
    requires Valid(s) && Fresh(s, x)
    ensures var chg := InsertChanges(LeftOf(s, x.start), Next(s, x.start), x);
            |chg| <= 4 && MakesAll(s, chg) && DoAll(s, chg) == Inserted(s, x) && Valid(Inserted(s, x))
  {
    hide InsertChanges, MakesAll, DoAll, Valid, Fresh;
    InsertMakes(s, LeftOf(s, x.start), x, Next(s, x.start));
    InsertedIsValid(s, x);
  }

  /** The changes that cut a range out of an extent. */
  function CutChanges(e: Ext, start: nat, len: nat): seq<Change>
    requires e.start <= start + len
  {
    var l, r := LeftEdge(e, start), RightEdge(e, start + len);
    [Remove(e)] + When(l.Some?, Insert(JoinOf(l))) + When(r.Some?, Insert(JoinOf(r)))
  }

  lemma CutMakes(s: set<Ext>, e: Ext, start: nat, len: nat)
    requires Valid(s) && e in s && e.start <= start && start <= End(e)
    ensures |CutChanges(e, start, len)| <= 4 && MakesAll(s, CutChanges(e, start, len))
    ensures DoAll(s, CutChanges(e, start, len)) == Cut(s, e, start, len)
  {
    var l, r := LeftEdge(e, start), RightEdge(e, start + len);
    var t := s - {e};
    DropAt(s, e, 0);
    AddParts(t, e, l, r, 0);
    AddParts(t, e, l, None, 0);
    assert t + AsSet(l) + AsSet(None) == t + AsSet(l);
    if l.Some? { PartsAreFresh(t, e, l.value); }
    if r.Some? { PartsAreFresh(t, e, r.value); }
    var c2 := [Remove(e)] + When(l.Some?, Insert(JoinOf(l)));
    hide Valid;
    assert [] + [Remove(e)] == [Remove(e)];
    Extend(s, [], Remove(e));
    ExtendWhen(s, [Remove(e)], l.Some?, Insert(JoinOf(l)));
    ExtendWhen(s, c2, r.Some?, Insert(JoinOf(r)));
  }

  /** The changes of an allocation can be made and leave what an allocation stands for. */
  lemma AllocMakes(s: set<Ext>, e: Ext, count: nat, chg: seq<Change>)
    requires Valid(s) && e in s
    requires chg == if e.len > count then [Remove(e)] + [Insert(Ext(e.start + count, e.len - count, MapAdd(e.blk, count), e.flags))] else [Remove(e)]
    ensures |chg| <= 2 && MakesAll(s, chg) && DoAll(s, chg) == Allocated(s, e, count) && Valid(Allocated(s, e, count))
  {
    hide Valid, MakesAll, DoAll;
    assert chg == CutChanges(e, e.start, count);
    CutMakes(s, e, e.start, count);
    AllocRefines(s, e, count, 0);
    assert Cut(s, e, e.start, count) == Allocated(s, e, count);
  }

  /** What a set finds: the covered extent, its edges, and the merge candidates where there is no edge. */
  datatype Found = Found(c: Option<Ext>, le: Option<Ext>, re: Option<Ext>, l: Option<Ext>, r: Option<Ext>)

  ghost function Finds(s: set<Ext>, x: Ext): Found
    requires Settable(s, x)
  {
    var c := Covering(s, x);
    Found(c, if c.Some? then LeftEdge(c.value, x.start) else None,
          if c.Some? then RightEdge(c.value, End(x)) else None, SetLeft(s, x), SetRight(s, x))
  }

  function LeftChange(le: Option<Ext>, l: Option<Ext>, x: Ext): seq<Change> {
    if le.Some? then [Insert(le.value)] else When(MergesLeft(l, x), Remove(JoinOf(l)))
  }

  function RightChange(re: Option<Ext>, r: Option<Ext>, x: Ext): seq<Change> {
    if re.Some? then [Insert(re.value)] else When(MergesRight(x, r), Remove(JoinOf(r)))
  }

  function SetChanges(f: Found, x: Ext): seq<Change> {
    var x1 := JoinLeft(f.l, x);
    When(f.c.Some?, Remove(JoinOf(f.c))) + LeftChange(f.le, f.l, x) + RightChange(f.re, f.r, x1)
      + When(!Zero(x1), Insert(JoinRight(x1, f.r)))
  }

  // The store after each of the changes of a set.
  ghost function Set0(s: set<Ext>, f: Found): set<Ext> {
    s - AsSet(f.c)
  }

  ghost function Set1(s: set<Ext>, f: Found, x: Ext): set<Ext> {
    if f.le.Some? then Set0(s, f) + {f.le.value}
    else if MergesLeft(f.l, x) then Set0(s, f) - {f.l.value} else Set0(s, f)
  }

  ghost function Set2(s: set<Ext>, f: Found, x: Ext): set<Ext> {
    if f.re.Some? then Set1(s, f, x) + {f.re.value}
    else if MergesRight(JoinLeft(f.l, x), f.r) then Set1(s, f, x) - {f.r.value} else Set1(s, f, x)
  }

  /** What is known about the extents that a set works with. */
  ghost predicate Around(s: set<Ext>, f: Found, x: Ext) {
    var t := Set0(s, f);
    && Valid(t) && Fresh(t, x)
    && (f.c.Some? ==> f.c.value in s)
    && (f.le.Some? ==> f.l.None? && Fresh(t, f.le.value) && End(f.le.value) == x.start)
    && (f.re.Some? ==> f.r.None? && Fresh(t, f.re.value) && f.re.value.start == End(x))
    && (MergesLeft(f.l, x) ==> f.l.value in t)
    && (MergesRight(JoinLeft(f.l, x), f.r) ==> f.r.value in t && f.r.value.start == End(x))
  }

  lemma FindsAround(s: set<Ext>, x: Ext)
    requires Valid(s) && x.len > 0 && Settable(s, x)
    ensures Around(s, Finds(s, x), x)
  {
    var f := Finds(s, x);
    SetNeighbours(s, x);
    SetBaseAt(s, x, 0);
    if f.c.Some? {
      DropAt(s, f.c.value, 0);
      if f.le.Some? { PartsAreFresh(s - {f.c.value}, f.c.value, f.le.value); }
      if f.re.Some? { PartsAreFresh(s - {f.c.value}, f.c.value, f.re.value); }
    } else {
      assert s - {} == s;
    }
  }

  lemma Set1Works(s: set<Ext>, f: Found, x: Ext)
    requires Around(s, f, x)
    ensures Valid(Set1(s, f, x)) && Fresh(Set1(s, f, x), x) && (f.re.Some? ==> Fresh(Set1(s, f, x), f.re.value))
  {
    if f.le.Some? { AddAt(Set0(s, f), f.le.value, 0); }
  }

  lemma Set2Works(s: set<Ext>, f: Found, x: Ext)
    requires Around(s, f, x)
    ensures Valid(Set2(s, f, x)) && Fresh(Set2(s, f, x), JoinRight(JoinLeft(f.l, x), f.r))
  {
    Set1Works(s, f, x);
    if f.re.Some? { AddAt(Set1(s, f, x), f.re.value, 0); }
    var w := JoinRight(JoinLeft(f.l, x), f.r);
    forall e | e in Set2(s, f, x) ensures !Overlap(w, e) {
      assert !Overlap(x, e);
      if e in Set0(s, f) {
        assert MergesLeft(f.l, x) ==> !Overlap(f.l.value, e);
        assert MergesRight(JoinLeft(f.l, x), f.r) ==> !Overlap(f.r.value, e);
      } else if MergesLeft(f.l, x) && MergesRight(JoinLeft(f.l, x), f.r) {
        assert false;
      } else if MergesLeft(f.l, x) {
        assert f.re == Some(e) && !Overlap(e, f.l.value);
      } else if MergesRight(JoinLeft(f.l, x), f.r) {
        assert f.le == Some(e) && !Overlap(e, f.r.value);
      }
    }
  }

  lemma NoChanges(s: set<Ext>)
    ensures MakesAll(s, []) && DoAll(s, []) == s
  {
  }

  function Changes0(f: Found): seq<Change> {
    When(f.c.Some?, Remove(JoinOf(f.c)))
  }

  lemma Makes0(s: set<Ext>, f: Found, x: Ext)
    requires Around(s, f, x) && Valid(s)
    ensures MakesAll(s, Changes0(f)) && DoAll(s, Changes0(f)) == Set0(s, f)
  {
    hide Valid, Fresh, DoAll, MakesAll;
    NoChanges(s);
    assert [] + Changes0(f) == Changes0(f);
    ExtendWhen(s, [], f.c.Some?, Remove(JoinOf(f.c)));
  }

  lemma Makes1(s: set<Ext>, f: Found, x: Ext, c: seq<Change>)
    requires Around(s, f, x) && MakesAll(s, c) && DoAll(s, c) == Set0(s, f)
    ensures MakesAll(s, c + LeftChange(f.le, f.l, x)) && DoAll(s, c + LeftChange(f.le, f.l, x)) == Set1(s, f, x)
  {
    hide Valid, Fresh, DoAll, MakesAll;
    if f.le.Some? {
      Extend(s, c, Insert(f.le.value));
    } else {
      ExtendWhen(s, c, MergesLeft(f.l, x), Remove(JoinOf(f.l)));
    }
  }

  lemma Makes2(s: set<Ext>, f: Found, x: Ext, c: seq<Change>)
    requires Around(s, f, x) && MakesAll(s, c) && DoAll(s, c) == Set1(s, f, x)
    requires Valid(Set1(s, f, x)) && (f.re.Some? ==> Fresh(Set1(s, f, x), f.re.value))
    requires f.re.None? && MergesRight(JoinLeft(f.l, x), f.r) ==> f.r.value in Set1(s, f, x)
    ensures var d := RightChange(f.re, f.r, JoinLeft(f.l, x));
            MakesAll(s, c + d) && DoAll(s, c + d) == Set2(s, f, x)
  {
    hide Valid, Fresh, DoAll, MakesAll, Set1, Around;
    if f.re.Some? {
      Extend(s, c, Insert(f.re.value));
    } else {
      ExtendWhen(s, c, MergesRight(JoinLeft(f.l, x), f.r), Remove(JoinOf(f.r)));
    }
  }

  lemma RightStays(s: set<Ext>, f: Found, x: Ext)
    requires Around(s, f, x)
    ensures f.re.None? && MergesRight(JoinLeft(f.l, x), f.r) ==> f.r.value in Set1(s, f, x)
  {
    assert MergesLeft(f.l, x) && MergesRight(JoinLeft(f.l, x), f.r) ==> f.l.value != f.r.value;
  }

  lemma SetMakes(s: set<Ext>, f: Found, x: Ext)
    requires Around(s, f, x) && Valid(s)
    ensures |SetChanges(f, x)| <= 4 && MakesAll(s, SetChanges(f, x))
    ensures var x1 := JoinLeft(f.l, x);
            DoAll(s, SetChanges(f, x)) ==
            if Zero(x1) then Set2(s, f, x) else Set2(s, f, x) + {JoinRight(x1, f.r)}
  {
    hide Valid, Fresh, DoAll, MakesAll, Set0, Set1, Set2, Around, JoinLeft, JoinRight, MergesLeft, MergesRight;
    Set1Works(s, f, x);
    Set2Works(s, f, x);
    RightStays(s, f, x);
    Makes0(s, f, x);
    var x1, c1 := JoinLeft(f.l, x), Changes0(f) + LeftChange(f.le, f.l, x);
    Makes1(s, f, x, Changes0(f));
    Makes2(s, f, x, c1);
    ExtendWhen(s, c1 + RightChange(f.re, f.r, x1), !Zero(x1), Insert(JoinRight(x1, f.r)));
  }

  lemma GlueBoth(s: set<Ext>, l: Option<Ext>, x: Ext, r: Option<Ext>)
    requires Fresh(s, x)
    ensures var x1 := JoinLeft(l, x);
            GlueRight(GlueLeft(s + {x}, l, x), x1, r) ==
            s - (if MergesLeft(l, x) then {l.value} else {}) - (if MergesRight(x1, r) then {r.value} else {})
              + {JoinRight(x1, r)}
  {
    var x1 := JoinLeft(l, x);
    assert Overlap(x, x) && Overlap(x, x1);
    assert GlueLeft(s + {x}, l, x) == s - (if MergesLeft(l, x) then {l.value} else {}) + {x1};
  }

  /** Cutting first and then removing the merged neighbours is the same as making the changes in turn. */
  lemma SetOrder(s: set<Ext>, f: Found, x: Ext)
    requires f.le.Some? ==> f.l.None? && f.le.value !in Set0(s, f)
    requires f.re.Some? ==> f.r.None? && f.re.value !in Set0(s, f)
    requires MergesLeft(f.l, x) ==> f.l.value in Set0(s, f)
    requires MergesRight(JoinLeft(f.l, x), f.r) ==> f.r.value in Set0(s, f)
    ensures Set2(s, f, x) ==
            Set0(s, f) + AsSet(f.le) + AsSet(f.re) - (if MergesLeft(f.l, x) then {f.l.value} else {})
              - (if MergesRight(JoinLeft(f.l, x), f.r) then {f.r.value} else {})
  {
  }

  lemma FreshIsNew(s: set<Ext>, x: Ext)
    requires Fresh(s, x)
    ensures x !in s
  {
    assert Overlap(x, x);
  }

  lemma SetBaseIs(s: set<Ext>, x: Ext)
    requires Settable(s, x)
    ensures SetBase(s, x) == Set0(s, Finds(s, x)) + AsSet(Finds(s, x).le) + AsSet(Finds(s, x).re)
  {
  }

  lemma SetEnds(s: set<Ext>, x: Ext)
    requires Valid(s) && x.len > 0 && Settable(s, x)
    ensures var f := Finds(s, x); var x1 := JoinLeft(f.l, x);
            SetTo(s, x) == if Zero(x1) then Set2(s, f, x) else Set2(s, f, x) + {JoinRight(x1, f.r)}
  {
    hide Valid, Fresh, Covering, SetBase, Cut, LeftEdge, RightEdge, SetLeft, SetRight, GlueLeft, GlueRight, Set2;
    var f := Finds(s, x);
    FindsAround(s, x);
    SetBaseAt(s, x, 0);
    if f.le.Some? { FreshIsNew(Set0(s, f), f.le.value); }
    if f.re.Some? { FreshIsNew(Set0(s, f), f.re.value); }
    GlueBoth(SetBase(s, x), f.l, x, f.r);
    SetBaseIs(s, x);
    SetOrder(s, f, x);
  }

  /** The changes of a set can all be made and give the store that a set stands for. */
  lemma SetChangesWork(s: set<Ext>, x: Ext)
    requires Valid(s) && x.len > 0 && Settable(s, x)
    ensures var chg := SetChanges(Finds(s, x), x);
            |chg| <= 4 && MakesAll(s, chg) && DoAll(s, chg) == SetTo(s, x) && Valid(SetTo(s, x))
  {
    hide *;
    FindsAround(s, x);
    SetMakes(s, Finds(s, x), x);
    SetEnds(s, x);
    SetToIsValid(s, x);
  }

  /** The extent found for the start of the range overlaps it if any does. */
  lemma NextOverlaps(s: set<Ext>, x: Ext)
    requires Valid(s) && x.len > 0
    ensures Fresh(s, x) <==> !(Next(s, x.start).Some? && Overlap(x, Next(s, x.start).value))
  {
    if e :| e in s && Overlap(x, e) {
      var n := Next(s, x.start).value;
      assert n == e || !Overlap(n, e);
    }
  }

  // ---- the counts of a file's blocks

  const OFFLINE: nat := 1
  const UNWRITTEN: nat := 2

  predicate IsOffline(flags: nat) {
    flags % 2 == 1
  }

  predicate IsUnwritten(flags: nat) {
    flags / 2 % 2 == 1
  }

  function On(e: Ext): nat {
    if e.blk != 0 && !IsUnwritten(e.flags) then e.len else 0
  }

  function Off(e: Ext): nat {
    if e.blk != 0 && !IsUnwritten(e.flags) then 0 else if IsOffline(e.flags) then e.len else 0
  }

  ghost function Total(s: set<Ext>, weight: Ext -> nat): nat {
    if s == {} then 0 else
      var e :| e in s;
      weight(e) + Total(s - {e}, weight)
  }

  lemma {:induction false} TotalWithout(s: set<Ext>, e: Ext, weight: Ext -> nat)
    requires e in s
    ensures Total(s, weight) == weight(e) + Total(s - {e}, weight)
    decreases |s|
  {
    var x :| x in s && Total(s, weight) == weight(x) + Total(s - {x}, weight);
    if x != e {
      TotalWithout(s - {x}, e, weight);
      TotalWithout(s - {e}, x, weight);
      assert s - {x} - {e} == s - {e} - {x};
    }
  }

  lemma TotalMore(s: set<Ext>, e: Ext, weight: Ext -> nat)
    ensures e !in s ==> Total(s + {e}, weight) == weight(e) + Total(s, weight)
  {
    if e !in s {
      TotalWithout(s + {e}, e, weight);
      assert s + {e} - {e} == s;
    }
  }

  class Store {
    var exts: set<Ext>
    /** How many calls the storage has seen, and which of them it fails. */
    var calls: nat
    const fails: nat -> bool
    /** The file's counts of blocks that are mapped and written, and of blocks that are offline. */
    var online: int
    var offline: int

    ghost predicate Counted()
      reads this
    {
      online == Total(exts, On) && offline == Total(exts, Off)
    }

    constructor (fails: nat -> bool)
      ensures exts == {} && calls == 0 && this.fails == fails && Counted()
    {
      exts := {};
      calls := 0;
      online, offline := 0, 0;
      this.fails := fails;
    }

    method OpNext(b: nat, undo: bool) returns (ret: int, found: Option<Ext>)
      requires Valid(exts)
      modifies `calls
      ensures ret in {0, ENOENT, EIO} && (found.Some? <==> ret == 0)
      ensures ret != EIO ==> found == Next(exts, b)
      ensures undo ==> ret != EIO
    {
      calls := calls + 1;
      if !undo && fails(calls) {
        return EIO, None;
      }
      if e :| e in exts && IsNext(exts, b, Some(e)) {
        NextUnique(exts, b, Some(e));
        return 0, Some(e);
      }
      assert Next(exts, b).None?;
      return ENOENT, None;
    }

    method OpInsert(e: Ext, undo: bool) returns (ret: int)
      modifies `exts, `calls, `online, `offline
      ensures ret in {0, EEXIST, EIO}
      ensures exts == if ret == 0 then old(exts) + {e} else old(exts)
      ensures ret == EEXIST ==> Taken(old(exts), e)
      ensures undo && !Taken(old(exts), e) ==> ret == 0
      ensures old(Counted()) ==> Counted()
    {
      calls := calls + 1;
      if !undo && fails(calls) {
        return EIO;
      }
      if Taken(exts, e) {
        return EEXIST;
      }
      TotalMore(exts, e, On);
      TotalMore(exts, e, Off);
      exts := exts + {e};
      online, offline := online + On(e), offline + Off(e);
      return 0;
    }

    method OpRemove(e: Ext, undo: bool) returns (ret: int)
      requires Valid(exts)
      modifies `exts, `calls, `online, `offline
      ensures ret in {0, ENOENT, EIO}
      ensures ret == ENOENT ==> !Taken(old(exts), e)
      ensures e in old(exts) ==> exts == if ret == 0 then old(exts) - {e} else old(exts)
      ensures undo && e in old(exts) ==> ret == 0
      ensures old(Counted()) && e in old(exts) ==> Counted()
    {
      calls := calls + 1;
      if !undo && fails(calls) {
        return EIO;
      }
      if f :| f in exts && End(f) == End(e) && f.len == e.len {
        if e in exts {
          OneKey(exts, e, f);
          TotalWithout(exts, e, On);
          TotalWithout(exts, e, Off);
        }
        exts := exts - {f};
        online, offline := online - On(e), offline - Off(e);
        return 0;
      }
      return ENOENT;
    }

    /** Makes all of the changes or none of them. */
    method ApplyChanges(chg: seq<Change>, undo: bool) returns (ret: int)
      requires |chg| <= 4 && MakesAll(exts, chg)
      modifies `exts, `calls, `online, `offline
      ensures ret in {0, EIO} && (undo ==> ret == 0)
      ensures exts == if ret == 0 then DoAll(old(exts), chg) else old(exts)
      ensures old(Counted()) ==> Counted()
    {
      hide Valid, Makes, MakesAll, Taken, Total;
      ret := 0;
      var i := 0;
      ghost var was := exts;
      assert chg[..0] == [];
      while i < |chg|
        invariant 0 <= i <= |chg| && ret == 0 && exts == DoAll(was, chg[..i]) && MakesAll(was, chg) && (old(Counted()) ==> Counted())
      {
        Prefix(was, chg, i);
        Undoes(exts, chg[i]);
        if chg[i].Insert? {
          ret := OpInsert(chg[i].ext, undo);
        } else {
          ret := OpRemove(chg[i].ext, undo);
        }
        if ret < 0 {
          break;
        }
        i := i + 1;
      }
      assert chg[..|chg|] == chg;
      while ret < 0 && i > 0
        invariant 0 <= i <= |chg| && ret in {0, EIO} && exts == DoAll(was, chg[..i])
        invariant (ret == 0 ==> i == |chg|) && (undo ==> ret == 0) && (old(Counted()) ==> Counted())
      {
        i := i - 1;
        Prefix(was, chg, i);
        Undoes(DoAll(was, chg[..i]), chg[i]);
        var err;
        if chg[i].Insert? {
          err := OpRemove(chg[i].ext, true);
        } else {
          err := OpInsert(chg[i].ext, true);
        }
        assert err == 0;
      }
    }

    method InsertExt(x: Ext) returns (ret: int)
      requires Valid(exts) && x.len > 0
      modifies `exts, `calls, `online, `offline
      ensures Valid(exts) && ret in {0, EINVAL, EIO}
      ensures ret == 0 ==> Fresh(old(exts), x) && exts == Inserted(old(exts), x)
      ensures ret == EINVAL ==> !Fresh(old(exts), x)
      ensures ret != 0 ==> exts == old(exts)
      ensures old(Counted()) ==> Counted()
    {
      hide Valid, MakesAll, DoAll, IsNext, Inserted, Fresh;
      var chg, ins := [], x;
      var right, left;
      ret, right := OpNext(x.start, false);
      if ret == EIO {
        return;
      }
      NextOverlaps(exts, x);
      if right.Some? && Overlap(ins, right.value) {
        return EINVAL;
      }
      if right.Some? && CanMerge(ins, right.value) {
        ins := ins.(len := ins.len + right.value.len);
        chg := chg + [Remove(right.value)];
      }
      left := None;
      if x.start > 0 {
        ret, left := OpNext(x.start - 1, false);
        if ret == EIO {
          return;
        }
        if left.Some? && CanMerge(left.value, ins) {
          ins := Ext(left.value.start, ins.len + left.value.len, left.value.blk, ins.flags);
          chg := chg + [Remove(left.value)];
        }
      }
      chg := chg + [Insert(ins)];
      assert chg == InsertChanges(left, right, x);
      InsertChangesWork(exts, x);
      ret := ApplyChanges(chg, false);
    }

    method RemoveExt(start: nat, len: nat) returns (ret: int)
      requires Valid(exts) && len > 0
      modifies `exts, `calls, `online, `offline
      ensures Valid(exts) && ret in {0, ENOENT, EINVAL, EIO}
      ensures ret == 0 ==> Removable(old(exts), start, len) && exts == Removed(old(exts), start, len)
      ensures ret == ENOENT ==> forall e :: e in old(exts) ==> End(e) <= start
      ensures ret == EINVAL ==> !Removable(old(exts), start, len)
      ensures ret != 0 ==> exts == old(exts)
      ensures old(Counted()) ==> Counted()
    {
      var found;
      ret, found := OpNext(start, false);
      if ret < 0 {
        return;
      }
      RemovableNext(exts, start, len);
      if !(found.value.start <= start && start + len <= End(found.value)) {
        return EINVAL;
      }
      var left, right := LeftEdge(found.value, start), RightEdge(found.value, start + len);
      var chg := [Remove(found.value)];
      if left.Some? {
        chg := chg + [Insert(left.value)];
      }
      if right.Some? {
        chg := chg + [Insert(right.value)];
      }
      assert chg == CutChanges(found.value, start, len);
      CutMakes(exts, found.value, start, len);
      RemoveRefines(exts, start, len, 0);
      ret := ApplyChanges(chg, false);
    }

    method AllocExt(start: nat, count: nat) returns (ret: int, ext: Ext)
      requires Valid(exts)
      modifies `exts, `calls, `online, `offline
      ensures Valid(exts) && ret in {0, ENOENT, EIO}
      ensures ret == 0 ==> exists found ::
                IsNext(old(exts), start, Some(found)) && ext == Piece(found, count)
                && exts == Allocated(old(exts), found, count)
      ensures ret == ENOENT ==> forall e :: e in old(exts) ==> End(e) <= start
      ensures ret != 0 ==> exts == old(exts) && ext == Ext(0, 0, 0, 0)
      ensures old(Counted()) ==> Counted()
    {
      var found;
      ret, found := OpNext(start, false);
      if ret < 0 {
        return ret, Ext(0, 0, 0, 0);
      }
      ret, ext := AllocFound(found.value, count);
    }

    method AllocFound(e: Ext, count: nat) returns (ret: int, ext: Ext)
      requires Valid(exts) && e in exts
      modifies `exts, `calls, `online, `offline
      ensures Valid(exts) && ret in {0, EIO}
      ensures ret == 0 ==> ext == Piece(e, count) && exts == Allocated(old(exts), e, count)
      ensures ret != 0 ==> exts == old(exts) && ext == Ext(0, 0, 0, 0)
      ensures old(Counted()) ==> Counted()
    {
      hide Valid, MakesAll, DoAll, Allocated;
      var chg := [Remove(e)];
      if e.len > count {
        chg := chg + [Insert(Ext(e.start + count, e.len - count, MapAdd(e.blk, count), e.flags))];
      }
      AllocMakes(exts, e, count, chg);
      ret := ApplyChanges(chg, false);
      ext := if ret == 0 then Piece(e, count) else Ext(0, 0, 0, 0);
    }

    method SetExt(x: Ext, undo: bool) returns (ret: int)
      requires Valid(exts) && x.len > 0
      modifies `exts, `calls, `online, `offline
      ensures Valid(exts) && ret in {0, EINVAL, EIO}
      ensures ret == 0 ==> Settable(old(exts), x) && exts == SetTo(old(exts), x)
      ensures ret == EINVAL ==> !Settable(old(exts), x)
      ensures undo ==> ret != EIO
      ensures old(Counted()) ==> Counted()
      ensures ret != 0 ==> exts == old(exts)
    {
      hide Valid, SetTo, MakesAll, DoAll, IsNext, Total;
      var chg, set' := [], x;
      var found, left, right;
      ghost var l: Option<Ext>, r: Option<Ext> := None, None;
      ret, found := OpNext(x.start, undo);
      if ret == EIO {
        return;
      }
      left, right := None, None;
      if found.Some? && Overlap(found.value, x) {
        if !Inside(x, found.value) {
          return EINVAL;
        }
        chg := chg + [Remove(found.value)];
        left, right := LeftEdge(found.value, x.start), RightEdge(found.value, End(x));
      } else {
        found := None;
      }
      assert found == Covering(exts, x) && Settable(exts, x);
      ghost var le, re := left, right;
      ghost var c0 := chg;
      assert c0 == When(found.Some?, Remove(JoinOf(found)));
      assert le == (if found.Some? then LeftEdge(found.value, x.start) else None);
      assert re == (if found.Some? then RightEdge(found.value, End(x)) else None);
      hide Settable, Covering, Overlap, LeftEdge, RightEdge;
      if left.Some? {
        chg := chg + [Insert(left.value)];
      } else if x.start > 0 {
        ret, left := OpNext(x.start - 1, undo);
        if ret == EIO {
          return;
        }
        l := left;
        if left.Some? && CanMerge(left.value, set') {
          set' := Ext(left.value.start, set'.len + left.value.len, left.value.blk, set'.flags);
          chg := chg + [Remove(left.value)];
        }
      }
      assert l == SetLeft(exts, x);
      ghost var c1, x1 := chg, set';
      assert c1 == c0 + LeftChange(le, l, x) && x1 == JoinLeft(l, x);
      if right.Some? {
        chg := chg + [Insert(right.value)];
      } else {
        ret, right := OpNext(End(x), undo);
        if ret == EIO {
          return;
        }
        r := right;
        if right.Some? && CanMerge(set', right.value) {
          set' := set'.(len := set'.len + right.value.len);
          chg := chg + [Remove(right.value)];
        }
      }
      assert r == SetRight(exts, x);
      assert chg == c1 + RightChange(re, r, x1) && set' == JoinRight(x1, r);
      ghost var f := Found(found, le, re, l, r);
      assert f == Finds(exts, x);
      hide LeftChange, RightChange, JoinRight, JoinLeft;
      if set'.flags != 0 || set'.blk != 0 {
        chg := chg + [Insert(set')];
      }
      assert chg == SetChanges(f, x);
      SetChangesWork(exts, x);
      ret := ApplyChanges(chg, undo);
    }
  }
}
