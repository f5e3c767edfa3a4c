/**
  The linearly probed hash table at the end of leaf blocks. A bucket holds the
  offset of an item, or zero. An item hashes to its home bucket and is stored in
  the first free bucket from there, wrapping past the end of the table.
*/
module LeafHash {
  import opened LeafValues

  /** How many buckets a probe that starts at `from` passes before it looks at `to`. */
  function Dist(from: nat, to: nat, n: nat): int {
    if from <= to then to - from else to + n - from
  }

  function NextBucket(i: nat, n: nat): nat {
    if i + 1 >= n then 0 else i + 1
  }

  predicate Holds(b: seq<nat>, off: nat) {
    off != 0 && off in b
  }

  ghost predicate Distinct(b: seq<nat>) {
    forall p, q :: 0 <= p < |b| && 0 <= q < |b| && b[p] == b[q] != 0 ==> p == q
  }

  ghost predicate HasFree(b: seq<nat>) {
    exists p :: 0 <= p < |b| && b[p] == 0
  }

  /** No probe from `home` stops before it gets past bucket `q`. */
  ghost predicate Path(b: seq<nat>, home: nat, q: nat) {
    forall x :: 0 <= x < |b| && Dist(home, x, |b|) <= Dist(home, q, |b|) ==> b[x] != 0
  }

  /** All of the buckets after `i` are in use, up to and with `q`. */
  ghost predicate Run(b: seq<nat>, i: nat, q: nat) {
    q != i && forall x :: 0 <= x < |b| && 0 < Dist(i, x, |b|) <= Dist(i, q, |b|) ==> b[x] != 0
  }

  ghost predicate Homes(b: seq<nat>, home: nat -> nat) {
    forall off {:trigger home(off)} :: home(off) < |b|
  }

  /** Every stored item is found by probing from its home bucket. */
  ghost predicate Probed(b: seq<nat>, home: nat -> nat) {
    forall q :: 0 <= q < |b| && b[q] != 0 ==> Path(b, home(b[q]), q)
  }

  ghost predicate Table(b: seq<nat>, home: nat -> nat) {
    |b| > 0 && Homes(b, home) && Distinct(b) && Probed(b, home)
  }

  // ---- the bound that keeps a bucket free

  const HASH_NR := (BLOCK_SIZE - HEADER_BYTES) / (ITEM_BYTES + 2) * 100 / 75
  const HASH_BYTES := HASH_NR * 2

  lemma {:induction false} DistinctPrefix(b: seq<nat>, offs: set<nat>, n: nat)
    requires n <= |b| && Distinct(b) && forall p :: 0 <= p < |b| ==> b[p] != 0 && b[p] in offs
    ensures (set p | 0 <= p < n :: b[p]) <= offs && |set p | 0 <= p < n :: b[p]| == n
  {
    if n > 0 {
      DistinctPrefix(b, offs, n - 1);
      var s := set p | 0 <= p < n - 1 :: b[p];
      assert (set p | 0 <= p < n :: b[p]) == s + {b[n - 1]};
    }
  }

  lemma {:induction false} SubsetSize(s: set<nat>, t: set<nat>)
    requires s <= t
    ensures |s| <= |t|
  {
    if s != {} {
      var x :| x in s;
      SubsetSize(s - {x}, t - {x});
    }
  }

  /** A table that holds fewer items than it has buckets has a free bucket. */
  lemma FewItemsLeaveFree(b: seq<nat>, offs: set<nat>)
    requires Distinct(b) && (forall off :: Holds(b, off) ==> off in offs) && |offs| < |b|
    ensures HasFree(b)
  {
    if !HasFree(b) {
      forall p | 0 <= p < |b| ensures b[p] != 0 && b[p] in offs { assert Holds(b, b[p]); }
      DistinctPrefix(b, offs, |b|);
      SubsetSize(set p | 0 <= p < |b| :: b[p], offs);
      assert false;
    }
  }

  // ---- search and insert

  /** An item is found where its key is, or not at all. */
  method Search<K(==)>(buckets: array<nat>, home: nat -> nat, keyOf: nat -> K, hash: K -> nat, key: K)
    returns (off: nat)
    requires Table(buckets[..], home) && hash(key) < buckets.Length
    requires forall o :: Holds(buckets[..], o) ==> home(o) == hash(keyOf(o))
    ensures off != 0 ==> Holds(buckets[..], off) && keyOf(off) == key
    ensures off == 0 ==> forall o :: Holds(buckets[..], o) ==> keyOf(o) != key
  {
    var start := hash(key);
    var i: nat, nr, n := start, buckets.Length, buckets.Length;
    ghost var b := buckets[..];
    while nr > 0
      invariant 0 <= nr <= n && i < n
      invariant nr > 0 ==> Dist(start, i, n) == n - nr
      invariant forall x :: 0 <= x < n && Dist(start, x, n) < n - nr ==> b[x] != 0 && keyOf(b[x]) != key
    {
      off := buckets[i];
      assert off != 0 ==> Holds(b, off);
      if off == 0 {
        forall o | Holds(b, o) ensures keyOf(o) != key {
          var q: nat :| q < n && b[q] == o;
          assert keyOf(o) == key ==> Path(b, start, q);
        }
        return;
      }
      if keyOf(off) == key {
        return;
      }
      nr := nr - 1;
      i := NextBucket(i, n);
    }
    off := 0;
  }

  /** The bucket that a probe from `home` finds free. */
  ghost predicate FirstFree(b: seq<nat>, home: nat, j: nat) {
    && j < |b| && b[j] == 0
    && forall x :: 0 <= x < |b| && Dist(home, x, |b|) < Dist(home, j, |b|) ==> b[x] != 0
  }

  method Insert(buckets: array<nat>, start: nat, off: nat) returns (ghost j: nat)
    requires start < buckets.Length && HasFree(buckets[..])
    modifies buckets
    ensures FirstFree(old(buckets[..]), start, j)
    ensures buckets[..] == old(buckets[..])[j := off]
  {
    var i: nat, nr, n := start, buckets.Length, buckets.Length;
    ghost var b := buckets[..];
    while nr > 0
      invariant 0 <= nr <= n && i < n && buckets[..] == b
      invariant nr > 0 ==> Dist(start, i, n) == n - nr
      invariant forall x :: 0 <= x < n && Dist(start, x, n) < n - nr ==> b[x] != 0
    {
      if buckets[i] == 0 {
        j := i;
        buckets[i] := off;
        return;
      }
      nr := nr - 1;
      i := NextBucket(i, n);
    }
    assert false;
  }

  /** Filling the first free bucket only adds the item, and leaves every probe working. */
  lemma InsertKeeps(b: seq<nat>, home: nat -> nat, off: nat, j: nat)
    requires Table(b, home) && off != 0 && !Holds(b, off) && FirstFree(b, home(off), j)
    ensures Table(b[j := off], home)
    ensures forall o :: Holds(b[j := off], o) <==> Holds(b, o) || o == off
  {
    var b' := b[j := off];
    assert b'[j] == off;
    forall q | 0 <= q < |b'| && b'[q] != 0 ensures Path(b', home(b'[q]), q) {
      if q != j { assert Path(b, home(b[q]), q); }
    }
    forall o | Holds(b, o) ensures Holds(b', o) {
      var q :| 0 <= q < |b| && b[q] == o;
      assert b'[q] == o;
    }
  }

  // ---- delete and change

  /** Finds the bucket of a stored item. */
  method FindBucket(buckets: array<nat>, home: nat -> nat, off: nat) returns (i: nat)
    requires Table(buckets[..], home) && Holds(buckets[..], off)
    ensures i < buckets.Length && buckets[i] == off
  {
    var start, nr, n := home(off), buckets.Length, buckets.Length;
    i := start;
    ghost var b := buckets[..];
    ghost var q :| 0 <= q < n && b[q] == off;
    assert Path(b, start, q);
    while nr > 0
      invariant 0 <= nr <= n && i < n
      invariant nr > 0 ==> Dist(start, i, n) == n - nr
      invariant n - nr <= Dist(start, q, n)
    {
      assert b[i] != 0;
      if buckets[i] == off {
        return;
      }
      nr := nr - 1;
      i := NextBucket(i, n);
    }
    assert false;
  }

  /** Moving an item in the block only changes the offset that its bucket holds. */
  method Change(buckets: array<nat>, home: nat -> nat, to: nat, from: nat)
    requires Table(buckets[..], home) && Holds(buckets[..], from) && to != 0 && !Holds(buckets[..], to)
    requires home(to) == home(from)
    modifies buckets
    ensures Table(buckets[..], home)
    ensures forall o :: Holds(buckets[..], o) <==> o == to || (Holds(old(buckets[..]), o) && o != from)
  {
    ghost var b := buckets[..];
    var i := FindBucket(buckets, home, from);
    buckets[i] := to;
    ChangeKeeps(b, home, i, to);
    assert buckets[..] == b[i := to];
  }

  lemma ChangeKeeps(b: seq<nat>, home: nat -> nat, i: nat, to: nat)
    requires Table(b, home) && i < |b| && b[i] != 0 && to != 0 && !Holds(b, to) && home(to) == home(b[i])
    ensures Table(b[i := to], home)
    ensures forall o :: Holds(b[i := to], o) <==> o == to || (Holds(b, o) && o != b[i])
  {
    var b' := b[i := to];
    assert b'[i] == to;
    forall q | 0 <= q < |b'| && b'[q] != 0 ensures Path(b', home(b'[q]), q) {
      assert Path(b, home(b[q]), q);
    }
    forall o | Holds(b, o) && o != b[i] ensures Holds(b', o) {
      var q :| 0 <= q < |b| && b[q] == o;
      assert b'[q] == o;
    }
    forall o | Holds(b', o) && o != to ensures Holds(b, o) && o != b[i] {
      var q :| 0 <= q < |b'| && b'[q] == o;
      assert b[q] == o && q != i;
    }
  }

  /** From `i` to the free bucket `e` the table `b` is as it was in `a`, and `b` uses no bucket that `a` did not. */
  ghost predicate Unmoved(a: seq<nat>, b: seq<nat>, e: nat, i: nat) {
    && |a| == |b| && i < |b| && e < |b| && a[e] == 0 && a[i] != 0
    && (forall x :: 0 <= x < |a| && a[x] == 0 ==> b[x] == 0)
    && (forall x :: 0 <= x < |a| && 0 < Dist(i, x, |a|) <= Dist(i, e, |a|) ==> b[x] == a[x])
  }

  /** An item that a probe would miss sits in the run of used buckets after `i`. */
  ghost predicate MissesFollow(b: seq<nat>, home: nat -> nat, i: nat) {
    forall q :: 0 <= q < |b| && b[q] != 0 ==> Path(b, home(b[q]), q) || Run(b, i, q)
  }

  /** What holds between rehashes. */
  ghost predicate Rehashing(a: seq<nat>, b: seq<nat>, home: nat -> nat, e: nat, i: nat) {
    i < |b| && Distinct(b) && Unmoved(a, b, e, i) && MissesFollow(b, home, i)
  }

  lemma ClearStartsRehash(a: seq<nat>, home: nat -> nat, e: nat, i: nat)
    requires Table(a, home) && i < |a| && a[i] != 0 && e < |a| && a[e] == 0
    ensures Rehashing(a, a[i := 0], home, e, i)
  {
    var b := a[i := 0];
    forall q: nat | q < |b| && b[q] != 0 ensures Path(b, home(b[q]), q) || Run(b, i, q) {
      var n, h := |b|, home(a[q]);
      assert Path(a, h, q);
      if Dist(h, i, n) <= Dist(h, q, n) {
        forall x | 0 <= x < n && 0 < Dist(i, x, n) <= Dist(i, q, n) ensures b[x] != 0 {
          assert Dist(h, x, n) <= Dist(h, q, n);
        }
      }
    }
  }

  lemma ClearTakesOne(a: seq<nat>, i: nat)
    requires Distinct(a) && i < |a| && a[i] != 0
    ensures forall o :: Holds(a[i := 0], o) <==> Holds(a, o) && o != a[i]
  {
    var b := a[i := 0];
    forall o ensures Holds(b, o) <==> Holds(a, o) && o != a[i] {
      if Holds(a, o) && o != a[i] {
        var q :| 0 <= q < |a| && a[q] == o;
        assert b[q] == o;
      }
      if Holds(b, o) {
        var q :| 0 <= q < |b| && b[q] == o;
        assert a[q] == o;
      }
    }
  }

  /** An item is put back no further from its home than it was. */
  lemma LandsBefore(a: seq<nat>, b: seq<nat>, home: nat, e: nat, i: nat, j: nat)
    requires |a| == |b| && home < |a| && e < |a| && i < |a| && a[e] == 0 && Path(a, home, i)
    requires FirstFree(b[i := 0], home, j)
    ensures Dist(home, j, |a|) <= Dist(home, i, |a|) && a[j] != 0 && !(0 < Dist(i, j, |a|) <= Dist(i, e, |a|))
  {
  }

  /** Taking the item out of bucket `i` only breaks the paths of items in the run after it. */
  lemma PathOrRun(b: seq<nat>, home: nat, i: nat, j: nat, off: nat, q: nat)
    requires home < |b| && i < |b| && j < |b| && q < |b| && off != 0 && q != i && Path(b, home, q)
    ensures var d := b[i := 0][j := off]; Path(d, home, q) || Run(d, i, q)
  {
    var n, d := |b|, b[i := 0][j := off];
    if Dist(home, i, n) <= Dist(home, q, n) {
      forall x | 0 <= x < n && 0 < Dist(i, x, n) <= Dist(i, q, n) ensures d[x] != 0 {
        assert Dist(home, x, n) <= Dist(home, q, n);
      }
    }
  }

  lemma RunMovesOn(b: seq<nat>, i: nat, j: nat, off: nat, q: nat)
    requires i < |b| && j < |b| && q < |b| && off != 0 && Run(b, i, q) && q != NextBucket(i, |b|)
    ensures var i' := NextBucket(i, |b|); i' < |b| && Run(b[i' := 0][j := off], i', q)
  {
    var n, i' := |b|, NextBucket(i, |b|);
    forall x | 0 <= x < n && 0 < Dist(i', x, n) <= Dist(i', q, n) ensures b[x] != 0 && x != i' {
      assert Dist(i, x, n) <= Dist(i, q, n);
    }
  }

  lemma MissesStillFollow(b: seq<nat>, home: nat -> nat, i: nat, j: nat)
    requires i < |b| && Homes(b, home) && MissesFollow(b, home, i)
    requires var i' := NextBucket(i, |b|); b[i'] != 0 && FirstFree(b[i' := 0], home(b[i']), j)
    ensures var i' := NextBucket(i, |b|); MissesFollow(b[i' := 0][j := b[i']], home, i')
  {
    var i' := NextBucket(i, |b|);
    var off := b[i'];
    var d := b[i' := 0][j := off];
    assert Path(d, home(off), j);
    hide FirstFree, Path, Run;
    forall q: nat | q < |b| && d[q] != 0 ensures Path(d, home(d[q]), q) || Run(d, i', q) {
      if q != j {
        assert b[q] == d[q] && q != i';
        if Run(b, i, q) { RunMovesOn(b, i, j, off, q); } else { PathOrRun(b, home(b[q]), i', j, off, q); }
      }
    }
  }

  lemma StillUnmoved(a: seq<nat>, b: seq<nat>, e: nat, i: nat, j: nat)
    requires Unmoved(a, b, e, i)
    requires var i' := NextBucket(i, |b|);
             b[i'] != 0 && j < |a| && a[j] != 0 && !(0 < Dist(i', j, |a|) <= Dist(i', e, |a|))
    ensures var i' := NextBucket(i, |b|);
            Unmoved(a, b[i' := 0][j := b[i']], e, i') && Dist(i', e, |b|) < Dist(i, e, |b|)
  {
  }

  lemma StillDistinct(b: seq<nat>, i: nat, j: nat)
    requires i < |b| && j < |b| && Distinct(b) && b[i := 0][j] == 0
    ensures Distinct(b[i := 0][j := b[i]])
  {
  }

  lemma RehashStep(a: seq<nat>, b: seq<nat>, home: nat -> nat, e: nat, i: nat, j: nat)
    requires Table(a, home) && Rehashing(a, b, home, e, i)
    requires var i' := NextBucket(i, |b|); b[i'] != 0 && FirstFree(b[i' := 0], home(b[i']), j)
    ensures var i' := NextBucket(i, |b|);
            Rehashing(a, b[i' := 0][j := b[i']], home, e, i') && Dist(i', e, |b|) < Dist(i, e, |b|)
  {
    var i' := NextBucket(i, |b|);
    assert a[i'] == b[i'] && Path(a, home(b[i']), i');
    LandsBefore(a, b, home(b[i']), e, i', j);
    MissesStillFollow(b, home, i, j);
    hide Path, Run, MissesFollow, Probed, Homes, Distinct, Unmoved;
    StillUnmoved(a, b, e, i, j);
    StillDistinct(b, i', j);
  }

  lemma RehashKeepsItems(b: seq<nat>, i: nat, j: nat)
    requires i < |b| && j < |b| && b[i] != 0 && b[i := 0][j] == 0
    ensures forall o :: Holds(b[i := 0][j := b[i]], o) <==> Holds(b, o)
  {
    var d := b[i := 0][j := b[i]];
    assert d[j] == b[i];
    forall o | Holds(b, o) ensures Holds(d, o) {
      var q :| 0 <= q < |b| && b[q] == o;
      assert q != i ==> d[q] == o;
    }
  }

  /** Once the next bucket is free nothing is left to rehash. */
  lemma RehashEnds(a: seq<nat>, b: seq<nat>, home: nat -> nat, e: nat, i: nat)
    requires Table(a, home) && Rehashing(a, b, home, e, i) && b[NextBucket(i, |b|)] == 0
    ensures Table(b, home)
  {
    var i' := NextBucket(i, |b|);
    assert |b| > 1 ==> Dist(i, i', |b|) == 1;
  }

  /** Deleting takes out one item, and every other item is still found by probing from its home. */
  method Delete(buckets: array<nat>, home: nat -> nat, del: nat)
    requires Table(buckets[..], home) && HasFree(buckets[..]) && Holds(buckets[..], del)
    modifies buckets
    ensures Table(buckets[..], home)
    ensures forall o :: Holds(buckets[..], o) <==> Holds(old(buckets[..]), o) && o != del
  {
    ghost var a, n := buckets[..], buckets.Length;
    ghost var e :| 0 <= e < n && a[e] == 0;
    var i := FindBucket(buckets, home, del);
    buckets[i] := 0;
    ClearStartsRehash(a, home, e, i);
    ClearTakesOne(a, i);
    assert buckets[..] == a[i := 0];
    hide Table, Holds, Rehashing;
    while buckets[NextBucket(i, buckets.Length)] != 0
      invariant i < n && Rehashing(a, buckets[..], home, e, i)
      invariant forall o :: Holds(buckets[..], o) <==> Holds(a, o) && o != del
      decreases Dist(i, e, n)
    {
      ghost var was := i;
      i := NextBucket(i, buckets.Length);
      var off := buckets[i];
      ghost var b := buckets[..];
      buckets[i] := 0;
      assert buckets[..] == b[i := 0];
      assert buckets[..][i] == 0;
      ghost var j := Insert(buckets, home(off), off);
      RehashStep(a, b, home, e, was, j);
      RehashKeepsItems(b, i, j);
    }
    RehashEnds(a, buckets[..], home, e, i);
  }
}
