/** Items of a block are created and deleted, and their values stored, freed and compacted. */
module LeafArea {
  import opened LeafValues
  import LeafHash

  /** Leaves have their hash table at the end of the block. */
  const LEAF_END: nat := BLOCK_SIZE - LeafHash.HASH_BYTES

  function FullPct(total: nat): nat {
    total * 100 / (BLOCK_SIZE - HEADER_BYTES)
  }

  // ---- the last item takes the place of a deleted one

  /** Tiles after item `from` took the place of item `to`. */
  function Relabel(ts: seq<Tile>, from: nat, to: nat): seq<Tile> {
    seq(|ts|, i requires 0 <= i < |ts| => if ts[i].item == from then ts[i].(item := to) else ts[i])
  }

  lemma {:induction false} RelabelTiled(ts: seq<Tile>, from: nat, to: nat, lo: nat, hi: nat)
    requires Tiled(ts, lo, hi)
    ensures Tiled(Relabel(ts, from, to), lo, hi) && UsedLen(Relabel(ts, from, to)) == UsedLen(ts)
  {
    if ts != [] {
      var us := ts[..|ts| - 1];
      RelabelTiled(us, from, to, lo, ts[|ts| - 1].off);
      assert Relabel(ts, from, to)[..|ts| - 1] == Relabel(us, from, to);
    }
  }

  lemma {:induction false} RelabelConcat(a: seq<Tile>, b: seq<Tile>, from: nat, to: nat)
    ensures Relabel(a + b, from, to) == Relabel(a, from, to) + Relabel(b, from, to)
  {
  }

  lemma {:induction false} RelabelLast(ts: seq<Tile>, from: nat, to: nat, lastOff: nat, lastLen: nat)
    requires LastFree(ts, lastOff, lastLen)
    ensures LastFree(Relabel(ts, from, to), lastOff, lastLen)
  {
    if lastOff != 0 {
      var i :| 0 <= i < |ts| && ts[i] == Tile(lastOff, lastLen, -1) && forall j :: i < j < |ts| ==> ts[j].item >= 0;
      assert Relabel(ts, from, to)[i] == Tile(lastOff, lastLen, -1);
    }
  }

  /** Moving the last item into the place of an item that has no value. */
  function SwapRemove<T>(s: seq<T>, k: nat): seq<T>
    requires k < |s|
  {
    s[k := s[|s| - 1]][..|s| - 1]
  }

  lemma {:induction false} RelabelOK(m: seq<nat>, m': seq<nat>, vals: seq<Slot>, u: Tile, k: nat)
    requires k < |vals| && vals[k].len == 0 && TileOK(m, vals, u) && |m'| == |m|
    requires u.item != |vals| - 1 ==> SameIn(m, m', u.off, End(u))
    requires u.item == |vals| - 1 ==> Get16(m', End(u) - 2) == ItemOff(k)
    ensures TileOK(m', SwapRemove(vals, k), if u.item == |vals| - 1 then u.(item := k) else u)
  {
  }

  lemma {:induction false} RelabelAt(ts: seq<Tile>, from: nat, to: nat, k: nat)
    requires k != from
    ensures k != to ==> (HasTile(Relabel(ts, from, to), k) <==> HasTile(ts, k))
    ensures HasTile(ts, from) ==> HasTile(Relabel(ts, from, to), to)
  {
    var us := Relabel(ts, from, to);
    if HasTile(ts, k) {
      var i :| 0 <= i < |ts| && ts[i].item == k;
      assert us[i].item == k;
    }
    if HasTile(us, k) {
      var i :| 0 <= i < |us| && us[i].item == k;
      assert k != to ==> ts[i].item == k;
    }
    if HasTile(ts, from) {
      var i :| 0 <= i < |ts| && ts[i].item == from;
      assert us[i].item == to;
    }
  }

  lemma {:induction false} RelabelOwned(vals: seq<Slot>, ts: seq<Tile>, k: nat)
    requires Owned(vals, ts) && k < |vals| && vals[k].len == 0
    ensures Owned(SwapRemove(vals, k), Relabel(ts, |vals| - 1, k))
  {
    var e, vals' := |vals| - 1, SwapRemove(vals, k);
    forall j | 0 <= j < |vals'| && vals'[j].len > 0 ensures HasTile(Relabel(ts, e, k), j) {
      if j == k { assert HasTile(ts, e); } else { assert HasTile(ts, j); }
      RelabelAt(ts, e, k, j);
    }
  }

  /** Memory after the trailer of the moved item's value, if it has one, names its new place. */
  function Reowned(m: seq<nat>, vals: seq<Slot>, k: nat): seq<nat> {
    if |vals| > 0 && k != |vals| - 1 && vals[|vals| - 1].len > 0
       && vals[|vals| - 1].off + ValBytes(vals[|vals| - 1].len) <= |m|
    then Put16(m, vals[|vals| - 1].off + vals[|vals| - 1].len, ItemOff(k))
    else m
  }

  /** A tile apart from the one of the last item is not touched when that one gets its new owner. */
  lemma {:induction false} ReownedApart(m: seq<nat>, vals: seq<Slot>, u: Tile, w: Tile, k: nat)
    requires TileOK(m, vals, u) && TileOK(m, vals, w) && w.item == |vals| - 1 && k < |vals|
    requires End(u) <= w.off || End(w) <= u.off
    ensures SameIn(m, Reowned(m, vals, k), u.off, End(u))
  {
  }

  lemma {:induction false} TilesApart(a: seq<Tile>, b: seq<Tile>, lo: nat, f: nat, g: nat, hi: nat, u: Tile, w: Tile)
    requires Tiled(a, lo, f) && Tiled(b, f + g, hi) && InTiles(a, b, u) && InTiles(a, b, w) && u != w
    ensures End(u) <= w.off || End(w) <= u.off
  {
    if u in a && w in a {
      var i, j :| 0 <= i < |a| && 0 <= j < |a| && a[i] == u && a[j] == w;
      if i < j { TileOrder(a, lo, f, i, j); } else { TileOrder(a, lo, f, j, i); }
    } else if u in b && w in b {
      var i, j :| 0 <= i < |b| && 0 <= j < |b| && b[i] == u && b[j] == w;
      if i < j { TileOrder(b, f + g, hi, i, j); } else { TileOrder(b, f + g, hi, j, i); }
    } else if u in a {
      var i, j :| 0 <= i < |a| && 0 <= j < |b| && a[i] == u && b[j] == w;
      TileBounds(a, lo, f, i);
      TileBounds(b, f + g, hi, j);
    } else {
      var i, j :| 0 <= i < |b| && 0 <= j < |a| && b[i] == u && a[j] == w;
      TileBounds(a, lo, f, j);
      TileBounds(b, f + g, hi, i);
    }
  }

  lemma {:induction false} TileIsOK(m: seq<nat>, vals: seq<Slot>, a: seq<Tile>, b: seq<Tile>, u: Tile)
    requires TilesOK(m, vals, a) && TilesOK(m, vals, b) && InTiles(a, b, u)
    ensures TileOK(m, vals, u)
  {
  }

  lemma {:induction false} ReownedSame(m: seq<nat>, vals: seq<Slot>, a: seq<Tile>, b: seq<Tile>,
                                       lo: nat, f: nat, g: nat, hi: nat, u: Tile, k: nat)
    requires Gapped(m, vals, a, b, lo, f, g, hi) && InTiles(a, b, u) && k < |vals| && u.item != |vals| - 1
    ensures SameIn(m, Reowned(m, vals, k), u.off, End(u)) && TileOK(m, vals, u)
  {
    hide Tiled, TileOK, HasTile, Owned, TilesOK, Put16;
    GappedIs(m, vals, a, b, lo, f, g, hi);
    TileIsOK(m, vals, a, b, u);
    if vals[|vals| - 1].len > 0 {
      var w := FindTile(vals, a, b, |vals| - 1);
      TileIsOK(m, vals, a, b, w);
      TilesApart(a, b, lo, f, g, hi, u, w);
      ReownedApart(m, vals, u, w, k);
    }
  }

  lemma {:induction false} ReownedLast(m: seq<nat>, vals: seq<Slot>, u: Tile, k: nat)
    requires TileOK(m, vals, u) && u.item == |vals| - 1 && k < |vals| - 1
    ensures Get16(Reowned(m, vals, k), End(u) - 2) == ItemOff(k) && |Reowned(m, vals, k)| == |m|
    ensures Bytes(Reowned(m, vals, k), vals[u.item]) == Bytes(m, vals[u.item])
  {
    hide Put16;
    Put16Is(m, End(u) - 2, ItemOff(k));
    BytesSame(m, Reowned(m, vals, k), vals[u.item]);
  }

  function NewLabel(u: Tile, from: nat, to: nat): Tile {
    if u.item == from then u.(item := to) else u
  }

  lemma {:induction false} ReownedTile(m: seq<nat>, vals: seq<Slot>, a: seq<Tile>, b: seq<Tile>,
                                       lo: nat, f: nat, g: nat, hi: nat, u: Tile, k: nat)
    requires Gapped(m, vals, a, b, lo, f, g, hi) && InTiles(a, b, u) && k < |vals| && vals[k].len == 0
    ensures var m', vals' := Reowned(m, vals, k), SwapRemove(vals, k);
            && TileOK(m', vals', NewLabel(u, |vals| - 1, k))
            && (0 <= u.item < |vals| ==> Bytes(m', vals[u.item]) == Bytes(m, vals[u.item]))
  {
    hide Gapped, Reowned, Bytes;
    if u.item != |vals| - 1 {
      ReownedSame(m, vals, a, b, lo, f, g, hi, u, k);
      if u.item >= 0 { BytesSame(m, Reowned(m, vals, k), vals[u.item]); }
    } else {
      GappedIs(m, vals, a, b, lo, f, g, hi);
      TileIsOK(m, vals, a, b, u);
      ReownedLast(m, vals, u, k);
    }
    RelabelOK(m, Reowned(m, vals, k), vals, u, k);
  }

  lemma {:induction false} ReownedTiles(m: seq<nat>, vals: seq<Slot>, a: seq<Tile>, b: seq<Tile>,
                                        lo: nat, f: nat, g: nat, hi: nat, k: nat)
    requires Gapped(m, vals, a, b, lo, f, g, hi) && k < |vals| && vals[k].len == 0
    ensures var m', vals', e := Reowned(m, vals, k), SwapRemove(vals, k), |vals| - 1;
            TilesOK(m', vals', Relabel(a, e, k)) && TilesOK(m', vals', Relabel(b, e, k))
  {
    hide Gapped, Reowned, TileOK, SwapRemove;
    var m', vals', e := Reowned(m, vals, k), SwapRemove(vals, k), |vals| - 1;
    forall i | 0 <= i < |a| ensures TileOK(m', vals', Relabel(a, e, k)[i]) {
      ReownedTile(m, vals, a, b, lo, f, g, hi, a[i], k);
    }
    forall i | 0 <= i < |b| ensures TileOK(m', vals', Relabel(b, e, k)[i]) {
      ReownedTile(m, vals, a, b, lo, f, g, hi, b[i], k);
    }
  }

  lemma {:induction false} ReownedValues(m: seq<nat>, vals: seq<Slot>, a: seq<Tile>, b: seq<Tile>,
                                         lo: nat, f: nat, g: nat, hi: nat, k: nat)
    requires Gapped(m, vals, a, b, lo, f, g, hi) && k < |vals| && vals[k].len == 0
    ensures ValuesOf(Reowned(m, vals, k), SwapRemove(vals, k)) == SwapRemove(ValuesOf(m, vals), k)
  {
    hide Gapped, Reowned, TileOK, Bytes;
    var m' := Reowned(m, vals, k);
    GappedIs(m, vals, a, b, lo, f, g, hi);
    forall j: nat | j < |vals| ensures Bytes(m', vals[j]) == Bytes(m, vals[j]) {
      if vals[j].len > 0 {
        var u := FindTile(vals, a, b, j);
        ReownedTile(m, vals, a, b, lo, f, g, hi, u, k);
      } else {
        NoBytes(m, m', vals[j]);
      }
    }
  }

  /** The last item takes the place of one that has no value, and its value gets its new owner. */
  lemma {:induction false} GapReowned(m: seq<nat>, vals: seq<Slot>, a: seq<Tile>, b: seq<Tile>,
                                      lo: nat, f: nat, g: nat, hi: nat, k: nat)
    requires Gapped(m, vals, a, b, lo, f, g, hi) && k < |vals| && vals[k].len == 0
    ensures var e := |vals| - 1;
            Gapped(Reowned(m, vals, k), SwapRemove(vals, k), Relabel(a, e, k), Relabel(b, e, k), lo, f, g, hi)
  {
    hide Tiled, TileOK, TilesOK, Owned, Relabel, SwapRemove, Put16;
    var e := |vals| - 1;
    GappedIs(m, vals, a, b, lo, f, g, hi);
    RelabelTiled(a, e, k, lo, f);
    RelabelTiled(b, e, k, f + g, hi);
    ReownedTiles(m, vals, a, b, lo, f, g, hi, k);
    RelabelOwned(vals, a + b, k);
    RelabelConcat(a, b, e, k);
    Put16Len(m, vals, k);
  }

  lemma {:induction false} Put16Len(m: seq<nat>, vals: seq<Slot>, k: nat)
    ensures |Reowned(m, vals, k)| == |m|
  {
  }

  // ---- which freed tile is the highest

  /** The index of the remembered freed tile, and on which side of the gap it is. */
  lemma {:induction false} LastSide(a: seq<Tile>, b: seq<Tile>, lo: nat, f: nat, g: nat, hi: nat, lastOff: nat, lastLen: nat)
    returns (i: nat)
    requires Tiled(a, lo, f) && Tiled(b, f + g, hi) && LastFree(a + b, lastOff, lastLen) && lastOff != 0 && g > 0
    ensures i < |a + b| && (a + b)[i] == Tile(lastOff, lastLen, -1) && AllUsed((a + b)[i + 1..])
    ensures if i < |a| then lastOff + lastLen <= f else lastOff >= f + g
    ensures lastOff + lastLen == f ==> i == |a| - 1
    ensures lastOff == f + g ==> i == |a|
  {
    i :| 0 <= i < |a + b| && (a + b)[i] == Tile(lastOff, lastLen, -1) && forall j :: i < j < |a + b| ==> (a + b)[j].item >= 0;
    if i < |a| {
      TileBounds(a, lo, f, i);
      if i < |a| - 1 {
        TileOrder(a, lo, f, i, |a| - 1);
        TileBounds(a, lo, f, |a| - 1);
      }
    } else {
      TileBounds(b, f + g, hi, i - |a|);
      if i > |a| {
        TileOrder(b, f + g, hi, 0, i - |a|);
        TileBounds(b, f + g, hi, 0);
      }
    }
  }

  lemma {:induction false} LastFollows(a: seq<Tile>, b: seq<Tile>, lo: nat, f: nat, g: nat, hi: nat, lastOff: nat, lastLen: nat)
    requires Tiled(a, lo, f) && Tiled(b, f + g, hi) && LastFree(a + b, lastOff, lastLen) && lastOff == f + g && g > 0
    ensures b != [] && b[0] == Tile(lastOff, lastLen, -1) && AllUsed(b[1..])
  {
    var i := LastSide(a, b, lo, f, g, hi, lastOff, lastLen);
    assert (a + b)[i + 1..] == b[1..];
  }

  lemma {:induction false} LastPrecedes(a: seq<Tile>, b: seq<Tile>, lo: nat, f: nat, g: nat, hi: nat, lastOff: nat, lastLen: nat)
    requires Tiled(a, lo, f) && Tiled(b, f + g, hi) && LastFree(a + b, lastOff, lastLen) && g > 0
    requires lastOff != 0 && lastOff + lastLen == f
    ensures a != [] && a[|a| - 1] == Tile(lastOff, lastLen, -1) && AllUsed(b)
  {
    var i := LastSide(a, b, lo, f, g, hi, lastOff, lastLen);
    assert (a + b)[i + 1..] == b;
  }

  lemma {:induction false} LastIsBelow(a: seq<Tile>, b: seq<Tile>, lo: nat, f: nat, g: nat, hi: nat, lastOff: nat, lastLen: nat)
    requires Tiled(a, lo, f) && Tiled(b, f + g, hi) && LastFree(a + b, lastOff, lastLen) && g > 0 && lastOff < f
    ensures AllUsed(b)
  {
    if lastOff == 0 {
      forall j | 0 <= j < |b| ensures b[j].item >= 0 { assert (a + b)[|a| + j] == b[j]; }
    } else {
      var i := LastSide(a, b, lo, f, g, hi, lastOff, lastLen);
      forall j | 0 <= j < |b| ensures b[j].item >= 0 { assert (a + b)[i + 1..][|a| + j - i - 1] == b[j]; }
    }
  }

  lemma {:induction false} LastIsAbove(a: seq<Tile>, t: Tile, b: seq<Tile>, lo: nat, hi: nat, lastOff: nat, lastLen: nat)
    requires Tiled(a, lo, t.off) && Tiled(b, End(t), hi) && LastFree(a + b, lastOff, lastLen) && lastOff >= t.off
    requires t.len > 0 && lastOff != 0
    ensures LastFree(a + [t] + b, lastOff, lastLen)
  {
    var i := LastSide(a, b, lo, t.off, t.len, hi, lastOff, lastLen);
    var ts := a + [t] + b;
    assert ts[i + 1] == Tile(lastOff, lastLen, -1);
    forall j | i + 1 < j < |ts| ensures ts[j].item >= 0 { assert ts[j] == (a + b)[i + 1..][j - i - 2]; }
  }

  lemma {:induction false} LastIsNew(a: seq<Tile>, t: Tile, b: seq<Tile>)
    requires t.item == -1 && t.off != 0 && AllUsed(b)
    ensures LastFree(a + [t] + b, t.off, t.len)
  {
    var ts := a + [t] + b;
    assert ts[|a|] == Tile(t.off, t.len, -1);
  }

  lemma {:induction false} LastWithMore(t: Tile, ts: seq<Tile>, lastOff: nat, lastLen: nat)
    requires LastFree(ts, lastOff, lastLen) && t.item >= 0
    ensures LastFree([t] + ts, lastOff, lastLen)
  {
    if lastOff != 0 {
      var i :| 0 <= i < |ts| && ts[i] == Tile(lastOff, lastLen, -1) && forall j :: i < j < |ts| ==> ts[j].item >= 0;
      assert ([t] + ts)[i + 1] == Tile(lastOff, lastLen, -1);
    }
  }

  lemma {:induction false} LastWithout(ts: seq<Tile>, i: nat, lastOff: nat, lastLen: nat)
    requires LastFree(ts, lastOff, lastLen) && i < |ts| && ts[i].item >= 0
    ensures LastFree(ts[..i] + ts[i + 1..], lastOff, lastLen)
  {
    var us := ts[..i] + ts[i + 1..];
    if lastOff != 0 {
      var j :| 0 <= j < |ts| && ts[j] == Tile(lastOff, lastLen, -1) && forall k :: j < k < |ts| ==> ts[k].item >= 0;
      assert us[if j < i then j else j - 1] == Tile(lastOff, lastLen, -1);
    }
  }

  /** A value that is being freed: its bytes are a gap in the tiles. */
  ghost predicate Freeing(m: seq<nat>, vals: seq<Slot>, a: seq<Tile>, b: seq<Tile>, lo: nat, f: nat, g: nat, hi: nat,
                          lastOff: nat, lastLen: nat)
  {
    Gapped(m, vals, a, b, lo, f, g, hi) && LastFree(a + b, lastOff, lastLen) && g > OWNER_BYTES && lo > 0
  }

  lemma {:induction false} FreeingIs(m: seq<nat>, vals: seq<Slot>, a: seq<Tile>, b: seq<Tile>, lo: nat, f: nat, g: nat, hi: nat,
                                     lastOff: nat, lastLen: nat)
    requires Freeing(m, vals, a, b, lo, f, g, hi, lastOff, lastLen)
    ensures 0 < lo <= f && f + g <= hi <= |m| && (lastOff == 0 ==> lastLen == 0)
  {
    FreeingBounds(m, vals, a, b, lo, f, g, hi);
  }

  /** What is left when a value has been freed. */
  ghost predicate Freed(m: seq<nat>, m': seq<nat>, vals: seq<Slot>, a: seq<Tile>, b: seq<Tile>, ts: seq<Tile>,
                        lo: nat, hi: nat, lastOff: nat, lastLen: nat)
  {
    && Heap(m', vals, ts, lo, hi) && LastFree(ts, lastOff, lastLen)
    && ValuesOf(m', vals) == ValuesOf(m, vals) && UsedLen(ts) == UsedLen(a) + UsedLen(b)
  }

  lemma {:induction false} FreeingBounds(m: seq<nat>, vals: seq<Slot>, a: seq<Tile>, b: seq<Tile>, lo: nat, f: nat, g: nat, hi: nat)
    requires Gapped(m, vals, a, b, lo, f, g, hi)
    ensures lo <= f && f + g <= hi <= |m| && (f == lo ==> a == [])
  {
    TiledSize(a, lo, f);
    TiledSize(b, f + g, hi);
  }

  lemma {:induction false} UsedWithoutFree(a: seq<Tile>)
    requires a != [] && a[|a| - 1].item < 0
    ensures UsedLen(a) == UsedLen(a[..|a| - 1])
  {
  }

  /** Free space next to the middle region joins it. */
  lemma {:induction false} FreesIntoMid(m: seq<nat>, vals: seq<Slot>, a: seq<Tile>, b: seq<Tile>, lo: nat, f: nat, g: nat, hi: nat,
                                        lastOff: nat, lastLen: nat)
    requires Freeing(m, vals, a, b, lo, f, g, hi, lastOff, lastLen) && f == lo
    ensures Freed(m, m, vals, a, b, b, lo + g, hi, lastOff, lastLen)
  {
    FreeingBounds(m, vals, a, b, lo, f, g, hi);
    assert [] + b == b;
  }

  lemma {:induction false} FreesBeforeLast(m: seq<nat>, vals: seq<Slot>, a: seq<Tile>, b: seq<Tile>, lo: nat, f: nat, g: nat, hi: nat,
                                           lastOff: nat, lastLen: nat)
    requires Freeing(m, vals, a, b, lo, f, g, hi, lastOff, lastLen) && f + g == lastOff && f > 0
    ensures f + g + lastLen <= hi <= |m| && b != []
    ensures Freed(m, Put16(m, f + g + lastLen - 2, f), vals, a, b, a + [Tile(f, g + lastLen, -1)] + b[1..], lo, hi, f, g + lastLen)
  {
    hide Gapped, Put16, ValuesOf, Tiled, UsedLen, LastFree, Heap;
    GappedIs(m, vals, a, b, lo, f, g, hi);
    LastFollows(a, b, lo, f, g, hi, lastOff, lastLen);
    GapTakesNext(m, vals, a, b, lo, f, g, hi);
    FreeingBounds(m, vals, a, b[1..], lo, f, g + lastLen, hi);
    GapIsFreed(m, vals, a, b[1..], lo, f, g + lastLen, hi);
    LastIsNew(a, Tile(f, g + lastLen, -1), b[1..]);
  }

  lemma {:induction false} FreesAfterLast(m: seq<nat>, vals: seq<Slot>, a: seq<Tile>, b: seq<Tile>, lo: nat, f: nat, g: nat, hi: nat,
                                          lastOff: nat, lastLen: nat)
    requires Freeing(m, vals, a, b, lo, f, g, hi, lastOff, lastLen) && lastOff != 0 && lastOff + lastLen == f
    ensures f + g <= hi <= |m| && a != []
    ensures Freed(m, Put16(m, f + g - 2, lastOff), vals, a, b, a[..|a| - 1] + [Tile(lastOff, g + lastLen, -1)] + b, lo, hi,
                  lastOff, g + lastLen)
  {
    hide Gapped, Put16, ValuesOf, Tiled, LastFree, Heap, UsedLen, AllUsed;
    GappedIs(m, vals, a, b, lo, f, g, hi);
    LastPrecedes(a, b, lo, f, g, hi, lastOff, lastLen);
    GapTakesFree(m, vals, a, b, lo, f, g, hi);
    UsedWithoutFree(a);
    FreeingBounds(m, vals, a[..|a| - 1], b, lo, lastOff, g + lastLen, hi);
    GapIsFreed(m, vals, a[..|a| - 1], b, lo, lastOff, g + lastLen, hi);
    LastIsNew(a[..|a| - 1], Tile(lastOff, g + lastLen, -1), b);
  }

  lemma {:induction false} FreesAlone(m: seq<nat>, vals: seq<Slot>, a: seq<Tile>, b: seq<Tile>, lo: nat, f: nat, g: nat, hi: nat,
                                      lastOff: nat, lastLen: nat)
    requires Freeing(m, vals, a, b, lo, f, g, hi, lastOff, lastLen) && f > 0
    ensures f + g <= hi <= |m|
    ensures var last := if f > lastOff then (f, g) else (lastOff, lastLen);
            Freed(m, Put16(m, f + g - 2, f), vals, a, b, a + [Tile(f, g, -1)] + b, lo, hi, last.0, last.1)
  {
    hide Gapped, Put16, ValuesOf, Tiled, UsedLen, LastFree, Heap;
    GappedIs(m, vals, a, b, lo, f, g, hi);
    FreeingBounds(m, vals, a, b, lo, f, g, hi);
    GapIsFreed(m, vals, a, b, lo, f, g, hi);
    if f > lastOff {
      LastIsBelow(a, b, lo, f, g, hi, lastOff, lastLen);
      LastIsNew(a, Tile(f, g, -1), b);
    } else {
      LastIsAbove(a, Tile(f, g, -1), b, lo, hi, lastOff, lastLen);
    }
  }

  // ---- deleting an item

  lemma {:induction false} SwapRemoveLost<T>(s: seq<T>, k: nat, x: T)
    requires k < |s|
    ensures SwapRemove(s[k := x], k) == SwapRemove(s, k)
  {
  }

  lemma {:induction false} ReownedLost(m: seq<nat>, vals: seq<Slot>, k: nat)
    requires k < |vals|
    ensures Reowned(m, vals[k := Slot(0, 0)], k) == Reowned(m, vals, k)
  {
  }

  lemma {:induction false} LostValues(m: seq<nat>, vals: seq<Slot>, k: nat)
    requires k < |vals|
    ensures ValuesOf(m, vals[k := Slot(0, 0)]) == ValuesOf(m, vals)[k := []]
  {
  }

  /** Deleting an item leaves a gap where its value was, and the last item in its place. */
  lemma {:induction false} ItemGone(m: seq<nat>, vals: seq<Slot>, ts: seq<Tile>, lo: nat, hi: nat, lastOff: nat, lastLen: nat, k: nat)
    returns (a: seq<Tile>, b: seq<Tile>)
    requires Heap(m, vals, ts, lo, hi) && LastFree(ts, lastOff, lastLen) && lo > 0 && k < |vals| && vals[k].len > 0
    ensures var m', vals' := Reowned(m, vals, k), SwapRemove(vals, k);
            && Freeing(m', vals', a, b, lo, vals[k].off, ValBytes(vals[k].len), hi, lastOff, lastLen)
            && ValuesOf(m', vals') == SwapRemove(ValuesOf(m, vals), k)
    ensures UsedLen(a) + UsedLen(b) == UsedLen(ts) - ValBytes(vals[k].len)
  {
    hide Heap, LastFree, ValuesOf, UsedLen, Gapped, SwapRemove, Relabel, Reowned, Tiled, TilesOK, Owned;
    var i := TileOfItem(m, vals, ts, lo, hi, k);
    LoseValue(m, vals, ts, lo, hi, i);
    LastWithout(ts, i, lastOff, lastLen);
    var lost, a0, b0, e := vals[k := Slot(0, 0)], ts[..i], ts[i + 1..], |vals| - 1;
    var f, g := ts[i].off, ts[i].len;
    a, b := Relabel(a0, e, k), Relabel(b0, e, k);
    GappedIs(m, lost, a0, b0, lo, f, g, hi);
    RelabelTiled(a0, e, k, lo, f);
    RelabelTiled(b0, e, k, f + g, hi);
    RelabelConcat(a0, b0, e, k);
    RelabelLast(a0 + b0, e, k, lastOff, lastLen);
    GapReowned(m, lost, a0, b0, lo, f, g, hi, k);
    ReownedValues(m, lost, a0, b0, lo, f, g, hi, k);
    SwapRemoveLost(vals, k, Slot(0, 0));
    ReownedLost(m, vals, k);
    LostValues(m, vals, k);
    SwapRemoveLost(ValuesOf(m, vals), k, []);
  }

  lemma {:induction false} EmptyItemGone(m: seq<nat>, vals: seq<Slot>, ts: seq<Tile>, lo: nat, hi: nat, lastOff: nat, lastLen: nat, k: nat)
    requires Heap(m, vals, ts, lo, hi) && LastFree(ts, lastOff, lastLen) && k < |vals| && vals[k].len == 0
    ensures var m', vals', ts' := Reowned(m, vals, k), SwapRemove(vals, k), Relabel(ts, |vals| - 1, k);
            && Heap(m', vals', ts', lo, hi) && LastFree(ts', lastOff, lastLen)
            && ValuesOf(m', vals') == SwapRemove(ValuesOf(m, vals), k) && UsedLen(ts') == UsedLen(ts)
  {
    hide LastFree, ValuesOf, UsedLen, Tiled, TilesOK, Owned, Gapped, SwapRemove, Relabel;
    var e := |vals| - 1;
    HeapIsGapped(m, vals, ts, lo, hi, 0);
    GapReowned(m, vals, [], ts, lo, lo, 0, hi, k);
    ReownedValues(m, vals, [], ts, lo, lo, 0, hi, k);
    RelabelTiled(ts, e, k, lo, hi);
    RelabelLast(ts, e, k, lastOff, lastLen);
    GapEnds(Reowned(m, vals, k), SwapRemove(vals, k), Relabel([], e, k), Relabel(ts, e, k), lo, lo, 0, hi);
  }

  // ---- sums

  lemma {:induction false} TotalUpdate(vs: seq<seq<nat>>, k: nat, v: seq<nat>)
    requires k < |vs|
    ensures TotalOf(vs[k := v]) == TotalOf(vs) - ItemLenBytes(|vs[k]|) + ItemLenBytes(|v|)
  {
    var n := |vs| - 1;
    if k == n {
      assert vs[k := v][..n] == vs[..n];
    } else {
      TotalUpdate(vs[..n], k, v);
      assert vs[k := v][..n] == vs[..n][k := v];
    }
  }

  lemma {:induction false} TotalSwapRemove(vs: seq<seq<nat>>, k: nat)
    requires k < |vs|
    ensures TotalOf(SwapRemove(vs, k)) == TotalOf(vs) - ItemLenBytes(|vs[k]|)
  {
    var n := |vs| - 1;
    if k == n { assert SwapRemove(vs, k) == vs[..n]; } else {
      TotalUpdate(vs[..n], k, vs[n]);
      assert SwapRemove(vs, k) == vs[..n][k := vs[n]];
    }
  }

  lemma {:induction false} TotalAppend(vs: seq<seq<nat>>, v: seq<nat>)
    ensures TotalOf(vs + [v]) == TotalOf(vs) + ItemLenBytes(|v|)
  {
    assert (vs + [v])[..|vs|] == vs;
  }

  /** Values fit in the block. */
  lemma {:induction false} ValueLen(m: seq<nat>, vals: seq<Slot>, ts: seq<Tile>, lo: nat, hi: nat, k: nat)
    requires Heap(m, vals, ts, lo, hi) && k < |vals|
    ensures |ValuesOf(m, vals)[k]| == vals[k].len
  {
    if vals[k].len > 0 {
      assert HasTile(ts, k);
      var i :| 0 <= i < |ts| && ts[i].item == k;
      assert TileOK(m, vals, ts[i]);
    }
  }

  lemma {:induction false} TileOfItem(m: seq<nat>, vals: seq<Slot>, ts: seq<Tile>, lo: nat, hi: nat, k: nat) returns (i: nat)
    requires Heap(m, vals, ts, lo, hi) && k < |vals| && vals[k].len > 0
    ensures i < |ts| && ts[i].item == k
  {
    assert HasTile(ts, k);
    i :| 0 <= i < |ts| && ts[i].item == k;
  }

  function Written(m: seq<nat>, off: nat, bs: seq<nat>): seq<nat>
    requires off + |bs| <= |m|
  {
    m[..off] + bs + m[off + |bs|..]
  }

  method WriteBytes(mem: array<nat>, off: nat, bs: seq<nat>)
    requires off + |bs| <= mem.Length
    modifies mem
    ensures mem[..] == Written(old(mem[..]), off, bs)
  {
    forall k | 0 <= k < |bs| {
      mem[off + k] := bs[k];
    }
  }

  /** The owner offset that ends a value: its item, or the value's own offset when it is freed. */
  method SetOwner(mem: array<nat>, off: nat, vb: nat, item: nat)
    requires vb >= 2 && off + vb <= mem.Length
    modifies mem
    ensures mem[..] == Put16(old(mem[..]), off + vb - 2, if item != 0 then item else off)
  {
    var x := if item != 0 then item else off;
    mem[off + vb - 2] := x % 256;
    mem[off + vb - 1] := x / 256;
  }

  /** Storing a value under the tiles adds it and changes nothing else. */
  lemma {:induction false} StoreValue(m: seq<nat>, vals: seq<Slot>, ts: seq<Tile>, lo: nat, hi: nat, val: seq<nat>)
    requires Heap(m, vals, ts, lo, hi) && 0 < |val| && ValBytes(|val|) <= lo
    ensures hi <= |m|  && lo <= hi
    ensures var off := lo - ValBytes(|val|);
            var m', vals', ts' := Put16(Written(m, off, val), lo - 2, ItemOff(|vals|)), vals + [Slot(off, |val|)],
                                  [Tile(off, ValBytes(|val|), |vals|)] + ts;
            && Heap(m', vals', ts', off, hi) && ValuesOf(m', vals') == ValuesOf(m, vals) + [val]
            && UsedLen(ts') == UsedLen(ts) + ValBytes(|val|)
  {
    hide ValuesOf, UsedLen, Tiled, Owned, TilesOK, Put16, Gapped;
    TiledSize(ts, lo, hi);
    var off, vb := lo - ValBytes(|val|), ValBytes(|val|);
    var w := Written(m, off, val);
    var m' := Put16(w, lo - 2, ItemOff(|vals|));
    Put16Is(w, lo - 2, ItemOff(|vals|));
    assert m'[off..off + |val|] == val;
    HeapIsGapped(m, vals, ts, lo, hi, vb);
    GapWrites(m, m', vals, [], ts, off, off, vb, hi);
    GapIsStored(m', vals, ts, off, |val|, hi);
  }

  /** Storing the value of an item that has none. */
  lemma {:induction false} FillValue(m: seq<nat>, vals: seq<Slot>, ts: seq<Tile>, lo: nat, hi: nat, k: nat, val: seq<nat>)
    requires Heap(m, vals, ts, lo, hi) && 0 < |val| && ValBytes(|val|) <= lo && k < |vals| && vals[k].len == 0
    ensures hi <= |m|  && lo <= hi
    ensures var off := lo - ValBytes(|val|);
            var m', vals', ts' := Put16(Written(m, off, val), lo - 2, ItemOff(k)), vals[k := Slot(off, |val|)],
                                  [Tile(off, ValBytes(|val|), k)] + ts;
            && Heap(m', vals', ts', off, hi) && ValuesOf(m', vals') == ValuesOf(m, vals)[k := val]
            && UsedLen(ts') == UsedLen(ts) + ValBytes(|val|)
  {
    hide ValuesOf, UsedLen, Tiled, Owned, TilesOK, Put16, Gapped;
    TiledSize(ts, lo, hi);
    var off, vb := lo - ValBytes(|val|), ValBytes(|val|);
    var w := Written(m, off, val);
    var m' := Put16(w, lo - 2, ItemOff(k));
    Put16Is(w, lo - 2, ItemOff(k));
    assert m'[off..off + |val|] == val;
    HeapIsGapped(m, vals, ts, lo, hi, vb);
    GapWrites(m, m', vals, [], ts, off, off, vb, hi);
    GapIsFilled(m', vals, ts, off, |val|, hi, k);
  }

  /** Taking a value away leaves a gap that is to be freed. */
  lemma {:induction false} ValueGone(m: seq<nat>, vals: seq<Slot>, ts: seq<Tile>, lo: nat, hi: nat, lastOff: nat, lastLen: nat, k: nat)
    returns (a: seq<Tile>, b: seq<Tile>)
    requires Heap(m, vals, ts, lo, hi) && LastFree(ts, lastOff, lastLen) && lo > 0 && k < |vals| && vals[k].len > 0
    ensures var vals' := vals[k := Slot(0, 0)];
            && Freeing(m, vals', a, b, lo, vals[k].off, ValBytes(vals[k].len), hi, lastOff, lastLen)
            && ValuesOf(m, vals') == ValuesOf(m, vals)[k := []]
    ensures UsedLen(a) + UsedLen(b) == UsedLen(ts) - ValBytes(vals[k].len)
  {
    hide Heap, LastFree, ValuesOf, UsedLen, Gapped, Tiled, TilesOK, Owned;
    var i := TileOfItem(m, vals, ts, lo, hi, k);
    LoseValue(m, vals, ts, lo, hi, i);
    LastWithout(ts, i, lastOff, lastLen);
    a, b := ts[..i], ts[i + 1..];
    LostValues(m, vals, k);
  }

  class ValueArea {
    /** The bytes of the block. */
    const mem: array<nat>
    /** Where the value area ends: leaf blocks have their hash table after it. */
    const end: nat
    var vals: seq<Slot>
    var midLen: nat
    var lastOff: nat
    var lastLen: nat
    var total: nat
    ghost var tiles: seq<Tile>

    ghost predicate Valid()
      reads this, mem
    {
      && mem.Length == BLOCK_SIZE
      && Heap(mem[..], vals, tiles, MidEnd(), end)
      && LastFree(tiles, lastOff, lastLen)
      && total == UsedLen(tiles) + ITEM_BYTES * |vals| == TotalOf(Values())
    }

    function MidEnd(): nat
      reads this
    {
      ItemOff(|vals|) + midLen
    }

    ghost function Values(): seq<seq<nat>>
      reads this, mem
    {
      ValuesOf(mem[..], vals)
    }

    constructor (end: nat)
      requires HEADER_BYTES <= end <= BLOCK_SIZE
      ensures Valid() && fresh(mem) && this.end == end && vals == [] && total == 0
      ensures midLen == end - HEADER_BYTES
    {
      mem := new nat[BLOCK_SIZE];
      this.end := end;
      vals, tiles := [], [];
      midLen, lastOff, lastLen, total := end - HEADER_BYTES, 0, 0, 0;
    }

    /** Gathers all of the free space into the middle region and keeps every value. */
    method CompactValues()
      requires Valid()
      modifies this, mem
      ensures Valid() && Values() == old(Values()) && total == old(total)
      ensures lastOff == 0 && HEADER_BYTES + total + midLen == end
    {
      hide Heap, Compacting, UsedLen, ValuesOf, Moved;
      if lastOff == 0 {
        NoneFree(mem[..], vals, tiles, MidEnd(), end);
        return;
      }
      ghost var i := CompactStarts(mem[..], vals, tiles, MidEnd(), end, lastOff, lastLen);
      hide LastFree;
      var freeOff: nat, freeLen: nat, mid := lastOff, lastLen, MidEnd();
      ghost var a, b, values, used, n := tiles[..i], tiles[i + 1..], Values(), UsedLen(tiles), |vals|;
      while freeOff > mid
        invariant Compacting(mem[..], vals, a, b, mid, freeOff, freeLen, end, values, used)
        invariant |vals| == n && midLen == old(midLen) && total == old(total)
        decreases freeOff
      {
        CompactFree(mem[..], vals, a, b, mid, freeOff, freeLen, end, values, used);
        CompactUsed(mem[..], vals, a, b, mid, freeOff, freeLen, end, values, used);
        var own := mem[freeOff - 2] + 256 * mem[freeOff - 1];
        a := a[..|a| - 1];
        if own >= ItemOff(|vals|) {
          var vb := freeOff - own;
          freeOff := freeOff - vb;
          freeLen := freeLen + vb;
        } else {
          var item := (own - HEADER_BYTES) / ITEM_BYTES;
          var from, vb := vals[item].off, ValBytes(vals[item].len);
          var to := freeOff + freeLen - vb;
          CopyBytes(mem, to, from, vb);
          b := [Tile(to, vb, item)] + b;
          freeOff := from;
          vals := vals[item := Slot(to, vals[item].len)];
        }
      }
      CompactEnds(mem[..], vals, a, b, mid, freeOff, freeLen, end, values, used);
      midLen := midLen + freeLen;
      lastOff := 0;
      lastLen := 0;
      tiles := b;
    }

    /** Blocks that are less than 80% full don't need to split: compaction finds room for any item. */
    method MakeRoom(valLen: nat) returns (room: bool)
      requires Valid() && valLen <= MAX_VAL_LEN && end >= LEAF_END
      modifies this, mem
      ensures Valid() && Values() == old(Values()) && total == old(total)
      ensures room <==> old(midLen) >= ItemLenBytes(valLen) || FullPct(total) < 80
      ensures room ==> midLen >= ItemLenBytes(valLen)
      ensures !room || old(midLen) >= ItemLenBytes(valLen) ==> midLen == old(midLen) && vals == old(vals)
    {
      hide Heap, UsedLen, ValuesOf, TotalOf, LastFree;
      if midLen >= ItemLenBytes(valLen) {
        return true;
      }
      if FullPct(total) < 80 {
        CompactValues();
        return true;
      }
      return false;
    }

    method CreateItem(val: seq<nat>)
      requires Valid() && midLen >= ItemLenBytes(|val|)
      modifies this, mem
      ensures Valid() && Values() == old(Values()) + [val]
      ensures vals == old(vals) + [Slot(if val == [] then 0 else MidEnd(), |val|)]
      ensures midLen == old(midLen) - ItemLenBytes(|val|) && total == old(total) + ItemLenBytes(|val|)
    {
      hide Heap, UsedLen, ValuesOf, Put16, Written, TotalOf, LastFree;
      TotalAppend(Values(), val);
      midLen := midLen - ITEM_BYTES;
      var item := |vals|;
      if |val| == 0 {
        StoreNothing(mem[..], vals, tiles, ItemOff(item + 1) + midLen, end);
        vals := vals + [Slot(0, 0)];
      } else {
        StoreValue(mem[..], vals, tiles, ItemOff(item + 1) + midLen, end, val);
        var vb := ValBytes(|val|);
        var valOff := ItemOff(item + 1) + midLen - vb;
        midLen := midLen - vb;
        WriteBytes(mem, valOff, val);
        SetOwner(mem, valOff, vb, ItemOff(item));
        LastWithMore(Tile(valOff, vb, item), tiles, lastOff, lastLen);
        tiles := [Tile(valOff, vb, item)] + tiles;
        vals := vals + [Slot(valOff, |val|)];
      }
      total := total + ItemLenBytes(|val|);
    }

    /** Frees the bytes of a value whose item is already gone. */
    method DeleteValue(valOff: nat, valLen: nat, ghost a: seq<Tile>, ghost b: seq<Tile>)
      requires valLen > 0 && mem.Length == BLOCK_SIZE
      requires Freeing(mem[..], vals, a, b, MidEnd(), valOff, ValBytes(valLen), end, lastOff, lastLen)
      modifies `midLen, `lastOff, `lastLen, `tiles, mem
      ensures Heap(mem[..], vals, tiles, MidEnd(), end) && LastFree(tiles, lastOff, lastLen)
      ensures Values() == old(Values()) && UsedLen(tiles) == UsedLen(a) + UsedLen(b)
      ensures midLen == old(midLen) + if valOff == old(MidEnd()) then ValBytes(valLen) else 0
    {
      hide Freeing, Heap, LastFree, ValuesOf, UsedLen, Put16;
      ghost var m, lo := mem[..], MidEnd();
      var freeOff, freeLen, isLast := valOff, ValBytes(valLen), false;
      FreeingIs(m, vals, a, b, lo, valOff, freeLen, end, lastOff, lastLen);
      if MidEnd() == freeOff {
        FreesIntoMid(m, vals, a, b, lo, valOff, freeLen, end, lastOff, lastLen);
        midLen := midLen + freeLen;
        tiles := b;
        return;
      }
      if freeOff + freeLen == lastOff {
        FreesBeforeLast(m, vals, a, b, lo, valOff, freeLen, end, lastOff, lastLen);
        freeLen := freeLen + lastLen;
        isLast := true;
        tiles := a + [Tile(freeOff, freeLen, -1)] + b[1..];
      } else if lastOff + lastLen == freeOff {
        FreesAfterLast(m, vals, a, b, lo, valOff, freeLen, end, lastOff, lastLen);
        freeOff := lastOff;
        freeLen := freeLen + lastLen;
        isLast := true;
        tiles := a[..|a| - 1] + [Tile(freeOff, freeLen, -1)] + b;
      } else {
        FreesAlone(m, vals, a, b, lo, valOff, freeLen, end, lastOff, lastLen);
        isLast := freeOff > lastOff;
        tiles := a + [Tile(freeOff, freeLen, -1)] + b;
      }
      SetOwner(mem, freeOff, freeLen, 0);
      if isLast {
        lastOff := freeOff;
        lastLen := freeLen;
      }
    }

    /** The middle region with a value's bytes, when they are right above it. */
    function RoomWithout(k: nat): nat
      reads this
      requires k < |vals|
    {
      midLen + if vals[k].len > 0 && vals[k].off == MidEnd() then ValBytes(vals[k].len) else 0
    }

    /** Stores the value of an item that has none under the others. */
    method InsertValue(k: nat, val: seq<nat>)
      requires mem.Length == BLOCK_SIZE && k < |vals| && vals[k] == Slot(0, 0) && midLen >= ValBytes(|val|)
      requires Heap(mem[..], vals, tiles, MidEnd(), end) && LastFree(tiles, lastOff, lastLen)
      modifies `vals, `midLen, `tiles, mem
      ensures Heap(mem[..], vals, tiles, MidEnd(), end) && LastFree(tiles, lastOff, lastLen)
      ensures Values() == old(Values())[k := val] && UsedLen(tiles) == UsedLen(old(tiles)) + ValBytes(|val|)
      ensures vals == old(vals)[k := Slot(if val == [] then 0 else MidEnd(), |val|)] && midLen == old(midLen) - ValBytes(|val|)
    {
      hide Heap, LastFree, ValuesOf, UsedLen, Put16, Written;
      if |val| == 0 {
        NoValue(mem[..], vals, tiles, MidEnd(), end, k);
        assert vals[k := Slot(0, 0)] == vals;
        return;
      }
      FillValue(mem[..], vals, tiles, MidEnd(), end, k, val);
      var vb := ValBytes(|val|);
      var valOff := MidEnd() - vb;
      midLen := midLen - vb;
      WriteBytes(mem, valOff, val);
      SetOwner(mem, valOff, vb, ItemOff(k));
      LastWithMore(Tile(valOff, vb, k), tiles, lastOff, lastLen);
      tiles := [Tile(valOff, vb, k)] + tiles;
      vals := vals[k := Slot(valOff, |val|)];
    }

    /** Frees the value of an item and stores another one for it. */
    method UpdateValue(k: nat, val: seq<nat>)
      requires Valid() && k < |vals| && RoomWithout(k) >= ValBytes(|val|)
      modifies this, mem
      ensures Valid() && Values() == old(Values())[k := val]
      ensures vals == old(vals)[k := Slot(if val == [] then 0 else MidEnd(), |val|)]
      ensures midLen == old(RoomWithout(k)) - ValBytes(|val|)
      ensures total + ItemLenBytes(old(vals)[k].len) == old(total) + ItemLenBytes(|val|)
    {
      hide Heap, LastFree, ValuesOf, UsedLen, TotalOf, Freeing;
      ghost var values := Values();
      ValueLen(mem[..], vals, tiles, MidEnd(), end, k);
      TotalUpdate(values, k, val);
      TotalHas(values, k);
      assert values[k := []][k := val] == values[k := val];
      var off, len := vals[k].off, vals[k].len;
      total := total + ValBytes(|val|) - ValBytes(len);
      if len > 0 {
        ghost var a, b := ValueGone(mem[..], vals, tiles, MidEnd(), end, lastOff, lastLen, k);
        vals := vals[k := Slot(0, 0)];
        DeleteValue(off, len, a, b);
      } else {
        NoValue(mem[..], vals, tiles, MidEnd(), end, k);
        vals := vals[k := Slot(0, 0)];
      }
      InsertValue(k, val);
    }

    /** Deletes an item: the last item takes its place in the item array and its value is freed. */
    method DeleteItem(k: nat)
      requires Valid() && k < |vals|
      modifies this, mem
      ensures Valid() && Values() == SwapRemove(old(Values()), k) && vals == SwapRemove(old(vals), k)
      ensures total == old(total) - ItemLenBytes(|old(Values())[k]|)
      ensures midLen == old(midLen) + ITEM_BYTES + if old(vals)[k].off == old(MidEnd()) then ValBytes(old(vals)[k].len) else 0
    {
      hide Heap, LastFree, ValuesOf, UsedLen, TotalOf, Freeing, Relabel, Put16;
      ValueLen(mem[..], vals, tiles, MidEnd(), end, k);
      TotalSwapRemove(Values(), k);
      var valOff, valLen, e := vals[k].off, vals[k].len, |vals| - 1;
      ghost var a, b;
      if valLen > 0 {
        a, b := ItemGone(mem[..], vals, tiles, MidEnd(), end, lastOff, lastLen, k);
      } else {
        EmptyItemGone(mem[..], vals, tiles, MidEnd(), end, lastOff, lastLen, k);
        tiles := Relabel(tiles, e, k);
      }
      if vals[e].len > 0 { MovedFits(mem[..], vals, old(tiles), MidEnd(), end, e); }
      midLen := midLen + ITEM_BYTES;
      total := total - ItemLenBytes(valLen);
      if e != k {
        if vals[e].len > 0 {
          SetOwner(mem, vals[e].off, ValBytes(vals[e].len), ItemOff(k));
        }
        vals := vals[k := vals[e]];
      }
      vals := vals[..e];
      if valLen > 0 {
        DeleteValue(valOff, valLen, a, b);
      }
    }
  }

  lemma {:induction false} TotalHas(vs: seq<seq<nat>>, k: nat)
    requires k < |vs|
    ensures TotalOf(vs) >= ItemLenBytes(|vs[k]|)
  {
    if k < |vs| - 1 { TotalHas(vs[..|vs| - 1], k); }
  }

  /** Where the value of an item without one would be does not matter. */
  lemma {:induction false} NoValue(m: seq<nat>, vals: seq<Slot>, ts: seq<Tile>, lo: nat, hi: nat, k: nat)
    requires Heap(m, vals, ts, lo, hi) && k < |vals| && vals[k].len == 0
    ensures Heap(m, vals[k := Slot(0, 0)], ts, lo, hi) && ValuesOf(m, vals[k := Slot(0, 0)]) == ValuesOf(m, vals)[k := []]
  {
    hide Tiled, ValuesOf;
    forall i | 0 <= i < |ts| ensures TileOK(m, vals[k := Slot(0, 0)], ts[i]) { assert TileOK(m, vals, ts[i]); }
    LostValues(m, vals, k);
  }

  lemma {:induction false} MovedFits(m: seq<nat>, vals: seq<Slot>, ts: seq<Tile>, lo: nat, hi: nat, k: nat)
    requires Heap(m, vals, ts, lo, hi) && k < |vals| && vals[k].len > 0
    ensures vals[k].off + ValBytes(vals[k].len) <= |m|
  {
    var i := TileOfItem(m, vals, ts, lo, hi, k);
    assert TileOK(m, vals, ts[i]);
  }
}
