/**
  The values of a block. Items grow up from the header, values grow down from
  the end, and the free region is between them. Each value ends with the offset
  of its item; a freed value ends with its own offset. Values and freed values
  tile the space above the middle free region.
*/
module LeafValues {
  const BLOCK_SIZE: nat := 65536
  const HEADER_BYTES: nat := 45
  const ITEM_BYTES: nat := 38
  const OWNER_BYTES: nat := 2
  const MAX_VAL_LEN: nat := 896

  function ValBytes(len: nat): nat {
    len + if len != 0 then OWNER_BYTES else 0
  }

  function ItemLenBytes(len: nat): nat {
    ITEM_BYTES + ValBytes(len)
  }

  function ItemOff(i: nat): nat {
    HEADER_BYTES + i * ITEM_BYTES
  }

  function Get16(m: seq<nat>, off: nat): nat
    requires off + 2 <= |m|
  {
    m[off] + 256 * m[off + 1]
  }

  function Put16(m: seq<nat>, off: nat, x: nat): seq<nat>
    requires off + 2 <= |m|
  {
    m[off := x % 256][off + 1 := x / 256]
  }

  /** Where an item's value is. */
  datatype Slot = Slot(off: nat, len: nat)

  /** A stretch of the value area: the value of an item, or freed when `item` is negative. */
  datatype Tile = Tile(off: nat, len: nat, item: int)

  function End(t: Tile): nat {
    t.off + t.len
  }

  /** Tiles follow each other from `lo` to `hi`. */
  ghost predicate Tiled(ts: seq<Tile>, lo: nat, hi: nat) {
    if ts == [] then
      lo == hi
    else
      var t := ts[|ts| - 1];
      t.len > OWNER_BYTES && lo <= t.off && End(t) == hi && Tiled(ts[..|ts| - 1], lo, t.off)
  }

  /** How a tile is found in memory and in its item. */
  ghost predicate TileOK(m: seq<nat>, vals: seq<Slot>, t: Tile) {
    && t.len > OWNER_BYTES && End(t) <= |m|
    && (t.item < 0 ==> Get16(m, End(t) - 2) == t.off)
    && (t.item >= 0 ==> t.item < |vals| && vals[t.item] == Slot(t.off, t.len - OWNER_BYTES)
                        && Get16(m, End(t) - 2) == ItemOff(t.item))
  }

  ghost predicate TilesOK(m: seq<nat>, vals: seq<Slot>, ts: seq<Tile>) {
    forall i :: 0 <= i < |ts| ==> TileOK(m, vals, ts[i])
  }

  ghost predicate HasTile(ts: seq<Tile>, item: nat) {
    exists i :: 0 <= i < |ts| && ts[i].item == item
  }

  ghost predicate Owned(vals: seq<Slot>, ts: seq<Tile>) {
    forall k :: 0 <= k < |vals| && vals[k].len > 0 ==> HasTile(ts, k)
  }

  /** The highest freed tile is remembered; zero says that there is none. */
  ghost predicate LastFree(ts: seq<Tile>, lastOff: nat, lastLen: nat) {
    if lastOff == 0 then
      lastLen == 0 && forall i :: 0 <= i < |ts| ==> ts[i].item >= 0
    else
      exists i :: 0 <= i < |ts| && ts[i] == Tile(lastOff, lastLen, -1) && forall j :: i < j < |ts| ==> ts[j].item >= 0
  }

  ghost function UsedLen(ts: seq<Tile>): nat {
    if ts == [] then 0 else UsedLen(ts[..|ts| - 1]) + if ts[|ts| - 1].item >= 0 then ts[|ts| - 1].len else 0
  }

  // ---- tilings

  lemma {:induction false} TileBounds(ts: seq<Tile>, lo: nat, hi: nat, i: nat)
    requires Tiled(ts, lo, hi) && i < |ts|
    ensures lo <= ts[i].off && End(ts[i]) <= hi && ts[i].len > OWNER_BYTES
  {
    if i < |ts| - 1 { TileBounds(ts[..|ts| - 1], lo, ts[|ts| - 1].off, i); }
  }

  lemma {:induction false} TileOrder(ts: seq<Tile>, lo: nat, hi: nat, i: nat, j: nat)
    requires Tiled(ts, lo, hi) && i < j < |ts|
    ensures End(ts[i]) <= ts[j].off
  {
    var us := ts[..|ts| - 1];
    if j == |ts| - 1 { TileBounds(us, lo, ts[j].off, i); } else { TileOrder(us, lo, ts[|ts| - 1].off, i, j); }
  }

  lemma {:induction false} TiledJoin(a: seq<Tile>, b: seq<Tile>, lo: nat, mid: nat, hi: nat)
    requires Tiled(a, lo, mid) && Tiled(b, mid, hi)
    ensures Tiled(a + b, lo, hi) && lo <= mid <= hi && UsedLen(a + b) == UsedLen(a) + UsedLen(b)
  {
    if b == [] {
      assert a + b == a;
      if a != [] { TileBounds(a, lo, mid, 0); }
    } else {
      var t := b[|b| - 1];
      TiledJoin(a, b[..|b| - 1], lo, mid, t.off);
      assert (a + b)[..|a + b| - 1] == a + b[..|b| - 1];
    }
  }

  lemma {:induction false} TiledSplit(ts: seq<Tile>, lo: nat, hi: nat, i: nat)
    requires Tiled(ts, lo, hi) && i < |ts|
    ensures Tiled(ts[..i], lo, ts[i].off) && Tiled(ts[i + 1..], End(ts[i]), hi)
    ensures UsedLen(ts) == UsedLen(ts[..i]) + UsedLen(ts[i + 1..]) + if ts[i].item >= 0 then ts[i].len else 0
  {
    if i < |ts| - 1 {
      var us := ts[..|ts| - 1];
      TiledSplit(us, lo, ts[|ts| - 1].off, i);
      assert us[..i] == ts[..i] && us[i + 1..] == ts[i + 1..|ts| - 1];
      assert ts[i + 1..][..|ts| - i - 2] == ts[i + 1..|ts| - 1];
    }
  }

  lemma {:induction false} TiledOne(t: Tile)
    requires t.len > OWNER_BYTES
    ensures Tiled([t], t.off, End(t)) && UsedLen([t]) == if t.item >= 0 then t.len else 0
  {
    assert [t][..0] == [];
  }

  /** A tile is known by where it starts or ends. */
  lemma {:induction false} OneTile(ts: seq<Tile>, lo: nat, hi: nat, i: nat, j: nat)
    requires Tiled(ts, lo, hi) && i < |ts| && j < |ts|
    ensures ts[i].off == ts[j].off ==> i == j
    ensures End(ts[i]) == ts[j].off ==> j == i + 1
  {
    if i < j { TileOrder(ts, lo, hi, i, j); }
    if j < i { TileOrder(ts, lo, hi, j, i); }
    TileBounds(ts, lo, hi, i);
    TileBounds(ts, lo, hi, j);
    if i + 1 < j {
      TileOrder(ts, lo, hi, i, i + 1);
      TileBounds(ts, lo, hi, i + 1);
      TileOrder(ts, lo, hi, i + 1, j);
    }
  }

  // ---- memory

  ghost predicate SameIn(m: seq<nat>, m': seq<nat>, lo: nat, hi: nat) {
    |m| == |m'| && forall x :: lo <= x < hi && x < |m| ==> m[x] == m'[x]
  }

  function Bytes(m: seq<nat>, s: Slot): seq<nat> {
    if s.off + s.len <= |m| then m[s.off..s.off + s.len] else []
  }

  /** The value of every item. */
  function ValuesOf(m: seq<nat>, vals: seq<Slot>): (values: seq<seq<nat>>)
    ensures |values| == |vals|
  {
    seq(|vals|, k requires 0 <= k < |vals| => Bytes(m, vals[k]))
  }

  function TotalOf(values: seq<seq<nat>>): nat {
    if values == [] then 0 else TotalOf(values[..|values| - 1]) + ItemLenBytes(|values[|values| - 1]|)
  }

  function Moved(m: seq<nat>, to: nat, from: nat, n: nat): seq<nat>
    requires to + n <= |m| && from + n <= |m|
  {
    m[..to] + m[from..from + n] + m[to + n..]
  }

  lemma {:induction false} TileSame(m: seq<nat>, m': seq<nat>, vals: seq<Slot>, t: Tile)
    requires TileOK(m, vals, t) && SameIn(m, m', t.off, End(t))
    ensures TileOK(m', vals, t)
  {
  }

  lemma {:induction false} BytesSame(m: seq<nat>, m': seq<nat>, s: Slot)
    requires |m| == |m'| && (s.len > 0 ==> SameIn(m, m', s.off, s.off + s.len))
    ensures Bytes(m, s) == Bytes(m', s)
  {
  }

  lemma {:induction false} NoBytes(m: seq<nat>, m': seq<nat>, s: Slot)
    requires s.len == 0
    ensures Bytes(m, s) == Bytes(m', s)
  {
  }

  /** The tiles `a`, a gap of `g` bytes from `f`, then the tiles `b`. */
  ghost predicate Gapped(m: seq<nat>, vals: seq<Slot>, a: seq<Tile>, b: seq<Tile>, lo: nat, f: nat, g: nat, hi: nat) {
    && hi <= |m| && Tiled(a, lo, f) && Tiled(b, f + g, hi)
    && TilesOK(m, vals, a) && TilesOK(m, vals, b) && Owned(vals, a + b)
  }

  lemma {:induction false} GappedIs(m: seq<nat>, vals: seq<Slot>, a: seq<Tile>, b: seq<Tile>, lo: nat, f: nat, g: nat, hi: nat)
    requires Gapped(m, vals, a, b, lo, f, g, hi)
    ensures hi <= |m| && Tiled(a, lo, f) && Tiled(b, f + g, hi)
    ensures TilesOK(m, vals, a) && TilesOK(m, vals, b) && Owned(vals, a + b)
  {
  }

  lemma {:induction false} HasTileIn(a: seq<Tile>, b: seq<Tile>, k: nat)
    ensures HasTile(a + b, k) <==> HasTile(a, k) || HasTile(b, k)
  {
    if HasTile(a, k) {
      var i :| 0 <= i < |a| && a[i].item == k;
      assert (a + b)[i].item == k;
    }
    if HasTile(b, k) {
      var i :| 0 <= i < |b| && b[i].item == k;
      assert (a + b)[|a| + i].item == k;
    }
  }

  ghost predicate InTiles(a: seq<Tile>, b: seq<Tile>, u: Tile) {
    u in a || u in b
  }

  lemma {:induction false} FindTile(vals: seq<Slot>, a: seq<Tile>, b: seq<Tile>, k: nat) returns (u: Tile)
    requires Owned(vals, a + b) && k < |vals| && vals[k].len > 0
    ensures InTiles(a, b, u) && u.item == k
  {
    assert HasTile(a + b, k);
    var i :| 0 <= i < |a + b| && (a + b)[i].item == k;
    u := (a + b)[i];
  }

  /** Compaction takes a freed tile into the gap. */
  lemma {:induction false} GapTakesFree(m: seq<nat>, vals: seq<Slot>, a: seq<Tile>, b: seq<Tile>, lo: nat, f: nat, g: nat, hi: nat)
    requires Gapped(m, vals, a, b, lo, f, g, hi) && a != [] && a[|a| - 1].item < 0
    ensures var t := a[|a| - 1]; Gapped(m, vals, a[..|a| - 1], b, lo, t.off, g + t.len, hi)
  {
    var a', t := a[..|a| - 1], a[|a| - 1];
    forall k | 0 <= k < |vals| && vals[k].len > 0 ensures HasTile(a' + b, k) {
      assert a == a' + [t];
      HasTileIn(a, b, k);
      HasTileIn(a', [t], k);
      HasTileIn(a', b, k);
    }
  }

  // Where compaction puts the last value before the gap, and what that does to memory and to its item.

  function ShiftTile(t: Tile, f: nat, g: nat): Tile {
    if t.len <= f + g then t.(off := f + g - t.len) else t
  }

  function ShiftMem(m: seq<nat>, t: Tile, f: nat, g: nat): seq<nat> {
    if t.len <= f + g <= |m| && End(t) <= |m| then Moved(m, f + g - t.len, t.off, t.len) else m
  }

  function ShiftVals(vals: seq<Slot>, t: Tile, f: nat, g: nat): seq<Slot> {
    if 0 <= t.item < |vals| && OWNER_BYTES <= t.len <= f + g then
      vals[t.item := Slot(f + g - t.len, t.len - OWNER_BYTES)]
    else
      vals
  }

  /** The last tile before the gap is a value. */
  ghost predicate CanShift(m: seq<nat>, vals: seq<Slot>, a: seq<Tile>, t: Tile, b: seq<Tile>, lo: nat, f: nat, g: nat, hi: nat) {
    Gapped(m, vals, a + [t], b, lo, f, g, hi) && t.item >= 0 && f + g <= hi
  }

  lemma {:induction false} CanShiftIs(m: seq<nat>, vals: seq<Slot>, a: seq<Tile>, t: Tile, b: seq<Tile>,
                                      lo: nat, f: nat, g: nat, hi: nat)
    requires CanShift(m, vals, a, t, b, lo, f, g, hi)
    ensures Tiled(a, lo, t.off) && End(t) == f && TileOK(m, vals, t) && Tiled(b, f + g, hi) && hi <= |m|
    ensures t.item >= 0 && f + g <= hi && lo <= t.off && Owned(vals, a + [t] + b) && UsedLen(a + [t]) == UsedLen(a) + t.len
  {
    var s := a + [t];
    assert s[|s| - 1] == t && s[..|s| - 1] == a;
    assert TileOK(m, vals, s[|a|]);
  }

  lemma {:induction false} ApartFromLast(m: seq<nat>, vals: seq<Slot>, a: seq<Tile>, t: Tile, b: seq<Tile>,
                                         lo: nat, f: nat, g: nat, hi: nat, u: Tile)
    requires CanShift(m, vals, a, t, b, lo, f, g, hi) && InTiles(a, b, u)
    ensures (End(u) <= t.off || f + g <= u.off) && TileOK(m, vals, u)
  {
    CanShiftIs(m, vals, a, t, b, lo, f, g, hi);
    if u in a {
      var i :| 0 <= i < |a| && a[i] == u;
      TileBounds(a, lo, t.off, i);
      assert (a + [t])[i] == u;
    } else {
      var i :| 0 <= i < |b| && b[i] == u;
      TileBounds(b, f + g, hi, i);
    }
  }

  lemma {:induction false} MovedElsewhere(m: seq<nat>, to: nat, from: nat, n: nat, lo: nat, hi: nat)
    requires to + n <= |m| && from + n <= |m| && (hi <= to || to + n <= lo)
    ensures SameIn(m, Moved(m, to, from, n), lo, hi)
  {
  }

  lemma {:induction false} MovedAt(m: seq<nat>, to: nat, from: nat, n: nat)
    requires to + n <= |m| && from + n <= |m|
    ensures |Moved(m, to, from, n)| == |m| && forall x :: to <= x < to + n ==> Moved(m, to, from, n)[x] == m[x - to + from]
  {
  }

  /** A value that is moved is still the value of its item. */
  lemma {:induction false} MovedTileOK(m: seq<nat>, vals: seq<Slot>, t: Tile, to: nat)
    requires TileOK(m, vals, t) && t.item >= 0 && to + t.len <= |m|
    ensures var m', s := Moved(m, to, t.off, t.len), Slot(to, t.len - OWNER_BYTES);
            TileOK(m', vals[t.item := s], t.(off := to)) && Bytes(m', s) == Bytes(m, vals[t.item]) && |m'| == |m|
  {
    hide Moved;
    var m', s := Moved(m, to, t.off, t.len), Slot(to, t.len - OWNER_BYTES);
    MovedAt(m, to, t.off, t.len);
    assert m'[to..to + s.len] == m[t.off..t.off + s.len];
  }

  /** Compaction moves a value to the end of the gap, which keeps every other tile and value. */
  lemma {:induction false} ShiftKeepsOther(m: seq<nat>, vals: seq<Slot>, a: seq<Tile>, t: Tile, b: seq<Tile>,
                                           lo: nat, f: nat, g: nat, hi: nat, u: Tile)
    requires CanShift(m, vals, a, t, b, lo, f, g, hi) && InTiles(a, b, u)
    ensures TileOK(ShiftMem(m, t, f, g), ShiftVals(vals, t, f, g), u) && u.item != t.item
    ensures 0 <= u.item < |vals| ==> Bytes(ShiftMem(m, t, f, g), vals[u.item]) == Bytes(m, vals[u.item])
  {
    hide CanShift, Moved, Owned, Tiled, UsedLen, Bytes, SameIn;
    CanShiftIs(m, vals, a, t, b, lo, f, g, hi);
    ApartFromLast(m, vals, a, t, b, lo, f, g, hi, u);
    MovedElsewhere(m, f + g - t.len, t.off, t.len, u.off, End(u));
    TileSame(m, ShiftMem(m, t, f, g), vals, u);
    if u.item >= 0 { BytesSame(m, ShiftMem(m, t, f, g), vals[u.item]); }
  }

  lemma {:induction false} ShiftKeepsIt(m: seq<nat>, vals: seq<Slot>, a: seq<Tile>, t: Tile, b: seq<Tile>,
                                        lo: nat, f: nat, g: nat, hi: nat)
    requires CanShift(m, vals, a, t, b, lo, f, g, hi)
    ensures t.item < |vals| && TileOK(ShiftMem(m, t, f, g), ShiftVals(vals, t, f, g), ShiftTile(t, f, g))
    ensures Bytes(ShiftMem(m, t, f, g), ShiftVals(vals, t, f, g)[t.item]) == Bytes(m, vals[t.item])
    ensures |ShiftMem(m, t, f, g)| == |m|
  {
    hide CanShift, Gapped, Owned, Tiled, UsedLen, Bytes, Moved;
    CanShiftIs(m, vals, a, t, b, lo, f, g, hi);
    MovedTileOK(m, vals, t, f + g - t.len);
  }

  lemma {:induction false} ShiftKeepsValues(m: seq<nat>, vals: seq<Slot>, a: seq<Tile>, t: Tile, b: seq<Tile>,
                                            lo: nat, f: nat, g: nat, hi: nat)
    requires CanShift(m, vals, a, t, b, lo, f, g, hi)
    ensures ValuesOf(ShiftMem(m, t, f, g), ShiftVals(vals, t, f, g)) == ValuesOf(m, vals)
  {
    hide CanShift, Bytes, ShiftMem, Tiled, UsedLen, Owned;
    var m', vals' := ShiftMem(m, t, f, g), ShiftVals(vals, t, f, g);
    CanShiftIs(m, vals, a, t, b, lo, f, g, hi);
    forall k: nat | k < |vals| ensures Bytes(m', vals'[k]) == Bytes(m, vals[k]) {
      if k == t.item {
        ShiftKeepsIt(m, vals, a, t, b, lo, f, g, hi);
      } else if vals[k].len > 0 {
        var u := FindTile(vals, a + [t], b, k);
        ShiftKeepsOther(m, vals, a, t, b, lo, f, g, hi, u);
      } else {
        NoBytes(m, m', vals[k]);
      }
    }
  }

  lemma {:induction false} ShiftKeepsTiles(m: seq<nat>, vals: seq<Slot>, a: seq<Tile>, t: Tile, b: seq<Tile>,
                                           lo: nat, f: nat, g: nat, hi: nat)
    requires CanShift(m, vals, a, t, b, lo, f, g, hi)
    ensures var m', vals' := ShiftMem(m, t, f, g), ShiftVals(vals, t, f, g);
            TilesOK(m', vals', a) && TilesOK(m', vals', [ShiftTile(t, f, g)] + b) && |m'| == |m|
  {
    hide CanShift, TileOK, ShiftMem, ShiftVals, ShiftTile;
    var m', vals', b' := ShiftMem(m, t, f, g), ShiftVals(vals, t, f, g), [ShiftTile(t, f, g)] + b;
    ShiftKeepsIt(m, vals, a, t, b, lo, f, g, hi);
    forall i | 0 <= i < |a| ensures TileOK(m', vals', a[i]) { ShiftKeepsOther(m, vals, a, t, b, lo, f, g, hi, a[i]); }
    forall i | 0 <= i < |b'| ensures TileOK(m', vals', b'[i]) {
      if i > 0 { ShiftKeepsOther(m, vals, a, t, b, lo, f, g, hi, b[i - 1]); }
    }
  }

  lemma {:induction false} ShiftKeepsOwned(vals: seq<Slot>, a: seq<Tile>, t: Tile, b: seq<Tile>, f: nat, g: nat)
    requires Owned(vals, a + [t] + b) && 0 <= t.item < |vals| && vals[t.item].len > 0
    ensures Owned(ShiftVals(vals, t, f, g), a + ([ShiftTile(t, f, g)] + b))
  {
    var vals', t' := ShiftVals(vals, t, f, g), ShiftTile(t, f, g);
    forall k | 0 <= k < |vals'| && vals'[k].len > 0 ensures HasTile(a + ([t'] + b), k) {
      assert vals[k].len > 0;
      HasTileIn(a, [t], k);
      HasTileIn(a + [t], b, k);
      HasTileIn([t'], b, k);
      HasTileIn(a, [t'] + b, k);
      assert t.item == k ==> [t'][0].item == k;
    }
  }

  /** One move of the compaction: the gap goes down past the value. */
  lemma {:induction false} GapMoves(m: seq<nat>, vals: seq<Slot>, a: seq<Tile>, t: Tile, b: seq<Tile>,
                                    lo: nat, f: nat, g: nat, hi: nat)
    requires CanShift(m, vals, a, t, b, lo, f, g, hi)
    ensures Gapped(ShiftMem(m, t, f, g), ShiftVals(vals, t, f, g), a, [ShiftTile(t, f, g)] + b, lo, t.off, g, hi)
    ensures UsedLen([ShiftTile(t, f, g)] + b) == UsedLen(b) + t.len
  {
    hide CanShift, Tiled, UsedLen, Owned, ShiftMem, ShiftVals, TilesOK, HasTile;
    CanShiftIs(m, vals, a, t, b, lo, f, g, hi);
    var t' := ShiftTile(t, f, g);
    TiledOne(t');
    TiledJoin([t'], b, t'.off, f + g, hi);
    ShiftKeepsTiles(m, vals, a, t, b, lo, f, g, hi);
    ShiftKeepsOwned(vals, a, t, b, f, g);
  }

  lemma {:induction false} LastTile(ts: seq<Tile>, lo: nat, hi: nat)
    requires Tiled(ts, lo, hi) && ts != []
    ensures var t := ts[|ts| - 1]; Tiled(ts[..|ts| - 1], lo, t.off) && End(t) == hi && t.len > OWNER_BYTES && lo <= t.off
    ensures ts == ts[..|ts| - 1] + [ts[|ts| - 1]]
  {
  }

  ghost predicate Heap(m: seq<nat>, vals: seq<Slot>, ts: seq<Tile>, lo: nat, hi: nat) {
    hi <= |m| && Tiled(ts, lo, hi) && TilesOK(m, vals, ts) && Owned(vals, ts)
  }

  ghost predicate AllUsed(ts: seq<Tile>) {
    forall i :: 0 <= i < |ts| ==> ts[i].item >= 0
  }

  lemma {:induction false} AllUsedLen(ts: seq<Tile>, lo: nat, hi: nat)
    requires Tiled(ts, lo, hi) && AllUsed(ts)
    ensures UsedLen(ts) == hi - lo
  {
    if ts != [] { AllUsedLen(ts[..|ts| - 1], lo, ts[|ts| - 1].off); }
  }

  lemma {:induction false} OwnedWithout(vals: seq<Slot>, ts: seq<Tile>, i: nat)
    requires Owned(vals, ts) && i < |ts| && forall k :: 0 <= k < |vals| && vals[k].len > 0 ==> ts[i].item != k
    ensures Owned(vals, ts[..i] + ts[i + 1..])
  {
    forall k | 0 <= k < |vals| && vals[k].len > 0 ensures HasTile(ts[..i] + ts[i + 1..], k) {
      assert HasTile(ts, k);
      var j :| 0 <= j < |ts| && ts[j].item == k;
      assert (ts[..i] + ts[i + 1..])[if j < i then j else j - 1] == ts[j];
    }
  }

  /** Compaction starts with the highest freed tile as its gap. */
  lemma {:induction false} GapStarts(m: seq<nat>, vals: seq<Slot>, ts: seq<Tile>, lo: nat, hi: nat, i: nat)
    requires Heap(m, vals, ts, lo, hi) && i < |ts| && ts[i].item < 0
    ensures Gapped(m, vals, ts[..i], ts[i + 1..], lo, ts[i].off, ts[i].len, hi)
    ensures UsedLen(ts) == UsedLen(ts[..i]) + UsedLen(ts[i + 1..])
  {
    hide Tiled, UsedLen, TileOK, Owned;
    TiledSplit(ts, lo, hi, i);
    OwnedWithout(vals, ts, i);
  }

  /** The owner that precedes the gap says which tile it is. */
  lemma {:induction false} OwnerTells(m: seq<nat>, vals: seq<Slot>, a: seq<Tile>, lo: nat, f: nat)
    requires Tiled(a, lo, f) && TilesOK(m, vals, a) && lo < f && ItemOff(|vals|) <= lo
    ensures a != [] && f >= 2 && f <= |m|
    ensures var t, own := a[|a| - 1], Get16(m, f - 2);
            if own >= ItemOff(|vals|) then t.item < 0 && own == t.off
            else t.item >= 0 && own >= HEADER_BYTES && (own - HEADER_BYTES) / ITEM_BYTES == t.item
  {
    LastTile(a, lo, f);
    assert TileOK(m, vals, a[|a| - 1]);
  }

  lemma {:induction false} GapOwner(m: seq<nat>, vals: seq<Slot>, a: seq<Tile>, b: seq<Tile>, lo: nat, f: nat, g: nat, hi: nat)
    requires Gapped(m, vals, a, b, lo, f, g, hi) && lo < f && ItemOff(|vals|) <= lo
    ensures a != [] && f >= 2 && f + g <= hi <= |m|
    ensures var t, own := a[|a| - 1], Get16(m, f - 2);
            && f == End(t) && lo <= t.off && t.len > OWNER_BYTES
            && UsedLen(a) == UsedLen(a[..|a| - 1]) + (if t.item >= 0 then t.len else 0)
            && if own >= ItemOff(|vals|) then t.item < 0 && own == t.off
               else && t.item >= 0 && own >= HEADER_BYTES && (own - HEADER_BYTES) / ITEM_BYTES == t.item < |vals|
                    && vals[t.item] == Slot(t.off, t.len - OWNER_BYTES)
  {
    OwnerTells(m, vals, a, lo, f);
    LastTile(a, lo, f);
    assert TileOK(m, vals, a[|a| - 1]);
    TiledSize(b, f + g, hi);
  }

  lemma {:induction false} TiledSize(ts: seq<Tile>, lo: nat, hi: nat)
    requires Tiled(ts, lo, hi)
    ensures lo <= hi && (lo == hi ==> ts == [])
  {
    if ts != [] { TileBounds(ts, lo, hi, 0); }
  }

  lemma {:induction false} GapEnds(m: seq<nat>, vals: seq<Slot>, a: seq<Tile>, b: seq<Tile>, lo: nat, f: nat, g: nat, hi: nat)
    requires Gapped(m, vals, a, b, lo, f, g, hi) && f <= lo
    ensures f == lo && a == [] && UsedLen(a) == 0 && Heap(m, vals, b, lo + g, hi)
  {
    TiledSize(a, lo, f);
    assert [] + b == b;
  }

  /** What one run of the compaction loop keeps: all that is gone from the tiles is free space. */
  ghost predicate Compacting(m: seq<nat>, vals: seq<Slot>, a: seq<Tile>, b: seq<Tile>, lo: nat, f: nat, g: nat, hi: nat,
                             values: seq<seq<nat>>, used: nat)
  {
    && Gapped(m, vals, a, b, lo, f, g, hi) && AllUsed(b)
    && UsedLen(a) + UsedLen(b) == used && ValuesOf(m, vals) == values && |vals| == |values|
  }

  lemma {:induction false} CompactStarts(m: seq<nat>, vals: seq<Slot>, ts: seq<Tile>, lo: nat, hi: nat, lastOff: nat, lastLen: nat)
    returns (i: nat)
    requires Heap(m, vals, ts, lo, hi) && LastFree(ts, lastOff, lastLen) && lastOff != 0
    ensures i < |ts| && Compacting(m, vals, ts[..i], ts[i + 1..], lo, lastOff, lastLen, hi, ValuesOf(m, vals), UsedLen(ts))
  {
    i :| 0 <= i < |ts| && ts[i] == Tile(lastOff, lastLen, -1) && forall j :: i < j < |ts| ==> ts[j].item >= 0;
    GapStarts(m, vals, ts, lo, hi, i);
  }

  lemma {:induction false} CompactFree(m: seq<nat>, vals: seq<Slot>, a: seq<Tile>, b: seq<Tile>, lo: nat, f: nat, g: nat, hi: nat,
                    values: seq<seq<nat>>, used: nat)
    requires Compacting(m, vals, a, b, lo, f, g, hi, values, used) && lo < f && ItemOff(|vals|) <= lo
    ensures a != [] && 2 <= f <= |m|
    ensures var own := Get16(m, f - 2);
            own >= ItemOff(|vals|) ==>
              own < f && Compacting(m, vals, a[..|a| - 1], b, lo, own, g + (f - own), hi, values, used)
  {
    GapOwner(m, vals, a, b, lo, f, g, hi);
    if a[|a| - 1].item < 0 { GapTakesFree(m, vals, a, b, lo, f, g, hi); }
  }

  lemma {:induction false} CompactUsed(m: seq<nat>, vals: seq<Slot>, a: seq<Tile>, b: seq<Tile>, lo: nat, f: nat, g: nat, hi: nat,
                    values: seq<seq<nat>>, used: nat)
    requires Compacting(m, vals, a, b, lo, f, g, hi, values, used) && lo < f && ItemOff(|vals|) <= lo
    ensures a != [] && 2 <= f <= |m|
    ensures var own := Get16(m, f - 2);
            own < ItemOff(|vals|) ==>
              && own >= HEADER_BYTES
              && var k := (own - HEADER_BYTES) / ITEM_BYTES;
              && k < |vals|
              && var from, n := vals[k].off, ValBytes(vals[k].len);
              && from < f && n <= f + g && from + n <= |m| && f + g <= |m|
              && var to := f + g - n;
              && Compacting(Moved(m, to, from, n), vals[k := Slot(to, vals[k].len)], a[..|a| - 1],
                            [Tile(to, n, k)] + b, lo, from, g, hi, values, used)
  {
    hide Gapped, ValuesOf, UsedLen, Moved;
    GapOwner(m, vals, a, b, lo, f, g, hi);
    var a', t := a[..|a| - 1], a[|a| - 1];
    if t.item >= 0 {
      assert a == a' + [t];
      GapMoves(m, vals, a', t, b, lo, f, g, hi);
      ShiftKeepsValues(m, vals, a', t, b, lo, f, g, hi);
    }
  }

  /** When the gap has reached the middle free region all of the free space is in it. */
  lemma {:induction false} CompactEnds(m: seq<nat>, vals: seq<Slot>, a: seq<Tile>, b: seq<Tile>, lo: nat, f: nat, g: nat, hi: nat,
                    values: seq<seq<nat>>, used: nat)
    requires Compacting(m, vals, a, b, lo, f, g, hi, values, used) && f <= lo
    ensures Heap(m, vals, b, lo + g, hi) && LastFree(b, 0, 0) && UsedLen(b) == used == hi - lo - g
    ensures ValuesOf(m, vals) == values
  {
    GapEnds(m, vals, a, b, lo, f, g, hi);
    AllUsedLen(b, lo + g, hi);
  }

  // ---- storing and freeing values

  lemma {:induction false} ApartFromGap(m: seq<nat>, vals: seq<Slot>, a: seq<Tile>, b: seq<Tile>, lo: nat, f: nat, g: nat, hi: nat, u: Tile)
    requires Gapped(m, vals, a, b, lo, f, g, hi) && InTiles(a, b, u)
    ensures (End(u) <= f || f + g <= u.off) && TileOK(m, vals, u) && lo <= u.off
  {
    if u in a {
      var i :| 0 <= i < |a| && a[i] == u;
      TileBounds(a, lo, f, i);
    } else {
      var i :| 0 <= i < |b| && b[i] == u;
      TileBounds(b, f + g, hi, i);
      TiledSize(a, lo, f);
    }
  }

  /** Writing in the gap changes no tile and no value. */
  lemma {:induction false} GapWrites(m: seq<nat>, m': seq<nat>, vals: seq<Slot>, a: seq<Tile>, b: seq<Tile>, lo: nat, f: nat, g: nat, hi: nat)
    requires Gapped(m, vals, a, b, lo, f, g, hi) && SameIn(m, m', 0, f) && SameIn(m, m', f + g, |m|)
    ensures Gapped(m', vals, a, b, lo, f, g, hi) && ValuesOf(m', vals) == ValuesOf(m, vals)
  {
    forall u | InTiles(a, b, u)
      ensures TileOK(m', vals, u) && (u.item >= 0 ==> Bytes(m', vals[u.item]) == Bytes(m, vals[u.item]))
    {
      ApartFromGap(m, vals, a, b, lo, f, g, hi, u);
      TileSame(m, m', vals, u);
      if u.item >= 0 { BytesSame(m, m', vals[u.item]); }
    }
    assert TilesOK(m', vals, a) by { forall i | 0 <= i < |a| ensures TileOK(m', vals, a[i]) { assert InTiles(a, b, a[i]); } }
    assert TilesOK(m', vals, b) by { forall i | 0 <= i < |b| ensures TileOK(m', vals, b[i]) { assert InTiles(a, b, b[i]); } }
    forall k | 0 <= k < |vals| ensures Bytes(m', vals[k]) == Bytes(m, vals[k]) {
      if vals[k].len > 0 {
        var u := FindTile(vals, a, b, k);
      }
    }
  }

  lemma {:induction false} Put16Is(m: seq<nat>, off: nat, x: nat)
    requires off + 2 <= |m|
    ensures |Put16(m, off, x)| == |m| && Get16(Put16(m, off, x), off) == x
    ensures SameIn(m, Put16(m, off, x), 0, off) && SameIn(m, Put16(m, off, x), off + 2, |m|)
  {
  }

  /** A gap that ends with its own offset is a freed tile. */
  lemma {:induction false} GapIsFreed(m: seq<nat>, vals: seq<Slot>, a: seq<Tile>, b: seq<Tile>, lo: nat, f: nat, g: nat, hi: nat)
    requires Gapped(m, vals, a, b, lo, f, g, hi) && g > OWNER_BYTES && f + g <= hi
    ensures var m' := Put16(m, f + g - 2, f);
            && Heap(m', vals, a + [Tile(f, g, -1)] + b, lo, hi) && ValuesOf(m', vals) == ValuesOf(m, vals)
            && UsedLen(a + [Tile(f, g, -1)] + b) == UsedLen(a) + UsedLen(b)
  {
    hide ValuesOf, Tiled, UsedLen, Owned, Get16, Put16, Gapped;
    GappedIs(m, vals, a, b, lo, f, g, hi);
    var m', t := Put16(m, f + g - 2, f), Tile(f, g, -1);
    Put16Is(m, f + g - 2, f);
    GapWrites(m, m', vals, a, b, lo, f, g, hi);
    GappedIs(m', vals, a, b, lo, f, g, hi);
    TiledOne(t);
    TiledJoin(a, [t], lo, f, f + g);
    TiledJoin(a + [t], b, lo, f + g, hi);
    OwnedWithMore(vals, a, t, b);
  }

  lemma {:induction false} OwnedWithMore(vals: seq<Slot>, a: seq<Tile>, t: Tile, b: seq<Tile>)
    requires Owned(vals, a + b)
    ensures Owned(vals, a + [t] + b)
  {
    forall k | 0 <= k < |vals| && vals[k].len > 0 ensures HasTile(a + [t] + b, k) {
      HasTileIn(a, b, k);
      HasTileIn(a, [t], k);
      HasTileIn(a + [t], b, k);
    }
  }

  /** A freed tile that follows the gap joins it. */
  lemma {:induction false} GapTakesNext(m: seq<nat>, vals: seq<Slot>, a: seq<Tile>, b: seq<Tile>, lo: nat, f: nat, g: nat, hi: nat)
    requires Gapped(m, vals, a, b, lo, f, g, hi) && b != [] && b[0].item < 0
    ensures Gapped(m, vals, a, b[1..], lo, f, g + b[0].len, hi) && b[0].off == f + g && UsedLen(b) == UsedLen(b[1..])
  {
    TiledSplit(b, f + g, hi, 0);
    assert b[..0] == [];
    forall k | 0 <= k < |vals| && vals[k].len > 0 ensures HasTile(a + b[1..], k) {
      assert b == [b[0]] + b[1..];
      HasTileIn(a, b, k);
      HasTileIn([b[0]], b[1..], k);
      HasTileIn(a, b[1..], k);
    }
  }

  /** A gap under the tiles that ends with the offset of the next item is that item's value. */
  lemma {:induction false} GapIsStored(m: seq<nat>, vals: seq<Slot>, ts: seq<Tile>, lo: nat, n: nat, hi: nat)
    requires Gapped(m, vals, [], ts, lo, lo, n + OWNER_BYTES, hi) && n > 0 && lo + n + OWNER_BYTES <= hi
    requires Get16(m, lo + n) == ItemOff(|vals|)
    ensures var t, vals' := Tile(lo, n + OWNER_BYTES, |vals|), vals + [Slot(lo, n)];
            && Heap(m, vals', [t] + ts, lo, hi)
            && ValuesOf(m, vals') == ValuesOf(m, vals) + [m[lo..lo + n]]
            && UsedLen([t] + ts) == UsedLen(ts) + n + OWNER_BYTES
  {
    var t, vals' := Tile(lo, n + OWNER_BYTES, |vals|), vals + [Slot(lo, n)];
    TiledOne(t);
    TiledJoin([t], ts, lo, End(t), hi);
    assert TilesOK(m, vals', [t] + ts) by {
      forall i | 0 <= i < |[t] + ts| ensures TileOK(m, vals', ([t] + ts)[i]) {
        if i > 0 { assert TileOK(m, vals, ts[i - 1]); }
      }
    }
    assert Owned(vals', [t] + ts) by {
      assert [] + ts == ts;
      forall k | 0 <= k < |vals'| && vals'[k].len > 0 ensures HasTile([t] + ts, k) {
        HasTileIn([t], ts, k);
        assert [t][0].item == |vals|;
      }
    }
  }

  /** The same for an item that is there and has no value. */
  lemma {:induction false} GapIsFilled(m: seq<nat>, vals: seq<Slot>, ts: seq<Tile>, lo: nat, n: nat, hi: nat, k: nat)
    requires Gapped(m, vals, [], ts, lo, lo, n + OWNER_BYTES, hi) && n > 0 && lo + n + OWNER_BYTES <= hi
    requires k < |vals| && vals[k].len == 0 && Get16(m, lo + n) == ItemOff(k)
    ensures var t, vals' := Tile(lo, n + OWNER_BYTES, k), vals[k := Slot(lo, n)];
            && Heap(m, vals', [t] + ts, lo, hi)
            && ValuesOf(m, vals') == ValuesOf(m, vals)[k := m[lo..lo + n]]
            && UsedLen([t] + ts) == UsedLen(ts) + n + OWNER_BYTES
  {
    hide ValuesOf, UsedLen, Tiled;
    var t, vals' := Tile(lo, n + OWNER_BYTES, k), vals[k := Slot(lo, n)];
    TiledOne(t);
    TiledJoin([t], ts, lo, End(t), hi);
    FilledTiles(m, vals, ts, t, k);
    assert [] + ts == ts;
    FilledOwned(vals, ts, t, k, Slot(lo, n));
    FilledValues(m, vals, k, Slot(lo, n));
  }

  lemma {:induction false} FilledTiles(m: seq<nat>, vals: seq<Slot>, ts: seq<Tile>, t: Tile, k: nat)
    requires TilesOK(m, vals, ts) && k < |vals| && vals[k].len == 0 && t.item == k && t.len > OWNER_BYTES && End(t) <= |m|
    requires Get16(m, End(t) - 2) == ItemOff(k)
    ensures TilesOK(m, vals[k := Slot(t.off, t.len - OWNER_BYTES)], [t] + ts)
  {
    var vals' := vals[k := Slot(t.off, t.len - OWNER_BYTES)];
    forall i | 0 <= i < |[t] + ts| ensures TileOK(m, vals', ([t] + ts)[i]) {
      if i > 0 { assert TileOK(m, vals, ts[i - 1]); }
    }
  }

  lemma {:induction false} FilledOwned(vals: seq<Slot>, ts: seq<Tile>, t: Tile, k: nat, s: Slot)
    requires Owned(vals, ts) && k < |vals| && t.item == k
    ensures Owned(vals[k := s], [t] + ts)
  {
    forall j | 0 <= j < |vals| && vals[k := s][j].len > 0 ensures HasTile([t] + ts, j) {
      HasTileIn([t], ts, j);
      assert [t][0].item == k;
    }
  }

  lemma {:induction false} FilledValues(m: seq<nat>, vals: seq<Slot>, k: nat, s: Slot)
    requires k < |vals| && s.off + s.len <= |m|
    ensures ValuesOf(m, vals[k := s]) == ValuesOf(m, vals)[k := m[s.off..s.off + s.len]]
  {
  }

  /** An item without a value. */
  lemma {:induction false} StoreNothing(m: seq<nat>, vals: seq<Slot>, ts: seq<Tile>, lo: nat, hi: nat)
    requires Heap(m, vals, ts, lo, hi)
    ensures Heap(m, vals + [Slot(0, 0)], ts, lo, hi)
    ensures ValuesOf(m, vals + [Slot(0, 0)]) == ValuesOf(m, vals) + [[]]
  {
    forall i | 0 <= i < |ts| ensures TileOK(m, vals + [Slot(0, 0)], ts[i]) { assert TileOK(m, vals, ts[i]); }
  }

  lemma {:induction false} HeapIsGapped(m: seq<nat>, vals: seq<Slot>, ts: seq<Tile>, lo: nat, hi: nat, g: nat)
    requires Heap(m, vals, ts, lo, hi) && g <= lo
    ensures Gapped(m, vals, [], ts, lo - g, lo - g, g, hi)
  {
    assert [] + ts == ts;
  }

  /** Taking the value away from an item leaves a gap where its tile was. */
  lemma {:induction false} LoseValue(m: seq<nat>, vals: seq<Slot>, ts: seq<Tile>, lo: nat, hi: nat, i: nat)
    requires Heap(m, vals, ts, lo, hi) && i < |ts| && ts[i].item >= 0
    ensures var k := ts[i].item;
            && k < |vals| && vals[k] == Slot(ts[i].off, ts[i].len - OWNER_BYTES)
            && Gapped(m, vals[k := Slot(0, 0)], ts[..i], ts[i + 1..], lo, ts[i].off, ts[i].len, hi)
            && ts[i].len > OWNER_BYTES && UsedLen(ts) == UsedLen(ts[..i]) + UsedLen(ts[i + 1..]) + ts[i].len
  {
    assert TileOK(m, vals, ts[i]);
    var k, vals' := ts[i].item, vals[ts[i].item := Slot(0, 0)];
    TiledSplit(ts, lo, hi, i);
    forall j | 0 <= j < |ts| && j != i ensures TileOK(m, vals', ts[j]) {
      assert TileOK(m, vals, ts[j]);
      OneTile(ts, lo, hi, i, j);
    }
    OwnedWithout(vals', ts, i);
  }

  lemma {:induction false} NoneFree(m: seq<nat>, vals: seq<Slot>, ts: seq<Tile>, lo: nat, hi: nat)
    requires Heap(m, vals, ts, lo, hi) && LastFree(ts, 0, 0)
    ensures UsedLen(ts) == hi - lo
  {
    AllUsedLen(ts, lo, hi);
  }

  /** Copies bytes that may overlap their destination. */
  method CopyBytes(mem: array<nat>, to: nat, from: nat, n: nat)
    requires to + n <= mem.Length && from + n <= mem.Length
    modifies mem
    ensures mem[..] == Moved(old(mem[..]), to, from, n)
  {
    forall k | 0 <= k < n {
      mem[to + k] := mem[from + k];
    }
  }
}
