/** The walk down the tree, which splits and joins blocks and starts again when it did. */
module BTreeWalk {
  import opened LeafValues
  import opened LeafArea
  import opened BTree
  import Keys

  const MAX_KEY: nat := Keys.MAX_KEY

  /** Parents leave room for another child; leaves need room for the item. */
  function Need(level: nat, len: nat): nat {
    ItemLenBytes(if level == 0 then len else REF_BYTES)
  }

  predicate Full(b: Block, len: nat) {
    Total(b.entries) + Need(b.level, len) > Capacity(b.level)
  }

  /**
    A block that is 80% full or more is split when its free space is in pieces, so
    that the region in its middle is too small; the pieces of one that is less full
    are gathered instead.
  */
  predicate Heavy(b: Block) {
    FullPct(Total(b.entries)) >= 80
  }

  /** A block without the room for an item is heavy. */
  lemma FullIsHeavy(b: Block, len: nat)
    requires Full(b, len) && len <= MAX_VAL_LEN
    ensures Heavy(b)
  {
    hide Total;
  }

  predicate Low(b: Block) {
    Total(b.entries) < WATERMARK
  }

  // ---- what gets smaller with every restart

  /** How many blocks on the way to a key are heavy. */
  ghost function HeavyCount(b: Block, key: nat): nat
    decreases b
  {
    var i := Below(b.entries, key);
    (if Heavy(b) then 1 else 0) + if b.level > 0 && i < |b.entries| then HeavyUnder(b.entries[i], key) else 0
  }

  ghost function HeavyUnder(e: Entry, key: nat): nat
    decreases e
  {
    match e
    case Item(_, _) => 0
    case Child(_, b) => HeavyCount(b, key)
  }

  /** How far down the heavy blocks are. */
  ghost function HeavyDepth(b: Block, key: nat): nat
    decreases b
  {
    var i := Below(b.entries, key);
    (if Heavy(b) then 1 else 0) + if b.level > 0 && i < |b.entries| then DepthUnder(b.entries[i], key) else 0
  }

  ghost function DepthUnder(e: Entry, key: nat): nat
    decreases e
  {
    match e
    case Item(_, _) => 0
    case Child(_, b) => HeavyDepth(b, key) + HeavyCount(b, key)
  }

  /** How many blocks there are. */
  ghost function Blocks(b: Block): nat
    decreases b
  {
    1 + if b.level > 0 then BlocksOf(b.entries) else 0
  }

  ghost function BlocksUnder(e: Entry): nat
    decreases e
  {
    match e
    case Item(_, _) => 0
    case Child(_, b) => Blocks(b)
  }

  ghost function BlocksOf(es: seq<Entry>): nat
    decreases es
  {
    if es == [] then 0 else BlocksOf(es[..|es| - 1]) + BlocksUnder(es[|es| - 1])
  }

  /** How much room there is in the blocks on the way to a key. */
  ghost function Slack(b: Block, key: nat): nat
    decreases b
  {
    var i := Below(b.entries, key);
    (if Total(b.entries) < BLOCK_SIZE then BLOCK_SIZE - Total(b.entries) else 0)
      + if b.level > 0 && i < |b.entries| then SlackUnder(b.entries[i], key) else 0
  }

  ghost function SlackUnder(e: Entry, key: nat): nat
    decreases e
  {
    match e
    case Item(_, _) => 0
    case Child(_, b) => Slack(b, key)
  }

  datatype Measure = Measure(heavy: nat, depth: nat, blocks: nat, slack: nat)

  ghost function MeasureOf(b: Block, key: nat): Measure {
    Measure(HeavyCount(b, key), HeavyDepth(b, key), Blocks(b), Slack(b, key))
  }

  ghost predicate Less(m: Measure, n: Measure) {
    || m.heavy < n.heavy
    || (m.heavy == n.heavy && m.depth < n.depth)
    || (m.heavy == n.heavy && m.depth == n.depth && m.blocks < n.blocks)
    || (m.heavy == n.heavy && m.depth == n.depth && m.blocks == n.blocks && m.slack < n.slack)
  }

  // ---- moving entries between blocks

  /** `n` entries have moved, from the end of one block to the start of another or from its start to the other's end. */
  ghost predicate Moving(dst: seq<Entry>, src: seq<Entry>, dst': seq<Entry>, src': seq<Entry>, right: bool, n: nat) {
    && n <= |src|
    && (right ==> src' == src[..|src| - n] && dst' == src[|src| - n..] + dst)
    && (!right ==> src' == src[n..] && dst' == dst + src[..n])
  }

  lemma {:induction false} MovingTotals(dst: seq<Entry>, src: seq<Entry>, dst': seq<Entry>, src': seq<Entry>, right: bool, n: nat)
    requires Moving(dst, src, dst', src', right, n)
    ensures Total(dst') == Total(dst) + Total(src) - Total(src') && |src'| == |src| - n
  {
    if right {
      TotalSplit(src, |src| - n);
      TotalConcat(src[|src| - n..], dst);
    } else {
      TotalSplit(src, n);
      TotalConcat(dst, src[..n]);
    }
  }

  lemma {:induction false} MovesOne(dst: seq<Entry>, src: seq<Entry>, dst': seq<Entry>, src': seq<Entry>, right: bool, n: nat)
    requires Moving(dst, src, dst', src', right, n) && src' != []
    ensures right ==> Moving(dst, src, [src'[|src'| - 1]] + dst', src'[..|src'| - 1], right, n + 1)
    ensures !right ==> Moving(dst, src, dst' + [src'[0]], src'[1..], right, n + 1)
    ensures Total(src') == Total(if right then src'[..|src'| - 1] else src'[1..]) + EntryBytes(if right then src'[|src'| - 1] else src'[0])
  {
    if right {
      assert src[|src| - n - 1..] == [src'[|src'| - 1]] + src[|src| - n..];
    } else {
      TotalSplit(src', 1);
      TotalOne(src'[0]);
      assert src'[..1] == [src'[0]] && src[..n + 1] == src[..n] + [src'[0]];
    }
  }

  /** How many bytes of entries leave one end of a block. */
  ghost function Moved(src: seq<Entry>, right: bool, n: nat): int
    requires n <= |src|
  {
    Total(src) - Total(if right then src[..|src| - n] else src[n..])
  }

  /** No more entries leave than it takes to move that many bytes. */
  ghost predicate Fewest(src: seq<Entry>, right: bool, n: nat, toMove: int) {
    && n <= |src| && (n == |src| || Moved(src, right, n) >= toMove)
    && (n > 0 ==> Moved(src, right, n - 1) < toMove)
  }

  lemma {:induction false} MovedSo(dst: seq<Entry>, src: seq<Entry>, dst': seq<Entry>, src': seq<Entry>, right: bool, n: nat)
    requires Moving(dst, src, dst', src', right, n)
    ensures n <= |src| && |src'| == |src| - n && Moved(src, right, n) == Total(src) - Total(src')
  {
    hide Total;
  }

  /** Moves entries until enough bytes have moved or there are none left. */
  method MoveEntries(dst: seq<Entry>, src: seq<Entry>, moveRight: bool, toMove: int)
    returns (dst': seq<Entry>, src': seq<Entry>, ghost n: nat)
    requires forall i :: 0 <= i < |src| ==> EntryBytes(src[i]) <= 936
    ensures Moving(dst, src, dst', src', moveRight, n)
    ensures src' == [] || Total(src) - Total(src') >= toMove
    ensures toMove >= 0 ==> Total(src) - Total(src') <= toMove + 935
    ensures Fewest(src, moveRight, n, toMove)
  {
    hide Total, Moving, Moved;
    dst', src' := dst, src;
    n := 0;
    var left := toMove;
    NoneMoved(dst, src, moveRight);
    while left > 0 && src' != []
      invariant Moving(dst, src, dst', src', moveRight, n) && left == toMove - (Total(src) - Total(src'))
      invariant (toMove >= 0 ==> left >= -935) && forall e :: e in src' ==> EntryBytes(e) <= 936
      invariant 0 < n <= |src| ==> Moved(src, moveRight, n - 1) < toMove
      decreases |src'|
    {
      MovesOne(dst, src, dst', src', moveRight, n);
      MovedSo(dst, src, dst', src', moveRight, n);
      var e := if moveRight then src'[|src'| - 1] else src'[0];
      left := left - EntryBytes(e);
      if moveRight {
        dst', src' := [e] + dst', src'[..|src'| - 1];
      } else {
        dst', src' := dst' + [e], src'[1..];
      }
      n := n + 1;
    }
    MovedSo(dst, src, dst', src', moveRight, n);
  }

  lemma {:induction false} NoneMoved(dst: seq<Entry>, src: seq<Entry>, right: bool)
    ensures Moving(dst, src, dst, src, right, 0)
  {
  }

  lemma {:induction false} TotalOne(e: Entry)
    ensures Total([e]) == EntryBytes(e)
  {
    assert [e][..0] == [];
  }
}
