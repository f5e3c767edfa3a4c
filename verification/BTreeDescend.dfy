/** One walk down the tree: it ends at the leaf for a key, or it splits or joins a block and has to start again. */
module BTreeDescend {
  import opened LeafValues
  import opened LeafArea
  import opened BTree
  import opened BTreeWalk
  import opened BTreeMoves

  /** Divides a heavy block's entries about evenly. */
  method SplitBlock(b: Block, len: nat, ghost lo: nat, ghost hi: nat) returns (left: seq<Entry>, right: seq<Entry>)
    requires OK(b, lo, hi) && Heavy(b) && len <= MAX_VAL_LEN
    ensures Halves(b, left, right, len)
  {
    hide Shape, Moving;
    EntriesAreSmall(b.level, b.entries, lo, hi);
    ghost var n;
    left, right, n := MoveEntries([], b.entries, false, Total(b.entries) / 2);
    MovingTotals([], b.entries, left, right, false, n);
    HalvesMade(b, left, right, n, len);
  }

  lemma {:induction false} HalvesMade(b: Block, left: seq<Entry>, right: seq<Entry>, n: nat, len: nat)
    requires Moving([], b.entries, left, right, false, n) && Heavy(b) && Total(b.entries) <= Capacity(b.level) && len <= MAX_VAL_LEN
    requires Total(left) == Total(b.entries) - Total(right)
    requires right == [] || Total(left) >= Total(b.entries) / 2
    requires Total(left) <= Total(b.entries) / 2 + 935
    ensures Halves(b, left, right, len)
  {
    hide Total, Capacity, Full, Heavy, Need, FullPct;
    assert [] + b.entries[..n] == b.entries[..n];
    assert left + right == b.entries;
    HeavyTotal(b);
    NothingIsEmpty();
    RoomFor(Block(b.level, left), len);
    RoomFor(Block(b.level, right), len);
  }

  lemma NothingIsEmpty()
    ensures Total([]) == 0
  {
  }

  lemma HeavyTotal(b: Block)
    ensures Heavy(b) ==> Total(b.entries) > 52000
    ensures Capacity(b.level) <= 65491
  {
    hide Total;
  }

  lemma {:induction false} RoomFor(b: Block, len: nat)
    requires Total(b.entries) <= 33680 && len <= MAX_VAL_LEN
    ensures !Full(b, len) && !Heavy(b) && Total(b.entries) <= Capacity(b.level)
  {
  }

  /** What a join leaves of a parent: other entries, or one child that takes its place. */
  datatype Joined = Kids(es: seq<Entry>) | Only(block: Block)

  /** A join keeps the items and brings the walk closer to its end. */
  ghost predicate IsJoined(level: nat, es: seq<Entry>, lo: nat, hi: nat, key: nat, r: Joined) {
    match r
    case Only(b) =>
      && |es| == 2 && OK(b, lo, hi) && b.level + 1 == level && |b.entries| >= 2 && Items(b) == Items(Block(level, es))
      && Less(MeasureOf(b, key), MeasureOf(Block(level, es), key))
    case Kids(es') =>
      && |es'| >= 2 && Shape(level, es', lo, hi) && Total(es') <= Total(es) && Items(Block(level, es')) == Items(Block(level, es))
      && Less(MeasureOf(Block(level, es'), key), MeasureOf(Block(level, es), key))
  }

  ghost function Regrouped(level: nat, es: seq<Entry>, j: nat, p: seq<Entry>, q: seq<Entry>): seq<Entry>
    requires level > 0 && j + 1 < |es|
  {
    es[..j] + Divided(level - 1, es[j + 1].key, p, q) + es[j + 2..]
  }

  /** Which child is on the way afterwards. */
  lemma {:induction false} RegroupedAt(level: nat, es: seq<Entry>, j: nat, p: seq<Entry>, q: seq<Entry>)
    requires level > 0 && j + 1 < |es| && (p != [] || q != [])
    ensures var es' := Regrouped(level, es, j, p, q);
            && |es'| == |es| - (if p != [] && q != [] then 0 else 1)
            && (p != [] ==> es'[j] == Child(p[|p| - 1].key, Block(level - 1, p)))
            && (q != [] ==> es'[j + if p == [] then 0 else 1] == Child(es[j + 1].key, Block(level - 1, q)))
            && (j > 0 ==> es'[j - 1] == es[j - 1])
  {
  }

  lemma {:induction false} RegroupedTotal(level: nat, es: seq<Entry>, j: nat, p: seq<Entry>, q: seq<Entry>)
    requires level > 0 && j + 1 < |es| && (p != [] || q != []) && es[j].Child? && es[j + 1].Child?
    ensures Total(Regrouped(level, es, j, p, q)) == Total(es) - if p != [] && q != [] then 0 else 56
  {
    hide Total;
    var mid := Divided(level - 1, es[j + 1].key, p, q);
    TotalConcat(es[..j] + mid, es[j + 2..]);
    TotalConcat(es[..j], mid);
    TotalConcat(es[..j] + [es[j], es[j + 1]], es[j + 2..]);
    TotalConcat(es[..j], [es[j], es[j + 1]]);
    assert es == es[..j] + [es[j], es[j + 1]] + es[j + 2..];
    TotalPair(es[j], es[j + 1]);
    if p != [] && q != [] { TotalPair(mid[0], mid[1]); } else { TotalOne(mid[0]); }
  }

  /** The block on the way before and after: it only gained entries on its other side. */
  ghost predicate Gains(l: nat, c: seq<Entry>, c': seq<Entry>, key: nat) {
    && Rest(l, c', key) == Rest(l, c, key)
    && Total(c) < Total(c') <= 33677
  }

  lemma {:induction false} JoinedIs(level: nat, es: seq<Entry>, lo: nat, hi: nat, j: nat, i: nat, t: nat, p: seq<Entry>, q: seq<Entry>, c': Block, key: nat, len: nat)
    requires Shape(level, es, lo, hi) && Divides(level, es, j, p, q) && (q != [] || j + 2 < |es|) && |Regrouped(level, es, j, p, q)| >= 2
    requires i < |es| && es[i].Child? && es[i].block.level == level - 1 && Below(es, key) == i && Low(es[i].block) && len <= MAX_VAL_LEN
    requires var es' := Regrouped(level, es, j, p, q);
             t < |es'| && es'[t].Child? && es'[t].block == c' && Below(es', key) == t
    requires c'.level == level - 1 && Gains(level - 1, es[i].block.entries, c'.entries, key)
    ensures IsJoined(level, es, lo, hi, key, Kids(Regrouped(level, es, j, p, q)))
  {
    hide Shape, Rest, Below, MeasureOf, Less, Divided;
    var es' := Regrouped(level, es, j, p, q);
    DivideShape(level, es, lo, hi, j, p, q);
    DivideHolds(level, es, j, p, q);
    RegroupedTotal(level, es, j, p, q);
    JoinMeasure(level, es, es', i, t, c', key);
  }

  lemma {:induction false} ParentHolds(level: nat, es: seq<Entry>)
    requires level > 0
    ensures Items(Block(level, es)) == ItemsOf(es) && Blocks(Block(level, es)) == 1 + BlocksOf(es)
  {
  }

  lemma {:induction false} HoldsUnder(e: Entry)
    requires e.Child?
    ensures ItemsUnder(e) == Items(e.block) && BlocksUnder(e) == Blocks(e.block) && Blocks(e.block) > 0
  {
  }

  lemma {:induction false} CollapsedIs(level: nat, es: seq<Entry>, lo: nat, hi: nat, i: nat, c': Block, key: nat, len: nat)
    requires Shape(level, es, lo, hi) && |es| == 2 && i < 2 && level > 0
    requires es[i].Child? && es[i].block.level == level - 1 && Below(es, key) == i && Low(es[i].block) && len <= MAX_VAL_LEN
    requires es[0].Child? && es[1].Child? && c' == Block(level - 1, es[0].block.entries + es[1].block.entries)
    requires Gains(level - 1, es[i].block.entries, c'.entries, key)
    ensures IsJoined(level, es, lo, hi, key, Only(c'))
  {
    hide Shape, Rest, Below, MeasureOf, Less, Items, Blocks, Full, Heavy, Total;
    BothShape(level, es, lo, hi, 0);
    LastKey(level, es, lo, hi);
    ParentHolds(level, es);
    HoldsUnder(es[0]);
    HoldsUnder(es[1]);
    RoomFor(es[i].block, len);
    RoomFor(c', len);
    BlockItems(level - 1, es[0].block.entries, es[1].block.entries);
    BlockBlocks(level - 1, es[0].block.entries, es[1].block.entries);
    assert es == [es[0], es[1]];
    PairOf(es[0], es[1]);
    CollapseMeasure(level, es, i, c', key);
  }

  /** Something moves, and what has few entries does not get too many. */
  lemma {:induction false} GainsTotal(c: seq<Entry>, s: seq<Entry>, c': seq<Entry>, s': seq<Entry>, right: bool, n: nat)
    requires Moving(c, s, c', s', right, n) && c != [] && s != [] && Total(c) < WATERMARK
    requires s' == [] || Total(s) - Total(s') >= Total(c)
    requires Total(s) - Total(s') <= Total(c) + 935
    ensures Total(c) < Total(c') <= 33677 && n > 0 && Total(s') <= Total(s) && c' != []
  {
    assert s[..|s|] == s && s[0..] == s;
    MovingTotals(c, s, c', s', right, n);
    HasBytes(c);
    HasBytes(s);
  }

  lemma {:induction false} HasBytes(es: seq<Entry>)
    requires es != []
    ensures Total(es) >= 38
  {
  }

  lemma {:induction false} RightParts(c: seq<Entry>, s: seq<Entry>, c': seq<Entry>, s': seq<Entry>, n: nat)
    requires Moving(c, s, c', s', true, n)
    ensures s' + c' == s + c && c' == s[|s| - n..] + c
  {
    assert s == s[..|s| - n] + s[|s| - n..];
  }

  lemma {:induction false} LeftParts(c: seq<Entry>, s: seq<Entry>, c': seq<Entry>, s': seq<Entry>, n: nat)
    requires Moving(c, s, c', s', false, n)
    ensures c' + s' == c + s && c' == c + s[..n]
  {
    assert s == s[..n] + s[n..];
  }

  /** What the child gains on its left is below the key. */
  lemma {:induction false} RightRest(level: nat, es: seq<Entry>, lo: nat, hi: nat, i: nat, c': seq<Entry>, s': seq<Entry>, n: nat, key: nat)
    requires level > 0 && Shape(level, es, lo, hi) && 0 < i < |es| && Below(es, key) == i && es[i].Child? && es[i - 1].Child?
    requires Moving(es[i].block.entries, es[i - 1].block.entries, c', s', true, n) && n > 0
    ensures Rest(level - 1, c', key) == Rest(level - 1, es[i].block.entries, key)
    ensures es[i - 1].key < key <= es[i].key && (s' != [] ==> s'[|s'| - 1].key < key)
  {
    hide Shape, Rest, EntryOK, Below;
    var s, c := es[i - 1].block.entries, es[i].block.entries;
    BothShape(level, es, lo, hi, i - 1);
    ShapeAt(level, es, lo, hi, i - 1);
    EntryIs(level, es[i - 1], Start(es, i - 1, lo));
    ShapeKeys(level, es, lo, hi);
    BelowAt(es, key, i);
    ShapeKeys(level - 1, s, Start(es, i - 1, lo), es[i - 1].key);
    ShapeKeys(level - 1, s + c, Start(es, i - 1, lo), es[i].key);
    RightParts(c, s, c', s', n);
    assert s + c == s' + c';
    PartsIncrease(s', c');
    RestParts(level - 1, s[|s| - n..], c, key);
  }

  lemma {:induction false} BelowAt(es: seq<Entry>, key: nat, i: nat)
    requires Increasing(es) && i < |es| && Below(es, key) == i
    ensures (i > 0 ==> es[i - 1].key < key) && key <= es[i].key
  {
    BelowIs(es, key);
  }

  lemma {:induction false} LeftRest(level: nat, es: seq<Entry>, lo: nat, hi: nat, c': seq<Entry>, s': seq<Entry>, n: nat, key: nat)
    requires level > 0 && Shape(level, es, lo, hi) && |es| >= 2 && Below(es, key) == 0 && es[0].Child? && es[1].Child?
    requires Moving(es[0].block.entries, es[1].block.entries, c', s', false, n) && n > 0
    ensures Rest(level - 1, c', key) == Rest(level - 1, es[0].block.entries, key)
    ensures c' != [] && key <= es[0].key <= c'[|c'| - 1].key
  {
    hide Shape, Rest, EntryOK, Below;
    var c, s := es[0].block.entries, es[1].block.entries;
    BothShape(level, es, lo, hi, 0);
    ShapeAt(level, es, lo, hi, 0);
    ShapeAt(level, es, lo, hi, 1);
    EntryIs(level, es[0], lo);
    EntryIs(level, es[1], Start(es, 1, lo));
    ShapeKeys(level, es, lo, hi);
    BelowAt(es, key, 0);
    ShapeKeys(level - 1, s, Start(es, 1, lo), es[1].key);
    ShapeKeys(level - 1, c + s, lo, es[1].key);
    LeftParts(c, s, c', s', n);
    PartsIncrease(c', s');
    assert c'[|c'| - 1] == s[n - 1];
    if level > 1 {
      LastKey(level - 1, c, lo, es[0].key);
      RestParts(level - 1, c, s[..n], key);
    } else {
      NoRest(c, key);
      NoRest(c', key);
    }
  }

  lemma {:induction false} NoRest(es: seq<Entry>, key: nat)
    ensures Rest(0, es, key) == (0, 0, 0)
  {
  }

  /** A neighbour and the child that gets entries of its end. */
  ghost predicate TakesRight(level: nat, es: seq<Entry>, lo: nat, hi: nat, i: nat, p: seq<Entry>, q: seq<Entry>, n: nat, key: nat) {
    && level > 0 && Shape(level, es, lo, hi) && 0 < i < |es| && Below(es, key) == i
    && es[i].Child? && es[i - 1].Child? && Low(es[i].block)
    && Moving(es[i].block.entries, es[i - 1].block.entries, q, p, true, n)
    && (p == [] || Total(es[i - 1].block.entries) - Total(p) >= Total(es[i].block.entries))
    && Total(es[i - 1].block.entries) - Total(p) <= Total(es[i].block.entries) + 935
  }

  lemma {:induction false} CollapsedRight(level: nat, es: seq<Entry>, lo: nat, hi: nat, i: nat, p: seq<Entry>, q: seq<Entry>, n: nat, key: nat, len: nat)
    requires TakesRight(level, es, lo, hi, i, p, q, n, key) && len <= MAX_VAL_LEN && p == [] && |es| == 2
    ensures IsJoined(level, es, lo, hi, key, Only(Block(level - 1, q)))
  {
    hide Shape, Rest, EntryOK, Below, IsJoined, Moving, Total, Increasing;
    var s, c := es[i - 1].block.entries, es[i].block.entries;
    BothShape(level, es, lo, hi, i - 1);
    GainsTotal(c, s, q, p, true, n);
    RightParts(c, s, q, p, n);
    assert q == s + c;
    RightRest(level, es, lo, hi, i, q, p, n, key);
    CollapsedIs(level, es, lo, hi, i, Block(level - 1, q), key, len);
  }

  lemma {:induction false} RegroupedIs(level: nat, es: seq<Entry>, lo: nat, hi: nat, i: nat, p: seq<Entry>, q: seq<Entry>, n: nat, key: nat, len: nat)
    requires TakesRight(level, es, lo, hi, i, p, q, n, key) && len <= MAX_VAL_LEN && (p != [] || |es| > 2)
    ensures IsJoined(level, es, lo, hi, key, Kids(Regrouped(level, es, i - 1, p, q)))
  {
    hide Shape, Rest, EntryOK, Below, IsJoined, Moving, Regrouped, Total, Increasing;
    var s, c, j := es[i - 1].block.entries, es[i].block.entries, i - 1;
    BothShape(level, es, lo, hi, j);
    GainsTotal(c, s, q, p, true, n);
    RightParts(c, s, q, p, n);
    RightRest(level, es, lo, hi, i, q, p, n, key);
    var es', t := Regrouped(level, es, j, p, q), j + if p == [] then 0 else 1;
    RegroupedAt(level, es, j, p, q);
    DivideShaped(level, es, lo, hi, j, p, q);
    ShapeKeys(level, es, lo, hi);
    BelowAt(es, key, i);
    RegroupedRight(es, es', lo, hi, j, p, key);
    JoinedIs(level, es, lo, hi, j, i, t, p, q, Block(level - 1, q), key, len);
  }

  lemma {:induction false} JoinedRight(level: nat, es: seq<Entry>, lo: nat, hi: nat, i: nat, p: seq<Entry>, q: seq<Entry>, n: nat, key: nat, len: nat)
    requires TakesRight(level, es, lo, hi, i, p, q, n, key) && len <= MAX_VAL_LEN
    ensures IsJoined(level, es, lo, hi, key, if p == [] && |es| == 2 then Only(Block(level - 1, q)) else Kids(Regrouped(level, es, i - 1, p, q)))
  {
    hide IsJoined, Regrouped;
    if p == [] && |es| == 2 {
      CollapsedRight(level, es, lo, hi, i, p, q, n, key, len);
    } else {
      RegroupedIs(level, es, lo, hi, i, p, q, n, key, len);
    }
  }

  lemma {:induction false} DivideShaped(level: nat, es: seq<Entry>, lo: nat, hi: nat, j: nat, p: seq<Entry>, q: seq<Entry>)
    requires Shape(level, es, lo, hi) && Divides(level, es, j, p, q) && (q != [] || j + 2 < |es|)
    ensures Increasing(Regrouped(level, es, j, p, q))
  {
    hide EntryOK, Children, Divided;
    DivideShape(level, es, lo, hi, j, p, q);
  }

  lemma {:induction false} RegroupedRight(es: seq<Entry>, es': seq<Entry>, lo: nat, hi: nat, j: nat, p: seq<Entry>, key: nat)
    requires Increasing(es) && Increasing(es') && j + 1 < |es| && es[j].key < key <= es[j + 1].key
    requires p != [] ==> |es'| > j + 1 && es'[j].key == p[|p| - 1].key < key && es'[j + 1].key == es[j + 1].key
    requires p == [] ==> |es'| > j && es'[j].key == es[j + 1].key && (j > 0 ==> es'[j - 1] == es[j - 1])
    ensures Below(es', key) == j + if p == [] then 0 else 1
  {
    if p == [] && j > 0 { KeyOrder(es, j - 1, j); }
    BelowUnique(es', key, j + if p == [] then 0 else 1);
  }

  lemma {:induction false} JoinedLeft(level: nat, es: seq<Entry>, lo: nat, hi: nat, p: seq<Entry>, q: seq<Entry>, n: nat, key: nat, len: nat)
    requires level > 0 && Shape(level, es, lo, hi) && |es| >= 2 && Below(es, key) == 0 && len <= MAX_VAL_LEN
    requires es[0].Child? && es[1].Child? && Low(es[0].block)
    requires Moving(es[0].block.entries, es[1].block.entries, p, q, false, n)
    requires q == [] || Total(es[1].block.entries) - Total(q) >= Total(es[0].block.entries)
    requires Total(es[1].block.entries) - Total(q) <= Total(es[0].block.entries) + 935
    ensures IsJoined(level, es, lo, hi, key, if q == [] && |es| == 2 then Only(Block(level - 1, p)) else Kids(Regrouped(level, es, 0, p, q)))
  {
    hide Shape, Rest, EntryOK, Below, IsJoined, Moving, Regrouped, Total, Increasing;
    var c, s := es[0].block.entries, es[1].block.entries;
    BothShape(level, es, lo, hi, 0);
    GainsTotal(c, s, p, q, false, n);
    LeftParts(c, s, p, q, n);
    LeftRest(level, es, lo, hi, p, q, n, key);
    if q == [] && |es| == 2 {
      assert p == c + s;
      CollapsedIs(level, es, lo, hi, 0, Block(level - 1, p), key, len);
    } else {
      var es' := Regrouped(level, es, 0, p, q);
      RegroupedAt(level, es, 0, p, q);
      DivideShaped(level, es, lo, hi, 0, p, q);
      BelowUnique(es', key, 0);
      JoinedIs(level, es, lo, hi, 0, 0, 0, p, q, Block(level - 1, p), key, len);
    }
  }

  /** The child takes the fewest entries of a neighbour that are as many bytes as it has, or all of them. */
  ghost predicate JoinsBy(level: nat, es: seq<Entry>, i: nat, n: nat, r: Joined) {
    && level > 0 && |es| >= 2 && i < |es| && es[i].Child? && es[if i > 0 then i - 1 else 1].Child?
    && var s, c := es[if i > 0 then i - 1 else 1].block.entries, es[i].block.entries;
    && Fewest(s, i > 0, n, Total(c))
    && var p, q := if i > 0 then s[..|s| - n] else c + s[..n], if i > 0 then s[|s| - n..] + c else s[n..];
    r == if |es| == 2 && n == |s| then Only(Block(level - 1, p + q)) else Kids(Regrouped(level, es, if i > 0 then i - 1 else 0, p, q))
  }

  lemma {:induction false} JoinsSo(level: nat, es: seq<Entry>, i: nat, c': seq<Entry>, s': seq<Entry>, n: nat)
    requires level > 0 && |es| >= 2 && i < |es| && es[i].Child? && es[if i > 0 then i - 1 else 1].Child? && es[i].block.entries != []
    requires var s, c := es[if i > 0 then i - 1 else 1].block.entries, es[i].block.entries;
             Moving(c, s, c', s', i > 0, n) && Fewest(s, i > 0, n, Total(c))
    ensures var es' := Regrouped(level, es, if i > 0 then i - 1 else 0, if i > 0 then s' else c', if i > 0 then c' else s');
            JoinsBy(level, es, i, n, if |es'| == 1 then Only(Block(level - 1, c')) else Kids(es'))
  {
    hide Fewest, Total, Regrouped;
    var s, c := es[if i > 0 then i - 1 else 1].block.entries, es[i].block.entries;
    assert c' != [] && |s'| == |s| - n;
    assert s' == [] ==> s' + c' == c' == c' + s';
    RegroupedAt(level, es, if i > 0 then i - 1 else 0, if i > 0 then s' else c', if i > 0 then c' else s');
  }

  /** Moves entries from a neighbour to a child that is on the way and has few. */
  method JoinChild(level: nat, es: seq<Entry>, i: nat, ghost lo: nat, ghost hi: nat, key: nat, ghost len: nat) returns (r: Joined, ghost n: nat)
    requires level > 0 && Shape(level, es, lo, hi) && |es| >= 2 && i < |es| && Below(es, key) == i && len <= MAX_VAL_LEN
    requires es[i].Child? && Low(es[i].block)
    ensures IsJoined(level, es, lo, hi, key, r) && JoinsBy(level, es, i, n, r)
  {
    hide Shape, EntryOK, Below, IsJoined, Moving, Total, Increasing, Fewest;
    var moveRight := i > 0;
    ghost var j := if moveRight then i - 1 else 0;
    BothShape(level, es, lo, hi, j);
    var sib, bt := es[if moveRight then i - 1 else 1].block, es[i].block;
    SiblingSmall(level, es, lo, hi, if moveRight then i - 1 else 1);
    var sibTotal := Total(bt.entries);
    var toMove := if sibTotal < WATERMARK then sibTotal else sibTotal - WATERMARK;
    var bt', sib';
    bt', sib', n := MoveEntries(bt.entries, sib.entries, moveRight, toMove);
    if moveRight {
      GainsTotal(bt.entries, sib.entries, bt', sib', moveRight, n);
      JoinedRight(level, es, lo, hi, i, sib', bt', n, key, len);
      r := Kids(es[..i - 1] + Divided(level - 1, es[i].key, sib', bt') + es[i + 1..]);
    } else {
      GainsTotal(bt.entries, sib.entries, bt', sib', moveRight, n);
      JoinedLeft(level, es, lo, hi, bt', sib', n, key, len);
      r := Kids(Divided(level - 1, es[1].key, bt', sib') + es[2..]);
      assert es[..0] + Divided(level - 1, es[1].key, bt', sib') == Divided(level - 1, es[1].key, bt', sib');
    }
    RegroupedAt(level, es, j, if moveRight then sib' else bt', if moveRight then bt' else sib');
    JoinsSo(level, es, i, bt', sib', n);
    if |r.es| == 1 {
      r := Only(Block(level - 1, bt'));
    }
  }

  lemma {:induction false} SiblingSmall(level: nat, es: seq<Entry>, lo: nat, hi: nat, s: nat)
    requires level > 0 && Shape(level, es, lo, hi) && s < |es|
    ensures es[s].Child? && forall i :: 0 <= i < |es[s].block.entries| ==> EntryBytes(es[s].block.entries[i]) <= 936
  {
    hide EntryOK, Children, Shape;
    ShapeAt(level, es, lo, hi, s);
    EntryIs(level, es[s], Start(es, s, lo));
    EntriesAreSmall(level - 1, es[s].block.entries, Start(es, s, lo), es[s].key);
  }

  // ---- the walk down

  datatype Outcome = Arrived | Again(block: Block)

  /** A walk that starts again has kept all items and is closer to its end. */
  ghost predicate Advances(b: Block, b': Block, lo: nat, hi: nat, key: nat, top: bool) {
    && OK(b', lo, hi) && Items(b') == Items(b) && Less(MeasureOf(b', key), MeasureOf(b, key)) && b'.entries != []
    && (!top ==> b'.level == b.level)
    && (top && b'.level > 0 ==> |b'.entries| >= 2)
  }

  /** The blocks on the way to a key have room, and when deleting those under the root are not low. */
  ghost predicate Ready(b: Block, key: nat, len: nat, del: bool, top: bool)
    decreases b
  {
    var i := Below(b.entries, key);
    !Full(b, len) && (del && !top ==> !Low(b)) && (b.level > 0 && i < |b.entries| ==> ReadyUnder(b.entries[i], key, len, del))
  }

  ghost predicate ReadyUnder(e: Entry, key: nat, len: nat, del: bool)
    decreases e
  {
    match e
    case Item(_, _) => true
    case Child(_, b) => Ready(b, key, len, del, false)
  }

  /** The child for a key and what it covers. */
  lemma {:induction false} ChildFor(level: nat, es: seq<Entry>, lo: nat, hi: nat, key: nat)
    requires level > 0 && Shape(level, es, lo, hi) && lo <= key <= hi
    ensures var i := Below(es, key);
            && i < |es| && es[i].Child? && Start(es, i, lo) <= key <= es[i].key && OK(es[i].block, Start(es, i, lo), es[i].key)
            && es[i].block.entries != [] && es[i].block.level == level - 1
  {
    hide EntryOK, Children;
    BelowIs(es, key);
    var i := Below(es, key);
    hide Below;
    ShapeAt(level, es, lo, hi, i);
    EntryIs(level, es[i], Start(es, i, lo));
  }

  /** A child is replaced by one with the same items that is closer to the end of the walk. */
  lemma {:induction false} KidAdvances(level: nat, es: seq<Entry>, lo: nat, hi: nat, i: nat, c': Block, key: nat)
    requires level > 0 && Shape(level, es, lo, hi) && Total(es) <= Capacity(level) && i < |es| && es[i].Child? && Below(es, key) == i
    requires Advances(es[i].block, c', Start(es, i, lo), es[i].key, key, false) && es[i].block.level == level - 1
    ensures var es' := es[i := Child(es[i].key, c')];
            && OK(Block(level, es'), lo, hi) && Items(Block(level, es')) == Items(Block(level, es))
            && Less(MeasureOf(Block(level, es'), key), MeasureOf(Block(level, es), key))
  {
    hide Shape, EntryOK, Below, Rest, Items, Less, Total, MeasureOf, ItemsOf, Increasing;
    var e, es' := Child(es[i].key, c'), es[i := Child(es[i].key, c')];
    ShapeAt(level, es, lo, hi, i);
    DividedOne(level - 1, Start(es, i, lo), es[i].key, c'.entries);
    assert c' == Block(level - 1, c'.entries);
    ReplaceShape(level, es, lo, hi, i, i + 1, [e]);
    assert es' == es[..i] + [e] + es[i + 1..];
    KidTotal(es, i, e);
    ItemsOne(e);
    ItemsOne(es[i]);
    assert es[i..i + 1] == [es[i]];
    HoldsUnder(e);
    HoldsUnder(es[i]);
    KidItems(level, es, i, i + 1, [e]);
    KidMeasure(level, es, lo, hi, i, c', key);
  }

  lemma {:induction false} KidTotal(es: seq<Entry>, i: nat, e: Entry)
    requires i < |es| && es[i].Child? && e.Child?
    ensures Total(es[..i] + [e] + es[i + 1..]) == Total(es)
  {
    TotalConcat(es[..i] + [e], es[i + 1..]);
    TotalConcat(es[..i], [e]);
    TotalConcat(es[..i] + [es[i]], es[i + 1..]);
    TotalConcat(es[..i], [es[i]]);
    assert es == es[..i] + [es[i]] + es[i + 1..];
    TotalOne(e);
    TotalOne(es[i]);
  }

  lemma {:induction false} KidMeasure(level: nat, es: seq<Entry>, lo: nat, hi: nat, i: nat, c': Block, key: nat)
    requires level > 0 && Shape(level, es, lo, hi) && i < |es| && es[i].Child? && Below(es, key) == i
    requires Less(MeasureOf(c', key), MeasureOf(es[i].block, key))
    ensures Less(MeasureOf(Block(level, es[i := Child(es[i].key, c')]), key), MeasureOf(Block(level, es), key))
  {
    hide EntryOK, Children, Rest, Below, Total;
    var e, es' := Child(es[i].key, c'), es[i := Child(es[i].key, c')];
    assert es' == es[..i] + [e] + es[i + 1..];
    KidTotal(es, i, e);
    KidBlocks(es, i, i + 1, [e]);
    assert es[i..i + 1] == [es[i]];
    BlocksOne(e);
    BlocksOne(es[i]);
    BelowAt(es, key, i);
    SameKeysIncrease(es, es');
    BelowUnique(es', key, i);
    hide Increasing, Total, Shape;
    MeasureIs(level, es, key);
    MeasureIs(level, es', key);
    RestIs(level, es, key, i);
    RestIs(level, es', key, i);
  }

  lemma {:induction false} SameKeysIncrease(es: seq<Entry>, es': seq<Entry>)
    requires Increasing(es) && |es'| == |es| && forall i :: 0 <= i < |es| ==> es'[i].key == es[i].key
    ensures Increasing(es')
  {
    forall i, j | 0 <= i < j < |es'| ensures es'[i].key < es'[j].key { KeyOrder(es, i, j); }
  }

  /** A parent under the root that is not low has many children. */
  lemma {:induction false} ManyKids(level: nat, es: seq<Entry>, lo: nat, hi: nat)
    requires level > 0 && Shape(level, es, lo, hi) && Total(es) >= WATERMARK
    ensures |es| > 290
  {
    hide EntryOK, Increasing;
    forall i | 0 <= i < |es| ensures es[i].Child? {
      ShapeAt(level, es, lo, hi, i);
      EntryIs(level, es[i], Start(es, i, lo));
    }
    ParentTotal(es);
  }

  /** A parent after its child was split, joined or changed further down. */
  lemma {:induction false} SplitAdvances(b: Block, lo: nat, hi: nat, left: seq<Entry>, right: seq<Entry>, key: nat, len: nat, top: bool)
    requires OK(b, lo, hi) && b.level > 0 && !Full(b, len)
    requires var i := Below(b.entries, key);
             i < |b.entries| && b.entries[i].Child? && Heavy(b.entries[i].block) && Halves(b.entries[i].block, left, right, len)
    ensures left != [] && Advances(b, Block(b.level, SplitKids(b.entries, Below(b.entries, key), left, right)), lo, hi, key, top)
  {
    hide Shape, EntryOK, Halves, Below, Items, Less, MeasureOf;
    var i := Below(b.entries, key);
    HalvesIs(b.entries[i].block, left, right, len);
    assert b == Block(b.level, b.entries);
    SplitKidsShape(b.level, b.entries, lo, hi, i, left, right, len);
    SplitKidsItems(b.level, b.entries, i, left, right);
    SplitKidsTotal(b.level, b.entries, i, left, right);
    SplitKidsMeasure(b.level, b.entries, lo, hi, i, left, right, key, len);
    SplitKidsAt(b.entries, i, left, right);
  }

  lemma {:induction false} JoinAdvances(b: Block, lo: nat, hi: nat, r: Joined, key: nat, top: bool)
    requires OK(b, lo, hi) && b.level > 0 && IsJoined(b.level, b.entries, lo, hi, key, r) && (r.Only? ==> top)
    ensures Advances(b, if r.Only? then r.block else Block(b.level, r.es), lo, hi, key, top)
  {
    hide Shape, Items, Less, MeasureOf, Total;
    assert b == Block(b.level, b.entries);
  }

  /** Goes down from a block that was checked already. */
  method Descend(b: Block, key: nat, len: nat, del: bool, top: bool, ghost lo: nat, ghost hi: nat) returns (r: Outcome)
    requires OK(b, lo, hi) && lo <= key <= hi && len <= MAX_VAL_LEN && !Full(b, len)
    requires (del && !top ==> !Low(b)) && (top && b.level > 0 ==> |b.entries| >= 2)
    ensures r.Again? ==> Advances(b, r.block, lo, hi, key, top)
    ensures r.Arrived? ==> Ready(b, key, len, del, top)
    decreases b
  {
    hide Shape, EntryOK, Halves, Below, Items, IsJoined, Advances, Total;
    if b.level == 0 {
      return Arrived;
    }
    ChildFor(b.level, b.entries, lo, hi, key);
    var i := Below(b.entries, key);
    var c := b.entries[i].block;
    ghost var s := Start(b.entries, i, lo);
    var fragmented: bool := *;
    if Full(c, len) || (fragmented && Heavy(c)) {
      if Full(c, len) { FullIsHeavy(c, len); }
      var left, right := SplitBlock(c, len, s, b.entries[i].key);
      SplitAdvances(b, lo, hi, left, right, key, len, top);
      return Again(Block(b.level, SplitKids(b.entries, i, left, right)));
    }
    if del && Low(c) {
      if !top { ManyKids(b.level, b.entries, lo, hi); }
      var j, _ := JoinChild(b.level, b.entries, i, lo, hi, key, len);
      OnlyAtTop(b.level, b.entries, lo, hi, key, j);
      JoinAdvances(b, lo, hi, j, key, top);
      return Again(if j.Only? then j.block else Block(b.level, j.es));
    }
    var down := Descend(c, key, len, del, false, s, b.entries[i].key);
    if down.Again? {
      KidAdvances(b.level, b.entries, lo, hi, i, down.block, key);
      KidAdvanced(b, lo, hi, i, down.block, key, top);
      return Again(Block(b.level, b.entries[i := Child(b.entries[i].key, down.block)]));
    }
    r := Arrived;
  }

  lemma {:induction false} KidAdvanced(b: Block, lo: nat, hi: nat, i: nat, c': Block, key: nat, top: bool)
    requires b.level > 0 && i < |b.entries| && (top ==> |b.entries| >= 2)
    requires var b' := Block(b.level, b.entries[i := Child(b.entries[i].key, c')]);
             && OK(b', lo, hi) && Items(b') == Items(Block(b.level, b.entries))
             && Less(MeasureOf(b', key), MeasureOf(Block(b.level, b.entries), key))
    ensures Advances(b, Block(b.level, b.entries[i := Child(b.entries[i].key, c')]), lo, hi, key, top)
  {
    hide OK, Items, Less, MeasureOf;
    assert b == Block(b.level, b.entries);
  }

  lemma {:induction false} OnlyAtTop(level: nat, es: seq<Entry>, lo: nat, hi: nat, key: nat, r: Joined)
    requires IsJoined(level, es, lo, hi, key, r)
    ensures r.Only? ==> |es| == 2
  {
  }
}
