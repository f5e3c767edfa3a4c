/** What splitting and joining blocks does to a parent: its shape, its items and the measure of the walk. */
module BTreeMoves {
  import opened LeafValues
  import opened BTree
  import opened BTreeWalk

  // ---- shapes

  lemma {:induction false} OneKid(level: nat, e: Entry, lo: nat)
    requires level > 0 && EntryOK(level, e, lo) && lo <= e.key
    ensures Shape(level, [e], lo, e.key)
  {
  }

  lemma {:induction false} TwoKids(level: nat, e: Entry, f: Entry, lo: nat)
    requires level > 0 && EntryOK(level, e, lo) && EntryOK(level, f, e.key + 1) && lo <= e.key < f.key
    ensures Shape(level, [e, f], lo, f.key)
  {
    hide EntryOK;
    OneKid(level, e, lo);
    OneKid(level, f, e.key + 1);
    JoinShape(level, [e], [f], lo, e.key, f.key);
    assert [e] + [f] == [e, f];
  }

  /** The entries from `i` to `j` are replaced by others that cover the same range. */
  lemma {:induction false} ReplaceShape(level: nat, es: seq<Entry>, lo: nat, hi: nat, i: nat, j: nat, mid: seq<Entry>)
    requires level > 0 && Shape(level, es, lo, hi) && i < j <= |es|
    requires Shape(level, mid, Start(es, i, lo), es[j - 1].key)
    ensures Shape(level, es[..i] + mid + es[j..], lo, hi)
  {
    hide Shape;
    var a, c := es[..i], es[j..];
    ShapeAt(level, es, lo, hi, i);
    LastKey(level, es, lo, hi);
    if j < |es| { SplitShape(level, es, lo, hi, j); } else { assert c == []; }
    if i > 0 { SplitShape(level, es, lo, hi, i); } else { assert a + mid == mid; }
    ReplaceBounds(level, es, lo, hi, i, j);
    if i > 0 { JoinShape(level, a, mid, lo, es[i - 1].key, es[j - 1].key); }
    if j < |es| { JoinShape(level, a + mid, c, lo, es[j - 1].key, hi); } else { assert a + mid + c == a + mid; }
  }

  lemma {:induction false} ReplaceBounds(level: nat, es: seq<Entry>, lo: nat, hi: nat, i: nat, j: nat)
    requires level > 0 && Shape(level, es, lo, hi) && i < j <= |es|
    ensures i > 0 ==> lo <= es[i - 1].key < es[j - 1].key
    ensures lo <= es[j - 1].key && (j < |es| ==> es[j - 1].key < hi)
  {
    if i > 0 && i < j { KeyOrder(es, i - 1, j - 1); }
    if j < |es| { KeyOrder(es, j - 1, j); }
  }

  lemma {:induction false} LastKey(level: nat, es: seq<Entry>, lo: nat, hi: nat)
    requires level > 0 && Shape(level, es, lo, hi)
    ensures es != [] && es[|es| - 1].key == hi
  {
  }

  // ---- items

  lemma {:induction false} BlockItems(level: nat, a: seq<Entry>, b: seq<Entry>)
    ensures Items(Block(level, a + b)) == Items(Block(level, a)) + Items(Block(level, b))
  {
    if level > 0 { ItemsConcat(a, b); }
  }

  lemma {:induction false} KidItems(level: nat, es: seq<Entry>, i: nat, j: nat, mid: seq<Entry>)
    requires level > 0 && i <= j <= |es| && ItemsOf(es[i..j]) == ItemsOf(mid)
    ensures Items(Block(level, es[..i] + mid + es[j..])) == Items(Block(level, es))
  {
    hide ItemsOf;
    ItemsConcat(es[..i] + mid, es[j..]);
    ItemsConcat(es[..i], mid);
    ItemsConcat(es[..i] + es[i..j], es[j..]);
    ItemsConcat(es[..i], es[i..j]);
    assert es == es[..i] + es[i..j] + es[j..];
  }

  lemma {:induction false} BlocksConcat(a: seq<Entry>, b: seq<Entry>)
    ensures BlocksOf(a + b) == BlocksOf(a) + BlocksOf(b)
  {
    if b == [] {
      assert a + b == a;
    } else {
      BlocksConcat(a, b[..|b| - 1]);
      assert (a + b)[..|a + b| - 1] == a + b[..|b| - 1];
    }
  }

  lemma {:induction false} KidBlocks(es: seq<Entry>, i: nat, j: nat, mid: seq<Entry>)
    requires i <= j <= |es|
    ensures BlocksOf(es[..i] + mid + es[j..]) == BlocksOf(es) - BlocksOf(es[i..j]) + BlocksOf(mid)
  {
    BlocksConcat(es[..i] + mid, es[j..]);
    BlocksConcat(es[..i], mid);
    BlocksConcat(es[..i] + es[i..j], es[j..]);
    BlocksConcat(es[..i], es[i..j]);
    assert es == es[..i] + es[i..j] + es[j..];
  }

  lemma {:induction false} PairOf(e: Entry, f: Entry)
    ensures ItemsOf([e, f]) == ItemsUnder(e) + ItemsUnder(f) && ItemsOf([e]) == ItemsUnder(e)
    ensures BlocksOf([e, f]) == BlocksUnder(e) + BlocksUnder(f) && BlocksOf([e]) == BlocksUnder(e)
  {
    assert [e, f] == [e] + [f];
    ItemsConcat([e], [f]);
    BlocksConcat([e], [f]);
    ItemsOne(e);
    ItemsOne(f);
    BlocksOne(e);
    BlocksOne(f);
  }

  lemma {:induction false} BlocksOne(e: Entry)
    ensures BlocksOf([e]) == BlocksUnder(e)
  {
    assert [e][..0] == [];
  }

  lemma {:induction false} BlockBlocks(level: nat, a: seq<Entry>, b: seq<Entry>)
    ensures Blocks(Block(level, a + b)) + 1 == Blocks(Block(level, a)) + Blocks(Block(level, b))
  {
    if level > 0 { BlocksConcat(a, b); }
  }

  // ---- the way to a key

  /** What the blocks below one add to the measure, on the way to a key. */
  ghost function Rest(level: nat, es: seq<Entry>, key: nat): (int, int, int) {
    var i := Below(es, key);
    if level > 0 && i < |es| then (HeavyUnder(es[i], key), DepthUnder(es[i], key), SlackUnder(es[i], key)) else (0, 0, 0)
  }

  ghost function Room(es: seq<Entry>): nat {
    if Total(es) < BLOCK_SIZE then BLOCK_SIZE - Total(es) else 0
  }

  lemma {:induction false} MeasureIs(level: nat, es: seq<Entry>, key: nat)
    ensures var b, r, own := Block(level, es), Rest(level, es, key), if Heavy(Block(level, es)) then 1 else 0;
            && HeavyCount(b, key) == own + r.0 && HeavyDepth(b, key) == own + r.1 && Slack(b, key) == Room(es) + r.2
  {
  }

  /** When the chosen entry is a child its block's measure is what is below. */
  lemma {:induction false} RestIs(level: nat, es: seq<Entry>, key: nat, i: nat)
    requires level > 0 && i < |es| && es[i].Child? && Below(es, key) == i
    ensures var c := es[i].block;
            Rest(level, es, key) == (HeavyCount(c, key), HeavyDepth(c, key) + HeavyCount(c, key), Slack(c, key))
  {
  }

  lemma {:induction false} BelowParts(a: seq<Entry>, b: seq<Entry>, key: nat)
    requires Increasing(a + b) && a != []
    ensures key <= a[|a| - 1].key ==> Below(a + b, key) == Below(a, key) < |a|
    ensures key > a[|a| - 1].key ==> Below(a + b, key) == |a| + Below(b, key)
  {
    var es := a + b;
    PartsIncrease(a, b);
    if key <= a[|a| - 1].key {
      BelowIs(a, key);
      var n := Below(a, key);
      assert n < |a|;
      assert n > 0 ==> es[n - 1] == a[n - 1];
      assert es[n] == a[n];
      BelowUnique(es, key, n);
    } else {
      BelowIs(b, key);
      var n := |a| + Below(b, key);
      assert es[n - 1] == if n == |a| then a[n - 1] else b[n - 1 - |a|];
      assert n < |es| ==> es[n] == b[n - |a|];
      BelowUnique(es, key, n);
    }
  }

  lemma {:induction false} PartsIncrease(a: seq<Entry>, b: seq<Entry>)
    requires Increasing(a + b)
    ensures Increasing(a) && Increasing(b)
  {
    var es := a + b;
    forall i, j | 0 <= i < j < |a| ensures a[i].key < a[j].key { assert es[i] == a[i] && es[j] == a[j]; }
    forall i, j | 0 <= i < j < |b| ensures b[i].key < b[j].key { assert es[|a| + i] == b[i] && es[|a| + j] == b[j]; }
  }

  /** What is below a block made of two parts is below the part that the key is in. */
  lemma {:induction false} RestParts(level: nat, a: seq<Entry>, b: seq<Entry>, key: nat)
    requires Increasing(a + b) && a != []
    ensures Rest(level, a + b, key) == if key <= a[|a| - 1].key then Rest(level, a, key) else Rest(level, b, key)
  {
    hide Below;
    BelowParts(a, b, key);
  }

  // ---- splitting a child

  /** Entries are small, so a block that has no room for another has many of them. */
  lemma {:induction false} EntriesAreSmall(level: nat, es: seq<Entry>, lo: nat, hi: nat)
    requires Shape(level, es, lo, hi)
    ensures forall i :: 0 <= i < |es| ==> EntryBytes(es[i]) <= 936
  {
    hide EntryOK;
    if level > 0 {
      forall i | 0 <= i < |es| ensures EntryBytes(es[i]) <= 936 {
        ShapeAt(level, es, lo, hi, i);
        EntryIs(level, es[i], Start(es, i, lo));
      }
    }
  }

  /** The two halves of a heavy block. */
  ghost predicate Halves(b: Block, left: seq<Entry>, right: seq<Entry>, len: nat) {
    && left + right == b.entries && left != [] && right != []
    && !Full(Block(b.level, left), len) && !Full(Block(b.level, right), len)
    && !Heavy(Block(b.level, left)) && !Heavy(Block(b.level, right))
    && Total(left) <= Capacity(b.level) && Total(right) <= Capacity(b.level)
  }

  lemma {:induction false} HalvesShape(b: Block, left: seq<Entry>, right: seq<Entry>, len: nat, lo: nat, hi: nat)
    requires OK(b, lo, hi) && Halves(b, left, right, len)
    ensures var k := left[|left| - 1].key;
            && lo <= k < hi && Shape(b.level, left, lo, k) && Shape(b.level, right, k + 1, hi)
  {
    hide Shape;
    SplitShape(b.level, b.entries, lo, hi, |left|);
    assert b.entries[..|left|] == left && b.entries[|left|..] == right && b.entries[|left| - 1] == left[|left| - 1];
  }

  /** A parent's entries after one of its children was split to the left. */
  function SplitKids(es: seq<Entry>, i: nat, left: seq<Entry>, right: seq<Entry>): seq<Entry>
    requires i < |es| && es[i].Child? && left != []
  {
    var l := es[i].block.level;
    es[..i] + [Child(left[|left| - 1].key, Block(l, left)), Child(es[i].key, Block(l, right))] + es[i + 1..]
  }

  lemma {:induction false} SplitKidsShape(level: nat, es: seq<Entry>, lo: nat, hi: nat, i: nat, left: seq<Entry>, right: seq<Entry>, len: nat)
    requires level > 0 && Shape(level, es, lo, hi) && i < |es| && es[i].Child? && Halves(es[i].block, left, right, len)
    ensures Shape(level, SplitKids(es, i, left, right), lo, hi)
  {
    hide Shape, EntryOK, Halves;
    ShapeAt(level, es, lo, hi, i);
    EntryIs(level, es[i], Start(es, i, lo));
    HalvesIs(es[i].block, left, right, len);
    HalvesShape(es[i].block, left, right, len, Start(es, i, lo), es[i].key);
    var l := es[i].block.level;
    var e, f := Child(left[|left| - 1].key, Block(l, left)), Child(es[i].key, Block(l, right));
    EntryMade(level, e, Start(es, i, lo));
    EntryMade(level, f, e.key + 1);
    TwoKids(level, e, f, Start(es, i, lo));
    ReplaceShape(level, es, lo, hi, i, i + 1, [e, f]);
  }

  lemma {:induction false} HalvesIs(b: Block, left: seq<Entry>, right: seq<Entry>, len: nat)
    requires Halves(b, left, right, len)
    ensures left + right == b.entries && left != [] && right != []
    ensures Total(left) <= Capacity(b.level) && Total(right) <= Capacity(b.level)
    ensures !Full(Block(b.level, left), len) && !Full(Block(b.level, right), len)
  {
  }

  lemma {:induction false} SplitKidsItems(level: nat, es: seq<Entry>, i: nat, left: seq<Entry>, right: seq<Entry>)
    requires level > 0 && i < |es| && es[i].Child? && left != [] && left + right == es[i].block.entries
    ensures Items(Block(level, SplitKids(es, i, left, right))) == Items(Block(level, es))
  {
    var l := es[i].block.level;
    var e, f := Child(left[|left| - 1].key, Block(l, left)), Child(es[i].key, Block(l, right));
    PairOf(e, f);
    ItemsOne(es[i]);
    BlockItems(l, left, right);
    assert es[i].block == Block(l, left + right);
    assert es[i..i + 1] == [es[i]];
    KidItems(level, es, i, i + 1, [e, f]);
  }

  lemma {:induction false} SplitKidsTotal(level: nat, es: seq<Entry>, i: nat, left: seq<Entry>, right: seq<Entry>)
    requires i < |es| && es[i].Child? && left != []
    ensures Total(SplitKids(es, i, left, right)) == Total(es) + 56
  {
    var l := es[i].block.level;
    var e, f := Child(left[|left| - 1].key, Block(l, left)), Child(es[i].key, Block(l, right));
    TotalConcat(es[..i] + [e, f], es[i + 1..]);
    TotalConcat(es[..i], [e, f]);
    TotalConcat([e], [f]);
    TotalOne(e);
    TotalOne(f);
    TotalOne(es[i]);
    TotalConcat(es[..i] + [es[i]], es[i + 1..]);
    TotalConcat(es[..i], [es[i]]);
    assert [e] + [f] == [e, f] && es == es[..i] + [es[i]] + es[i + 1..];
  }

  /** Where the walk goes after the split. */
  lemma {:induction false} SplitKidsChoice(level: nat, es: seq<Entry>, lo: nat, hi: nat, i: nat, left: seq<Entry>, right: seq<Entry>, key: nat)
    requires level > 0 && Shape(level, es, lo, hi) && i < |es| && es[i].Child? && left != []
    requires Shape(level, SplitKids(es, i, left, right), lo, hi) && Below(es, key) == i
    ensures Below(SplitKids(es, i, left, right), key) == if key <= left[|left| - 1].key then i else i + 1
    ensures SplitKids(es, i, left, right)[i].block.entries == left && SplitKids(es, i, left, right)[i + 1].block.entries == right
  {
    hide EntryOK, Children;
    var es' := SplitKids(es, i, left, right);
    BelowIs(es, key);
    assert i > 0 ==> es'[i - 1] == es[i - 1];
    assert es'[i].key == left[|left| - 1].key && es'[i + 1].key == es[i].key;
    hide Shape, Below, Increasing;
    BelowUnique(es', key, if key <= left[|left| - 1].key then i else i + 1);
  }

  lemma {:induction false} HalfMeasure(b: Block, left: seq<Entry>, right: seq<Entry>, key: nat, len: nat)
    requires Increasing(b.entries) && Halves(b, left, right, len) && Heavy(b)
    ensures var h := Block(b.level, if key <= left[|left| - 1].key then left else right);
            && HeavyCount(h, key) == HeavyCount(b, key) - 1 && HeavyDepth(h, key) == HeavyDepth(b, key) - 1
  {
    hide Rest;
    RestParts(b.level, left, right, key);
    MeasureIs(b.level, b.entries, key);
    MeasureIs(b.level, left, key);
    MeasureIs(b.level, right, key);
  }

  /** A split takes a heavy block off the way, though the parent can become one. */
  lemma {:induction false} SplitKidsMeasure(level: nat, es: seq<Entry>, lo: nat, hi: nat, i: nat, left: seq<Entry>, right: seq<Entry>, key: nat, len: nat)
    requires level > 0 && Shape(level, es, lo, hi) && i < |es| && es[i].Child? && Halves(es[i].block, left, right, len)
    requires Heavy(es[i].block) && Below(es, key) == i
    ensures Less(MeasureOf(Block(level, SplitKids(es, i, left, right)), key), MeasureOf(Block(level, es), key))
  {
    hide Rest, Shape, Heavy, Halves, Below, HeavyCount, HeavyDepth, Slack, Blocks, SplitKids, Increasing;
    HalvesIs(es[i].block, left, right, len);
    var es', c := SplitKids(es, i, left, right), es[i].block;
    SplitKidsShape(level, es, lo, hi, i, left, right, len);
    SplitKidsChoice(level, es, lo, hi, i, left, right, key);
    SplitKidsAt(es, i, left, right);
    ShapeAt(level, es, lo, hi, i);
    EntryIs(level, es[i], Start(es, i, lo));
    ShapeKeys(c.level, c.entries, Start(es, i, lo), es[i].key);
    HalfMeasure(c, left, right, key, len);
    MeasureIs(level, es, key);
    MeasureIs(level, es', key);
    RestIs(level, es, key, i);
    RestIs(level, es', key, if key <= left[|left| - 1].key then i else i + 1);
  }

  lemma {:induction false} SplitKidsAt(es: seq<Entry>, i: nat, left: seq<Entry>, right: seq<Entry>)
    requires i < |es| && es[i].Child? && left != []
    ensures |SplitKids(es, i, left, right)| == |es| + 1
    ensures SplitKids(es, i, left, right)[i] == Child(left[|left| - 1].key, Block(es[i].block.level, left))
    ensures SplitKids(es, i, left, right)[i + 1] == Child(es[i].key, Block(es[i].block.level, right))
  {
  }

  lemma {:induction false} ShapeKeys(level: nat, es: seq<Entry>, lo: nat, hi: nat)
    requires Shape(level, es, lo, hi)
    ensures Increasing(es) && InRange(es, lo, hi)
  {
  }

  // ---- splitting the root

  lemma {:induction false} RootSplits(r: Block, left: seq<Entry>, right: seq<Entry>, key: nat, len: nat)
    requires OK(r, 0, MAX_KEY) && Heavy(r) && Halves(r, left, right, len) && key <= MAX_KEY
    ensures var r' := Block(r.level + 1, [Child(left[|left| - 1].key, Block(r.level, left)), Child(MAX_KEY, Block(r.level, right))]);
            OK(r', 0, MAX_KEY) && Items(r') == Items(r) && Less(MeasureOf(r', key), MeasureOf(r, key))
  {
    hide Shape, Halves, Rest, HeavyCount, HeavyDepth, Slack, Blocks, EntryOK, Increasing, Total;
    HalvesIs(r, left, right, len);
    HalvesShape(r, left, right, len, 0, MAX_KEY);
    var e, f := Child(left[|left| - 1].key, Block(r.level, left)), Child(MAX_KEY, Block(r.level, right));
    EntryMade(r.level + 1, e, 0);
    EntryMade(r.level + 1, f, e.key + 1);
    TwoKids(r.level + 1, e, f, 0);
    PairOf(e, f);
    BlockItems(r.level, left, right);
    assert r == Block(r.level, left + right);
    TotalPair(e, f);
    ShapeKeys(r.level, r.entries, 0, MAX_KEY);
    ShapeKeys(r.level + 1, [e, f], 0, MAX_KEY);
    HalfMeasure(r, left, right, key, len);
    BelowUnique([e, f], key, if key <= e.key then 0 else 1);
    MeasureIs(r.level + 1, [e, f], key);
    RestIs(r.level + 1, [e, f], key, if key <= e.key then 0 else 1);
  }

  lemma {:induction false} TotalPair(e: Entry, f: Entry)
    ensures Total([e, f]) == EntryBytes(e) + EntryBytes(f)
  {
    TotalConcat([e], [f]);
    TotalOne(e);
    TotalOne(f);
    assert [e] + [f] == [e, f];
  }

  // ---- joining two children

  /** The entries of two neighbours are divided again between them; one that gets none is gone. */
  function Divided(l: nat, k: nat, p: seq<Entry>, q: seq<Entry>): (mid: seq<Entry>)
    ensures mid != []
  {
    if p == [] then [Child(k, Block(l, q))]
    else if q == [] then [Child(p[|p| - 1].key, Block(l, p))]
    else [Child(p[|p| - 1].key, Block(l, p)), Child(k, Block(l, q))]
  }

  ghost predicate Divides(level: nat, es: seq<Entry>, j: nat, p: seq<Entry>, q: seq<Entry>) {
    && level > 0 && j + 1 < |es| && es[j].Child? && es[j + 1].Child?
    && es[j].block.level == level - 1 && es[j + 1].block.level == level - 1
    && p + q == es[j].block.entries + es[j + 1].block.entries && (p != [] || q != [])
    && Total(p) <= Capacity(level - 1) && Total(q) <= Capacity(level - 1)
  }

  /** The two neighbours' entries are one run. */
  lemma {:induction false} BothShape(level: nat, es: seq<Entry>, lo: nat, hi: nat, j: nat)
    requires level > 0 && Shape(level, es, lo, hi) && j + 1 < |es|
    ensures es[j].Child? && es[j + 1].Child? && es[j].block.entries != [] && es[j + 1].block.entries != []
    ensures es[j].block.level == level - 1 && es[j + 1].block.level == level - 1
    ensures Start(es, j, lo) <= es[j].key < es[j + 1].key <= hi
    ensures Shape(level - 1, es[j].block.entries + es[j + 1].block.entries, Start(es, j, lo), es[j + 1].key)
    ensures Total(es[j].block.entries) <= Capacity(level - 1) && Total(es[j + 1].block.entries) <= Capacity(level - 1)
  {
    hide Shape, EntryOK, Increasing;
    ShapeAt(level, es, lo, hi, j);
    ShapeAt(level, es, lo, hi, j + 1);
    EntryIs(level, es[j], Start(es, j, lo));
    EntryIs(level, es[j + 1], Start(es, j + 1, lo));
    JoinShape(level - 1, es[j].block.entries, es[j + 1].block.entries, Start(es, j, lo), es[j].key, es[j + 1].key);
  }

  /** The shape of the children after their entries were divided again. */
  lemma {:induction false} DividedShape(l: nat, s: nat, k: nat, p: seq<Entry>, q: seq<Entry>)
    requires Shape(l, p + q, s, k) && (p != [] || q != []) && s <= k
    requires Total(p) <= Capacity(l) && Total(q) <= Capacity(l)
    ensures var mid := Divided(l, k, p, q);
            && Shape(l + 1, mid, s, mid[|mid| - 1].key) && s <= mid[|mid| - 1].key <= k
            && (q != [] || l > 0 ==> mid[|mid| - 1].key == k)
  {
    hide Shape, EntryOK, Total;
    var x := p + q;
    if p == [] {
      assert x == q;
      DividedOne(l, s, k, q);
    } else if q == [] {
      assert x == p;
      LeafEnds(l, p, s, k);
      DividedOne(l, s, p[|p| - 1].key, p);
    } else {
      DividedTwo(l, s, k, p, q);
    }
  }

  lemma {:induction false} DividedOne(l: nat, s: nat, k: nat, p: seq<Entry>)
    requires Shape(l, p, s, k) && p != [] && s <= k && Total(p) <= Capacity(l)
    ensures Shape(l + 1, [Child(k, Block(l, p))], s, k)
  {
    hide Shape, EntryOK;
    EntryMade(l + 1, Child(k, Block(l, p)), s);
    OneKid(l + 1, Child(k, Block(l, p)), s);
  }

  lemma {:induction false} DividedTwo(l: nat, s: nat, k: nat, p: seq<Entry>, q: seq<Entry>)
    requires Shape(l, p + q, s, k) && p != [] && q != [] && Total(p) <= Capacity(l) && Total(q) <= Capacity(l)
    ensures Shape(l + 1, [Child(p[|p| - 1].key, Block(l, p)), Child(k, Block(l, q))], s, k) && s <= p[|p| - 1].key < k
  {
    hide Shape, EntryOK;
    var x := p + q;
    SplitShape(l, x, s, k, |p|);
    assert x[..|p|] == p && x[|p|..] == q && x[|p| - 1] == p[|p| - 1];
    var e, f := Child(p[|p| - 1].key, Block(l, p)), Child(k, Block(l, q));
    EntryMade(l + 1, e, s);
    EntryMade(l + 1, f, e.key + 1);
    TwoKids(l + 1, e, f, s);
  }

  /** A leaf's range can end at its last key; a parent's does. */
  lemma {:induction false} LeafEnds(l: nat, p: seq<Entry>, lo: nat, hi: nat)
    requires Shape(l, p, lo, hi) && p != []
    ensures Shape(l, p, lo, p[|p| - 1].key) && lo <= p[|p| - 1].key <= hi && (l > 0 ==> p[|p| - 1].key == hi)
  {
    hide EntryOK, Children;
    if l == 0 {
      forall i | 0 <= i < |p| ensures p[i].key <= p[|p| - 1].key { if i < |p| - 1 { KeyOrder(p, i, |p| - 1); } }
    }
  }

  /** A parent after two of its children were divided again. */
  lemma {:induction false} DivideShape(level: nat, es: seq<Entry>, lo: nat, hi: nat, j: nat, p: seq<Entry>, q: seq<Entry>)
    requires Shape(level, es, lo, hi) && Divides(level, es, j, p, q) && (q != [] || j + 2 < |es|)
    ensures Shape(level, es[..j] + Divided(level - 1, es[j + 1].key, p, q) + es[j + 2..], lo, hi)
  {
    hide Shape, EntryOK, Divided;
    var mid, rest := Divided(level - 1, es[j + 1].key, p, q), es[j + 2..];
    BothShape(level, es, lo, hi, j);
    DividedShape(level - 1, Start(es, j, lo), es[j + 1].key, p, q);
    var k := mid[|mid| - 1].key;
    if k == es[j + 1].key {
      ReplaceShape(level, es, lo, hi, j, j + 2, mid);
    } else {
      SplitShape(level, es, lo, hi, j + 2);
      StartLower(level, rest, es[j + 1].key + 1, k + 1, hi);
      DividedBounds(level, es, lo, hi, j);
      if j > 0 {
        SplitShape(level, es, lo, hi, j);
        JoinShape(level, es[..j], mid, lo, es[j - 1].key, k);
        JoinShape(level, es[..j] + mid, rest, lo, k, hi);
      } else {
        assert es[..0] + mid == mid;
        JoinShape(level, mid, rest, lo, k, hi);
      }
    }
  }

  lemma {:induction false} DividedBounds(level: nat, es: seq<Entry>, lo: nat, hi: nat, j: nat)
    requires level > 0 && Shape(level, es, lo, hi) && j + 2 < |es|
    ensures es[j + 1].key < hi && lo <= Start(es, j, lo) && (j > 0 ==> es[j - 1].key < hi && lo <= es[j - 1].key)
  {
    KeyOrder(es, j + 1, j + 2);
    if j > 0 { KeyOrder(es, j - 1, j); }
  }

  lemma {:induction false} DividedHolds(l: nat, k: nat, p: seq<Entry>, q: seq<Entry>)
    requires p != [] || q != []
    ensures ItemsOf(Divided(l, k, p, q)) == Items(Block(l, p + q))
    ensures BlocksOf(Divided(l, k, p, q)) == Blocks(Block(l, p + q)) + if p != [] && q != [] then 1 else 0
  {
    if p == [] {
      assert p + q == q;
      ItemsOne(Child(k, Block(l, q)));
      BlocksOne(Child(k, Block(l, q)));
    } else if q == [] {
      assert p + q == p;
      ItemsOne(Child(p[|p| - 1].key, Block(l, p)));
      BlocksOne(Child(p[|p| - 1].key, Block(l, p)));
    } else {
      PairOf(Child(p[|p| - 1].key, Block(l, p)), Child(k, Block(l, q)));
      BlockItems(l, p, q);
      BlockBlocks(l, p, q);
    }
  }

  /** A parent's items are the same after two of its children were divided again, and a child that got none is gone. */
  lemma {:induction false} DivideHolds(level: nat, es: seq<Entry>, j: nat, p: seq<Entry>, q: seq<Entry>)
    requires Divides(level, es, j, p, q)
    ensures var es' := es[..j] + Divided(level - 1, es[j + 1].key, p, q) + es[j + 2..];
            && Items(Block(level, es')) == Items(Block(level, es))
            && BlocksOf(es') == BlocksOf(es) - if p != [] && q != [] then 0 else 1
  {
    hide Divided;
    var l, a, b := level - 1, es[j].block.entries, es[j + 1].block.entries;
    DividedHolds(l, es[j + 1].key, p, q);
    assert es[j..j + 2] == [es[j], es[j + 1]];
    PairOf(es[j], es[j + 1]);
    BlockItems(l, a, b);
    BlockBlocks(l, a, b);
    KidItems(level, es, j, j + 2, Divided(l, es[j + 1].key, p, q));
    KidBlocks(es, j, j + 2, Divided(l, es[j + 1].key, p, q));
  }

  /** A join makes the block on the way bigger, or takes one away. */
  lemma {:induction false} JoinMeasure(level: nat, es: seq<Entry>, es': seq<Entry>, i: nat, t: nat, c': Block, key: nat)
    requires level > 0 && i < |es| && es[i].Child? && Below(es, key) == i
    requires t < |es'| && es'[t].Child? && es'[t].block == c' && Below(es', key) == t
    requires var c := es[i].block;
             && c'.level == c.level && Rest(c.level, c'.entries, key) == Rest(c.level, c.entries, key)
             && !Heavy(c) && !Heavy(c') && Total(es') <= Total(es)
             && (|| BlocksOf(es') < BlocksOf(es)
                 || (BlocksOf(es') == BlocksOf(es) && Total(es') == Total(es) && Total(c.entries) < Total(c'.entries) <= BLOCK_SIZE))
    ensures Less(MeasureOf(Block(level, es'), key), MeasureOf(Block(level, es), key))
  {
    hide Rest, Below;
    var c := es[i].block;
    MeasureIs(level, es, key);
    MeasureIs(level, es', key);
    RestIs(level, es, key, i);
    RestIs(level, es', key, t);
    MeasureIs(c.level, c.entries, key);
    MeasureIs(c.level, c'.entries, key);
  }

  /** When the root is left with one child that child is the root. */
  lemma {:induction false} CollapseMeasure(level: nat, es: seq<Entry>, i: nat, c': Block, key: nat)
    requires level > 0 && i < |es| && es[i].Child? && Below(es, key) == i
    requires var c := es[i].block;
             && c'.level == c.level && Rest(c.level, c'.entries, key) == Rest(c.level, c.entries, key)
             && !Heavy(c) && !Heavy(c') && Blocks(c') < Blocks(Block(level, es))
    ensures Less(MeasureOf(c', key), MeasureOf(Block(level, es), key))
  {
    hide Rest, Below, Blocks;
    var c := es[i].block;
    MeasureIs(level, es, key);
    RestIs(level, es, key, i);
    MeasureIs(c.level, c.entries, key);
    MeasureIs(c.level, c'.entries, key);
  }
}
