/**
  The tree above the blocks. A block is its sorted entries: items in leaves and
  children in parents. How a block's free space is laid out is not part of it: a
  block that is 80% full or more can be found with its free space in pieces.
*/
module BTree {
  import opened LeafValues
  import opened LeafArea

  const REF_BYTES: nat := 16
  const WATERMARK: nat := (BLOCK_SIZE - HEADER_BYTES) / 4

  datatype Entry = Item(key: nat, val: seq<nat>) | Child(key: nat, block: Block)

  datatype Block = Block(level: nat, entries: seq<Entry>)

  function EntryBytes(e: Entry): nat {
    ItemLenBytes(if e.Item? then |e.val| else REF_BYTES)
  }

  /** What a block's items take up. */
  function Total(es: seq<Entry>): nat {
    if es == [] then 0 else Total(es[..|es| - 1]) + EntryBytes(es[|es| - 1])
  }

  function Capacity(level: nat): nat {
    (if level == 0 then LEAF_END else BLOCK_SIZE) - HEADER_BYTES
  }

  predicate Increasing(es: seq<Entry>) {
    forall i, j :: 0 <= i < j < |es| ==> es[i].key < es[j].key
  }

  predicate InRange(es: seq<Entry>, lo: nat, hi: nat) {
    forall i :: 0 <= i < |es| ==> lo <= es[i].key <= hi
  }

  /** The lowest key that the child at an index can hold. */
  function Start(es: seq<Entry>, i: nat, lo: nat): nat
    requires i <= |es|
  {
    if i == 0 then lo else es[i - 1].key + 1
  }

  /** Entries of a block whose keys are from `lo` to `hi`: a parent's last key is its own bound, and its children fill its range. */
  ghost predicate Shape(level: nat, es: seq<Entry>, lo: nat, hi: nat)
    decreases es, 1
  {
    && Increasing(es) && InRange(es, lo, hi)
    && (level == 0 ==> AllItems(es))
    && (level > 0 ==> es != [] && es[|es| - 1].key == hi && Children(level, es, lo))
  }

  ghost predicate AllItems(es: seq<Entry>) {
    forall i :: 0 <= i < |es| ==> es[i].Item? && |es[i].val| <= MAX_VAL_LEN
  }

  ghost predicate Children(level: nat, es: seq<Entry>, lo: nat)
    requires level > 0
    decreases es, 0
  {
    forall i :: 0 <= i < |es| ==> EntryOK(level, es[i], Start(es, i, lo))
  }

  /** A child is not empty, and its keys are from `lo` to the key of its entry. */
  ghost predicate EntryOK(level: nat, e: Entry, lo: nat)
    requires level > 0
    decreases e
  {
    e.Child? && e.block.level == level - 1 && e.block.entries != [] && OK(e.block, lo, e.key)
  }

  ghost predicate OK(b: Block, lo: nat, hi: nat)
    decreases b
  {
    Shape(b.level, b.entries, lo, hi) && Total(b.entries) <= Capacity(b.level)
  }

  /** All of the items under a block, in order. */
  function Items(b: Block): seq<Entry>
    decreases b
  {
    if b.level == 0 then b.entries else ItemsOf(b.entries)
  }

  function ItemsUnder(e: Entry): seq<Entry>
    decreases e
  {
    match e
    case Item(_, _) => []
    case Child(_, b) => Items(b)
  }

  function ItemsOf(es: seq<Entry>): seq<Entry>
    decreases es
  {
    if es == [] then [] else ItemsOf(es[..|es| - 1]) + ItemsUnder(es[|es| - 1])
  }

  /** How many entries have keys below a key: where a search for it ends. */
  function Below(es: seq<Entry>, key: nat): nat {
    if es == [] || es[0].key >= key then 0 else 1 + Below(es[1..], key)
  }

  lemma {:induction false} BelowIs(es: seq<Entry>, key: nat)
    requires Increasing(es)
    ensures Below(es, key) <= |es|
    ensures forall i :: 0 <= i < |es| ==> (es[i].key < key <==> i < Below(es, key))
  {
    if es != [] && es[0].key < key {
      BelowIs(es[1..], key);
      forall i | 0 <= i < |es| ensures es[i].key < key <==> i < Below(es, key) {
        if i > 0 { assert es[1..][i - 1] == es[i]; }
      }
    }
  }

  lemma {:induction false} BelowUnique(es: seq<Entry>, key: nat, n: nat)
    requires Increasing(es) && n <= |es| && (n > 0 ==> es[n - 1].key < key) && (n < |es| ==> key <= es[n].key)
    ensures Below(es, key) == n
  {
    BelowIs(es, key);
  }

  // ---- sums and concatenations

  lemma {:induction false} TotalConcat(a: seq<Entry>, b: seq<Entry>)
    ensures Total(a + b) == Total(a) + Total(b)
  {
    if b == [] {
      assert a + b == a;
    } else {
      TotalConcat(a, b[..|b| - 1]);
      assert (a + b)[..|a + b| - 1] == a + b[..|b| - 1];
    }
  }

  lemma {:induction false} TotalSplit(es: seq<Entry>, n: nat)
    requires n <= |es|
    ensures Total(es) == Total(es[..n]) + Total(es[n..])
  {
    TotalConcat(es[..n], es[n..]);
    assert es[..n] + es[n..] == es;
  }

  lemma {:induction false} ItemsConcat(a: seq<Entry>, b: seq<Entry>)
    ensures ItemsOf(a + b) == ItemsOf(a) + ItemsOf(b)
  {
    if b == [] {
      assert a + b == a;
    } else {
      ItemsConcat(a, b[..|b| - 1]);
      assert (a + b)[..|a + b| - 1] == a + b[..|b| - 1];
    }
  }

  lemma {:induction false} ItemsAround(es: seq<Entry>, i: nat)
    requires i < |es|
    ensures ItemsOf(es) == ItemsOf(es[..i]) + ItemsUnder(es[i]) + ItemsOf(es[i + 1..])
  {
    ItemsConcat(es[..i] + [es[i]], es[i + 1..]);
    ItemsConcat(es[..i], [es[i]]);
    assert es == es[..i] + [es[i]] + es[i + 1..];
    ItemsOne(es[i]);
  }

  lemma {:induction false} ItemsOne(e: Entry)
    ensures ItemsOf([e]) == ItemsUnder(e)
  {
    assert [e][..0] == [];
  }

  /** The bytes of parents: every entry is a reference. */
  lemma {:induction false} ParentTotal(es: seq<Entry>)
    requires forall i :: 0 <= i < |es| ==> es[i].Child?
    ensures Total(es) == 56 * |es|
  {
    if es != [] { ParentTotal(es[..|es| - 1]); }
  }

  lemma {:induction false} TotalBounds(es: seq<Entry>)
    requires forall i :: 0 <= i < |es| ==> EntryBytes(es[i]) <= 936
    ensures 38 * |es| <= Total(es) <= 936 * |es|
  {
    if es != [] { TotalBounds(es[..|es| - 1]); }
  }

  // ---- taking blocks apart and putting them together

  lemma {:induction false} EntryIs(level: nat, e: Entry, lo: nat)
    requires level > 0 && EntryOK(level, e, lo)
    ensures e.Child? && e.block.level == level - 1 && e.block.entries != []
    ensures Shape(level - 1, e.block.entries, lo, e.key) && Total(e.block.entries) <= Capacity(level - 1)
  {
  }

  lemma {:induction false} EntryMade(level: nat, e: Entry, lo: nat)
    requires level > 0 && e.Child? && e.block.level == level - 1 && e.block.entries != []
    requires Shape(level - 1, e.block.entries, lo, e.key) && Total(e.block.entries) <= Capacity(level - 1)
    ensures EntryOK(level, e, lo)
  {
  }

  lemma {:induction false} KeyOrder(es: seq<Entry>, i: nat, j: nat)
    requires Increasing(es) && i < j < |es|
    ensures es[i].key < es[j].key
  {
  }

  lemma {:induction false} ShapeAt(level: nat, es: seq<Entry>, lo: nat, hi: nat, i: nat)
    requires Shape(level, es, lo, hi) && level > 0 && i < |es|
    ensures EntryOK(level, es[i], Start(es, i, lo)) && Start(es, i, lo) <= es[i].key <= hi
  {
    hide EntryOK, Increasing;
    if i > 0 { KeyOrder(es, i - 1, i); }
  }

  lemma {:induction false} SliceKeys(es: seq<Entry>, lo: nat, hi: nat, n: nat)
    requires Increasing(es) && InRange(es, lo, hi) && 0 < n < |es|
    ensures Increasing(es[..n]) && Increasing(es[n..])
    ensures InRange(es[..n], lo, es[n - 1].key) && InRange(es[n..], es[n - 1].key + 1, hi)
    ensures lo <= es[n - 1].key < hi
  {
    KeyOrder(es, n - 1, n);
  }

  lemma {:induction false} ConcatKeys(a: seq<Entry>, b: seq<Entry>, lo: nat, mid: nat, hi: nat)
    requires Increasing(a) && Increasing(b) && InRange(a, lo, mid) && InRange(b, mid + 1, hi) && lo <= mid < hi
    ensures Increasing(a + b) && InRange(a + b, lo, hi)
  {
    var es := a + b;
    forall i, j | 0 <= i < j < |es| ensures es[i].key < es[j].key {
      assert i < |a| ==> es[i] == a[i];
      assert j >= |a| ==> es[j] == b[j - |a|];
    }
  }

  /** A range can start lower. */
  lemma {:induction false} StartLower(level: nat, es: seq<Entry>, lo: nat, lo': nat, hi: nat)
    requires Shape(level, es, lo, hi) && lo' <= lo
    ensures Shape(level, es, lo', hi)
    decreases level
  {
    hide EntryOK, Increasing;
    if level > 0 {
      ShapeAt(level, es, lo, hi, 0);
      EntryIs(level, es[0], lo);
      StartLower(level - 1, es[0].block.entries, lo, lo', es[0].key);
      EntryMade(level, es[0], lo');
      forall i | 0 <= i < |es| ensures EntryOK(level, es[i], Start(es, i, lo')) {
        ShapeAt(level, es, lo, hi, i);
      }
    }
  }

  lemma {:induction false} ChildAt(level: nat, es: seq<Entry>, lo: nat, i: nat)
    requires level > 0 && Children(level, es, lo) && i < |es|
    ensures EntryOK(level, es[i], Start(es, i, lo))
  {
  }

  lemma {:induction false} SplitChildren(level: nat, es: seq<Entry>, lo: nat, n: nat)
    requires level > 0 && Children(level, es, lo) && 0 < n <= |es|
    ensures Children(level, es[..n], lo) && Children(level, es[n..], es[n - 1].key + 1)
  {
    hide EntryOK;
    var a, b := es[..n], es[n..];
    forall i: nat | i < |a| ensures EntryOK(level, a[i], Start(a, i, lo)) {
      ChildAt(level, es, lo, i);
    }
    forall i: nat | i < |b| ensures EntryOK(level, b[i], Start(b, i, es[n - 1].key + 1)) {
      ChildAt(level, es, lo, n + i);
    }
  }

  lemma {:induction false} JoinChildren(level: nat, a: seq<Entry>, b: seq<Entry>, lo: nat)
    requires level > 0 && a != [] && Children(level, a, lo) && Children(level, b, a[|a| - 1].key + 1)
    ensures Children(level, a + b, lo)
  {
    hide EntryOK;
    var es := a + b;
    forall i: nat | i < |es| ensures EntryOK(level, es[i], Start(es, i, lo)) {
      if i < |a| { ChildAt(level, a, lo, i); } else { ChildAt(level, b, a[|a| - 1].key + 1, i - |a|); }
    }
  }

  lemma {:induction false} SplitShape(level: nat, es: seq<Entry>, lo: nat, hi: nat, n: nat)
    requires Shape(level, es, lo, hi) && 0 < n < |es|
    ensures Shape(level, es[..n], lo, es[n - 1].key) && Shape(level, es[n..], es[n - 1].key + 1, hi)
    ensures lo <= es[n - 1].key < hi
  {
    hide Children, Increasing, InRange;
    SliceKeys(es, lo, hi, n);
    if level > 0 { SplitChildren(level, es, lo, n); }
  }

  lemma {:induction false} JoinShape(level: nat, a: seq<Entry>, b: seq<Entry>, lo: nat, mid: nat, hi: nat)
    requires Shape(level, a, lo, mid) && Shape(level, b, mid + 1, hi) && lo <= mid < hi
    ensures Shape(level, a + b, lo, hi)
  {
    hide Children, Increasing, InRange;
    ConcatKeys(a, b, lo, mid, hi);
    if level > 0 { JoinChildren(level, a, b, lo); }
  }
}
