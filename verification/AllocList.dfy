/**
  Lists of free block numbers: blocks with an array that floats between their
  ends, chained to lists whose heads count the numbers.
*/
module AllocList {
  const LIST_MAX: nat := (65536 - 56) / 8

  /** A list block: where it is stored, and the part of its array that is in use. */
  datatype ListBlock = ListBlock(blkno: nat, start: nat, nr: nat, blknos: seq<nat>)

  /** A list head and the blocks that it leads to. */
  datatype List = List(blocks: seq<ListBlock>, firstNr: nat, totalNr: nat)

  predicate BlockOK(b: ListBlock) {
    |b.blknos| == LIST_MAX && b.start + b.nr <= LIST_MAX
  }

  function Entries(b: ListBlock): seq<nat> {
    if b.start + b.nr <= |b.blknos| then b.blknos[b.start..b.start + b.nr] else []
  }

  predicate BlocksOK(bs: seq<ListBlock>) {
    forall i :: 0 <= i < |bs| ==> BlockOK(bs[i])
  }

  function CountNr(bs: seq<ListBlock>): nat {
    if bs == [] then 0 else bs[0].nr + CountNr(bs[1..])
  }

  /** The head's counts are those of the first block and of all blocks. */
  predicate ListOK(l: List) {
    && BlocksOK(l.blocks)
    && l.firstNr == (if l.blocks == [] then 0 else l.blocks[0].nr)
    && l.totalNr == CountNr(l.blocks)
  }

  const EMPTY: List := List([], 0, 0)

  /** A new block without entries. */
  function NewBlock(blkno: nat): (b: ListBlock)
    ensures BlockOK(b) && Entries(b) == []
  {
    ListBlock(blkno, 0, 0, seq(LIST_MAX, i => 0))
  }

  function Space(b: ListBlock): nat
    requires BlockOK(b)
  {
    LIST_MAX - b.nr
  }

  /** The numbers of a block and the number of its own block. */
  function HeldBlock(b: ListBlock): multiset<nat> {
    multiset{b.blkno} + multiset(Entries(b))
  }

  function Held(bs: seq<ListBlock>): multiset<nat> {
    if bs == [] then multiset{} else HeldBlock(bs[0]) + Held(bs[1..])
  }

  // ---- one block

  function Peek(b: ListBlock, skip: nat): nat
    requires BlockOK(b) && skip < b.nr
  {
    b.blknos[b.start + skip]
  }

  /** A number goes to the end of the array, or before its start once the end is reached. */
  function Add(b: ListBlock, x: nat): (r: ListBlock)
    requires BlockOK(b) && Space(b) > 0
    ensures BlockOK(r) && r.blkno == b.blkno && r.nr == b.nr + 1
    ensures Entries(r) == Entries(b) + [x] || Entries(r) == [x] + Entries(b)
  {
    if b.start + b.nr < LIST_MAX then
      var r := b.(blknos := b.blknos[b.start + b.nr := x], nr := b.nr + 1);
      assert Entries(r) == Entries(b) + [x];
      r
    else
      var r := b.(blknos := b.blknos[b.start - 1 := x], start := b.start - 1, nr := b.nr + 1);
      assert Entries(r) == [x] + Entries(b);
      r
  }

  lemma AddHolds(b: ListBlock, x: nat)
    requires BlockOK(b) && Space(b) > 0
    ensures HeldBlock(Add(b, x)) == HeldBlock(b) + multiset{x}
  {
    hide Add, Entries;
  }

  function Remove(b: ListBlock, count: nat): (r: ListBlock)
    requires BlockOK(b) && count <= b.nr
    ensures BlockOK(r) && r.blkno == b.blkno && r.nr == b.nr - count
    ensures Entries(r) == Entries(b)[count..]
  {
    if b.nr == count then b.(nr := 0, start := 0) else b.(nr := b.nr - count, start := b.start + count)
  }

  lemma RemoveHolds(b: ListBlock, count: nat)
    requires BlockOK(b) && count <= b.nr
    ensures |Entries(b)| == b.nr && HeldBlock(b) == HeldBlock(Remove(b, count)) + multiset(Entries(b)[..count])
  {
    hide Remove;
    assert Entries(b) == Entries(b)[..count] + Entries(b)[count..];
  }

  /** The same block stored elsewhere. */
  lemma MovedHolds(b: ListBlock, blkno: nat)
    requires BlockOK(b)
    ensures BlockOK(b.(blkno := blkno)) && HeldBlock(b.(blkno := blkno)) + multiset{b.blkno} == HeldBlock(b) + multiset{blkno}
  {
  }

  // ---- sorting the entries of a block

  predicate Ascending(s: seq<nat>) {
    forall i, j :: 0 <= i < j < |s| ==> s[i] <= s[j]
  }

  function Place(s: seq<nat>, x: nat): (r: seq<nat>)
    requires Ascending(s)
    ensures Ascending(r) && multiset(r) == multiset(s) + multiset{x} && |r| == |s| + 1
  {
    if s == [] then [x]
    else if x <= s[0] then [x] + s
    else
      var rest := Place(s[1..], x);
      assert s == [s[0]] + s[1..];
      PlacedAfter(s, x, rest);
      [s[0]] + rest
  }

  lemma PlacedAfter(s: seq<nat>, x: nat, rest: seq<nat>)
    requires Ascending(s) && s != [] && s[0] < x
    requires Ascending(rest) && multiset(rest) == multiset(s[1..]) + multiset{x}
    ensures Ascending([s[0]] + rest)
  {
    forall i | 0 <= i < |rest| ensures s[0] <= rest[i] {
      assert rest[i] in multiset(rest);
      if rest[i] != x {
        assert rest[i] in multiset(s[1..]);
        var j :| 0 <= j < |s[1..]| && s[1..][j] == rest[i];
      }
    }
  }

  function Sorted(s: seq<nat>): (r: seq<nat>)
    ensures Ascending(r) && multiset(r) == multiset(s) && |r| == |s|
  {
    if s == [] then [] else
      assert s == [s[0]] + s[1..];
      Place(Sorted(s[1..]), s[0])
  }

  function SortBlock(b: ListBlock): (r: ListBlock)
    requires BlockOK(b)
    ensures BlockOK(r) && r.blkno == b.blkno && r.nr == b.nr && Ascending(Entries(r))
    ensures multiset(Entries(r)) == multiset(Entries(b))
  {
    var r := b.(blknos := b.blknos[..b.start] + Sorted(Entries(b)) + b.blknos[b.start + b.nr..]);
    assert Entries(r) == Sorted(Entries(b));
    r
  }

  lemma SortHolds(b: ListBlock)
    requires BlockOK(b)
    ensures HeldBlock(SortBlock(b)) == HeldBlock(b)
  {
    hide SortBlock;
  }

  // ---- lists

  lemma Sum3(a: multiset<nat>, b: multiset<nat>, c: multiset<nat>)
    ensures (a + b) + c == a + (b + c)
  {
  }

  lemma HeldCons(b: ListBlock, bs: seq<ListBlock>)
    requires BlockOK(b) && BlocksOK(bs)
    ensures BlocksOK([b] + bs) && Held([b] + bs) == HeldBlock(b) + Held(bs) && CountNr([b] + bs) == b.nr + CountNr(bs)
  {
    assert ([b] + bs)[1..] == bs;
  }

  lemma {:induction false} HeldConcat(a: seq<ListBlock>, b: seq<ListBlock>)
    requires BlocksOK(a) && BlocksOK(b)
    ensures BlocksOK(a + b) && Held(a + b) == Held(a) + Held(b) && CountNr(a + b) == CountNr(a) + CountNr(b)
  {
    hide HeldBlock, BlockOK;
    if a == [] {
      assert a + b == b;
    } else {
      HeldConcat(a[1..], b);
      assert a == [a[0]] + a[1..] && a + b == [a[0]] + (a[1..] + b);
      HeldCons(a[0], a[1..] + b);
      HeldCons(a[0], a[1..]);
      Sum3(HeldBlock(a[0]), Held(a[1..]), Held(b));
    }
  }

  /** Changing one block of a list. */
  lemma HeldUpdate(bs: seq<ListBlock>, i: nat, b: ListBlock)
    requires BlocksOK(bs) && i < |bs| && BlockOK(b)
    ensures BlocksOK(bs[i := b]) && Held(bs[i := b]) + HeldBlock(bs[i]) == Held(bs) + HeldBlock(b)
    ensures CountNr(bs[i := b]) + bs[i].nr == CountNr(bs) + b.nr
  {
    hide HeldBlock, BlockOK, Held, CountNr;
    assert bs == bs[..i] + ([bs[i]] + bs[i + 1..]) && bs[i := b] == bs[..i] + ([b] + bs[i + 1..]);
    HeldCons(b, bs[i + 1..]);
    HeldCons(bs[i], bs[i + 1..]);
    HeldConcat(bs[..i], [b] + bs[i + 1..]);
    HeldConcat(bs[..i], [bs[i]] + bs[i + 1..]);
  }
}
