/**
  The allocator of metadata blocks: a transaction takes blocks from one list and
  frees them to another, the first blocks of which it copies without recursion,
  and lists are filled from and emptied into free extents.
*/
module MetaAlloc {
  import opened Errno
  import opened Wrappers
  import opened Keys
  import opened Extents
  import opened ExtentBlocks
  import opened AllocIndex
  import opened AllocMove
  import opened AllocList
  import ExtentOps

  const EMPTY_FREED_THRESH: nat := LIST_MAX / 4

  ghost predicate ListsOK(ls: seq<List>) {
    forall i :: 0 <= i < |ls| ==> ListOK(ls[i])
  }

  /** The block numbers in lists. */
  ghost function HeldAll(ls: seq<List>): multiset<nat> {
    if ls == [] then multiset{} else Held(ls[0].blocks) + HeldAll(ls[1..])
  }

  lemma {:induction false} HeldAllConcat(a: seq<List>, b: seq<List>)
    requires ListsOK(a) && ListsOK(b)
    ensures ListsOK(a + b) && HeldAll(a + b) == HeldAll(a) + HeldAll(b)
  {
    hide ListOK, Held;
    if a == [] {
      assert a + b == b;
    } else {
      HeldAllConcat(a[1..], b);
      assert (a + b)[1..] == a[1..] + b;
    }
  }

  lemma HeldAllUpdate(ls: seq<List>, i: nat, l: List)
    requires ListsOK(ls) && i < |ls| && ListOK(l)
    ensures ListsOK(ls[i := l]) && HeldAll(ls[i := l]) + Held(ls[i].blocks) == HeldAll(ls) + Held(l.blocks)
  {
    hide ListOK, Held;
    var a, b := ls[..i], ls[i + 1..];
    assert ls == a + [ls[i]] + b && ls[i := l] == a + [l] + b;
    HeldAllConcat(a, [ls[i]]);
    HeldAllConcat(a + [ls[i]], b);
    HeldAllConcat(a, [l]);
    HeldAllConcat(a + [l], b);
    assert [ls[i]][1..] == [] && [l][1..] == [];
  }

  /** Every block number and where it is. */
  ghost function Sum(avail: List, freed: List, lists: seq<List>, free: set<nat>, used: multiset<nat>): multiset<nat> {
    Held(avail.blocks) + Held(freed.blocks) + HeldAll(lists) + multiset(free) + used
  }

  lemma SumChange(avail: List, freed: List, lists: seq<List>, free: set<nat>, used: multiset<nat>,
                  avail': List, freed': List, used': multiset<nat>, more: multiset<nat>)
    requires Held(avail'.blocks) + Held(freed'.blocks) + used' == Held(avail.blocks) + Held(freed.blocks) + used + more
    ensures Sum(avail', freed', lists, free, used') == Sum(avail, freed, lists, free, used) + more
  {
    hide Held, HeldAll;
    var a, b := Held(avail.blocks) + Held(freed.blocks), Held(avail'.blocks) + Held(freed'.blocks);
    var rest := HeldAll(lists) + multiset(free);
    assert Sum(avail', freed', lists, free, used') == (b + used') + rest;
    assert Sum(avail, freed, lists, free, used) == (a + used) + rest;
  }

  lemma SumSame(avail: List, freed: List, lists: seq<List>, free: set<nat>, used: multiset<nat>,
                avail': List, freed': List, used': multiset<nat>)
    requires Held(avail'.blocks) + Held(freed'.blocks) + used' == Held(avail.blocks) + Held(freed.blocks) + used
    ensures Sum(avail', freed', lists, free, used') == Sum(avail, freed, lists, free, used)
  {
    hide Held, HeldAll, Sum;
    SumChange(avail, freed, lists, free, used, avail', freed', used', multiset{});
  }

  lemma RealMore(m: multiset<nat>, x: nat)
    requires AllReal(m) && 0 < x < U64 - 1
    ensures AllReal(m + multiset{x})
  {
  }

  // ---- copying the first blocks of the lists of a transaction

  /** The list to allocate from, copied to the first of its numbers and without the two that the copies take. */
  function CopiedAvail(l: List): List
    requires ListOK(l) && l.firstNr >= 2
  {
    var b := l.blocks[0];
    List([SortBlock(Remove(b.(blkno := Peek(b, 0)), 2))] + l.blocks[1..], l.firstNr - 2, l.totalNr - 2)
  }

  lemma Cancel(a: multiset<nat>, b: multiset<nat>, c: multiset<nat>)
    requires a + c == b + c
    ensures a == b
  {
    forall x ensures a[x] == b[x] { assert (a + c)[x] == (b + c)[x]; }
  }

  lemma BagOfCopy(moved: multiset<nat>, b: multiset<nat>, done: multiset<nat>, was: nat, p: nat, q: nat)
    requires moved + multiset{was} == b + multiset{p} && moved == done + multiset([p, q])
    ensures done + multiset{was, q} == b
  {
    assert multiset([p, q]) == multiset{p} + multiset{q} && multiset{was, q} == multiset{was} + multiset{q};
    Cancel(done + multiset{q} + multiset{was}, b, multiset{p});
  }

  lemma CopiedBlock(b: ListBlock)
    requires BlockOK(b) && b.nr >= 2
    ensures HeldBlock(SortBlock(Remove(b.(blkno := Peek(b, 0)), 2))) + multiset{b.blkno, Peek(b, 1)} == HeldBlock(b)
  {
    hide SortBlock, Remove, HeldBlock;
    var moved := b.(blkno := Peek(b, 0));
    assert Entries(moved)[..2] == [Peek(b, 0), Peek(b, 1)];
    MovedHolds(b, Peek(b, 0));
    RemoveHolds(moved, 2);
    SortHolds(Remove(moved, 2));
    BagOfCopy(HeldBlock(moved), HeldBlock(b), HeldBlock(SortBlock(Remove(moved, 2))), b.blkno, Peek(b, 0), Peek(b, 1));
  }

  lemma BagOfCopies(a: multiset<nat>, a': multiset<nat>, f: multiset<nat>, f1: multiset<nat>, f2: multiset<nat>, rest: multiset<nat>, was: nat, p: nat)
    requires a' + multiset{was, p} == a && f1 + rest == f + multiset{p} && f2 == f1 + multiset{was} + rest
    ensures a' + f2 == a + f
  {
    assert multiset{was, p} == multiset{was} + multiset{p};
    assert a' + f2 == a' + multiset{was} + (f1 + rest);
  }

  lemma CopiedAvailIs(l: List)
    requires ListOK(l) && l.firstNr >= 2
    ensures ListOK(CopiedAvail(l)) && CopiedAvail(l).blocks != [] && CopiedAvail(l).firstNr + 2 == l.firstNr
    ensures FirstOf(CopiedAvail(l)) == {Peek(l.blocks[0], 0)}
    ensures Held(CopiedAvail(l).blocks) + multiset{l.blocks[0].blkno, Peek(l.blocks[0], 1)} == Held(l.blocks)
  {
    hide Held, HeldBlock, CountNr, SortBlock, Remove;
    var b, rest := l.blocks[0], l.blocks[1..];
    CopiedBlock(b);
    assert l.blocks == [b] + rest;
    HeldCons(b, rest);
    HeldCons(SortBlock(Remove(b.(blkno := Peek(b, 0)), 2)), rest);
  }

  /** The list to free to: its first block is copied, or gets a new block before it if it has little space. */
  predicate NeedsNew(l: List) {
    l.blocks == [] || LIST_MAX < l.firstNr + EMPTY_FREED_THRESH
  }

  function CopiedFreed(l: List, blkno: nat): List {
    if NeedsNew(l) then List([NewBlock(blkno)] + l.blocks, 0, l.totalNr)
    else List([l.blocks[0].(blkno := blkno)] + l.blocks[1..], l.firstNr, l.totalNr)
  }

  function OldFreed(l: List): multiset<nat> {
    if NeedsNew(l) then multiset{} else multiset{l.blocks[0].blkno}
  }

  lemma OldFreedIs(l: List)
    ensures OldFreed(l) == if NeedsNew(l) then multiset{} else multiset{l.blocks[0].blkno}
  {
  }

  lemma NewHolds(blkno: nat)
    ensures HeldBlock(NewBlock(blkno)) == multiset{blkno}
  {
    assert NewBlock(blkno).blkno == blkno;
  }

  lemma CopiedFreedIs(l: List, blkno: nat)
    requires ListOK(l)
    ensures CopiedFreed(l, blkno).firstNr == (if NeedsNew(l) then 0 else l.firstNr) && FirstOf(CopiedFreed(l, blkno)) == {blkno}
    ensures ListOK(CopiedFreed(l, blkno)) && CopiedFreed(l, blkno).blocks != [] && CopiedFreed(l, blkno).firstNr + 3 <= LIST_MAX
    ensures Held(CopiedFreed(l, blkno).blocks) + OldFreed(l) == Held(l.blocks) + multiset{blkno}
  {
    if NeedsNew(l) {
      CopiedNew(l, blkno);
    } else {
      CopiedOld(l, blkno);
    }
  }

  lemma CopiedNew(l: List, blkno: nat)
    requires ListOK(l)
    ensures var bs := [NewBlock(blkno)] + l.blocks;
            ListOK(List(bs, 0, l.totalNr)) && Held(bs) == Held(l.blocks) + multiset{blkno}
  {
    hide Held, CountNr, HeldBlock;
    HeldCons(NewBlock(blkno), l.blocks);
    NewHolds(blkno);
  }

  lemma CopiedOld(l: List, blkno: nat)
    requires ListOK(l) && l.blocks != []
    ensures var bs := [l.blocks[0].(blkno := blkno)] + l.blocks[1..];
            && ListOK(List(bs, l.firstNr, l.totalNr))
            && Held(bs) + multiset{l.blocks[0].blkno} == Held(l.blocks) + multiset{blkno}
  {
    hide Held, CountNr, HeldBlock;
    var b, b', rest := l.blocks[0], l.blocks[0].(blkno := blkno), l.blocks[1..];
    assert l.blocks == [b] + rest;
    MovedHolds(b, blkno);
    HeldCons(b, rest);
    HeldCons(b', rest);
    assert ([b'] + rest)[0] == b';
    BagOfMove(Held(l.blocks), Held([b'] + rest), HeldBlock(b), HeldBlock(b'), multiset{b.blkno}, multiset{blkno});
  }

  /** A number added to and taken from the first block of a list. */
  function AddFirst(l: List, x: nat): List
    requires ListOK(l) && l.blocks != [] && l.firstNr < LIST_MAX
  {
    List([Add(l.blocks[0], x)] + l.blocks[1..], l.firstNr + 1, l.totalNr + 1)
  }

  lemma AddFirstIs(l: List, x: nat)
    requires ListOK(l) && l.blocks != [] && l.firstNr < LIST_MAX
    ensures ListOK(AddFirst(l, x)) && AddFirst(l, x).blocks != [] && AddFirst(l, x).firstNr == l.firstNr + 1
    ensures FirstOf(AddFirst(l, x)) == FirstOf(l)
    ensures Held(AddFirst(l, x).blocks) == Held(l.blocks) + multiset{x}
  {
    hide Held, CountNr, Add;
    var b, rest := l.blocks[0], l.blocks[1..];
    assert l.blocks == [b] + rest;
    AddHolds(b, x);
    HeldCons(b, rest);
    HeldCons(Add(b, x), rest);
  }

  function RemoveFirst(l: List, count: nat): List
    requires ListOK(l) && l.blocks != [] && count <= l.firstNr
  {
    CountFirst(l);
    List([Remove(l.blocks[0], count)] + l.blocks[1..], l.firstNr - count, l.totalNr - count)
  }

  lemma CountFirst(l: List)
    requires ListOK(l)
    ensures l.firstNr <= l.totalNr
  {
  }

  lemma RemoveFirstIs(l: List, count: nat)
    requires ListOK(l) && l.blocks != [] && count <= l.firstNr
    ensures ListOK(RemoveFirst(l, count)) && |Entries(l.blocks[0])| == l.firstNr
    ensures RemoveFirst(l, count).firstNr == l.firstNr - count && FirstOf(RemoveFirst(l, count)) == FirstOf(l)
    ensures |RemoveFirst(l, count).blocks| == |l.blocks| && RemoveFirst(l, count).totalNr == l.totalNr - count
    ensures Held(RemoveFirst(l, count).blocks) + multiset(Entries(l.blocks[0])[..count]) == Held(l.blocks)
  {
    hide Held, CountNr, Remove;
    var b, rest := l.blocks[0], l.blocks[1..];
    assert l.blocks == [b] + rest;
    RemoveHolds(b, count);
    HeldCons(b, rest);
    HeldCons(Remove(b, count), rest);
  }

  /** Block zero stands for no block, and numbers have 64 bits. */
  ghost predicate AllReal(m: multiset<nat>) {
    forall b :: b in m ==> 0 < b < U64 - 1
  }

  lemma HeldFirst(l: List)
    requires ListOK(l) && l.blocks != []
    ensures l.blocks[0].blkno in Held(l.blocks)
  {
  }

  lemma SumHas(avail: List, freed: List, lists: seq<List>, free: set<nat>, used: multiset<nat>, x: nat)
    requires AllReal(Sum(avail, freed, lists, free, used))
    requires x in Held(avail.blocks) || x in Held(freed.blocks) || x in HeldAll(lists) || x in free || x in used
    ensures 0 < x < U64 - 1
  {
    hide Held, HeldAll;
    assert x in Sum(avail, freed, lists, free, used);
  }

  lemma StorageIsReal(avail: List, freed: List, lists: seq<List>, free: set<nat>, used: multiset<nat>)
    requires ListOK(avail) && ListOK(freed) && ListsOK(lists) && AllReal(Sum(avail, freed, lists, free, used))
    ensures avail.blocks != [] ==> avail.blocks[0].blkno != 0
    ensures freed.blocks != [] ==> freed.blocks[0].blkno != 0
  {
    hide ListOK, Held, HeldAll, Sum, AllReal;
    if avail.blocks != [] {
      HeldFirst(avail);
      SumHas(avail, freed, lists, free, used, avail.blocks[0].blkno);
    }
    if freed.blocks != [] {
      HeldFirst(freed);
      SumHas(avail, freed, lists, free, used, freed.blocks[0].blkno);
    }
  }

  /** What the test of a transaction asks for, in 32 bits: it falls with the height of the tree and then wraps. */
  function MostCopies(height: nat): nat {
    (1 + (1 + 1 + 3 * (1 - height + 1))) % 0x1_0000_0000
  }

  /** A tree of such a height makes the test fail always. */
  predicate AlwaysFails(height: nat) {
    4 <= height <= 255
  }

  /** The test asks for something up to height two, for nothing at height three and for more than there can be above that. */
  lemma CowTest(height: nat)
    ensures height <= 2 ==> MostCopies(height) >= 3
    ensures height == 3 ==> MostCopies(height) == 0
    ensures AlwaysFails(height) ==> MostCopies(height) > LIST_MAX
  {
    if AlwaysFails(height) {
      assert MostCopies(height) == 0x1_0000_0000 + 9 - 3 * height;
    }
  }

  function FirstOf(l: List): set<nat> {
    if l.blocks == [] then {} else {l.blocks[0].blkno}
  }

  function BlockAt(l: List, i: nat): set<nat> {
    if i < |l.blocks| then {l.blocks[i].blkno} else {}
  }

  class Allocator {
    /** The lists of the transaction, and whether their first blocks were copied. */
    var avail: List
    var freed: List
    var ready: bool
    /** The blocks that the transaction has written to. */
    var dirty: set<nat>
    /** Other lists, the free extents, and the blocks that are in use. */
    var lists: seq<List>
    const root: Root
    var used: multiset<nat>

    constructor (avail: List, freed: List, lists: seq<List>, root: Root, used: multiset<nat>)
      requires ListOK(avail) && ListOK(freed) && ListsOK(lists) && root.Valid()
      requires AllReal(Sum(avail, freed, lists, Blocks(root.exts), used))
      ensures Valid() && !ready && this.avail == avail && this.freed == freed && this.lists == lists && this.root == root && this.used == used
    {
      hide ListOK, ListsOK, Sum, Blocks, AllReal, AllStorable, Indexes, SumLen;
      this.avail, this.freed, this.lists, this.root, this.used := avail, freed, lists, root, used;
      ready, dirty := false, {};
    }

    ghost predicate Shaped()
      reads this, root
    {
      && root.Valid()
      && ListOK(avail) && ListOK(freed) && ListsOK(lists)
      && (ready ==> avail.blocks != [] && freed.blocks != [])
      && (!ready && avail.blocks != [] ==> avail.blocks[0].blkno !in dirty)
      && (!ready && freed.blocks != [] ==> freed.blocks[0].blkno !in dirty)
    }

    /** Every block number that is accounted for, and how often. */
    ghost function Everything(): multiset<nat>
      reads this, root
    {
      Sum(avail, freed, lists, Blocks(root.exts), used)
    }

    ghost predicate Valid()
      reads this, root
    {
      Shaped() && AllReal(Everything())
    }

    /** The numbers that are left to allocate and that are freed, once the first blocks were copied. */
    function AvailAfter(): int
      reads this
    {
      if ready then avail.firstNr else avail.firstNr - 2
    }

    function FreedAfter(): nat
      reads this
    {
      if ready then freed.firstNr else if NeedsNew(freed) then 1 else freed.firstNr + 2
    }

    /** Only the first blocks of the two lists and a block that was copied were written to since. */
    ghost predicate WroteOnly(was: set<nat>, copy: set<nat>)
      reads this
    {
      && was <= dirty
      && forall x :: x in dirty ==> x in was || x in copy || x in FirstOf(avail) || x in FirstOf(freed)
    }

    /** Copies the first blocks of both lists to numbers of the first, and frees the blocks they were copied from. */
    method DirtyAllocBlocks() returns (ret: int)
      requires Valid()
      modifies `avail, `freed, `ready, `dirty
      ensures Valid() && Everything() == old(Everything())
      ensures ret == if old(ready) || old(avail.firstNr) >= 2 then 0 else ENOSPC
      ensures ret == 0 ==> ready
      ensures ret == 0 && !old(ready) ==> avail.firstNr + 2 == old(avail.firstNr) && freed.firstNr < LIST_MAX
      ensures ret == 0 ==> avail.firstNr == old(AvailAfter()) && freed.firstNr == old(FreedAfter()) && WroteOnly(old(dirty), {})
      ensures ret != 0 || old(ready) ==> avail == old(avail) && freed == old(freed) && ready == old(ready) && dirty == old(dirty)
    {
      hide ListOK, Held, HeldAll, Sum, CopiedAvail, CopiedFreed, AddFirst, OldFreed, Blocks, AllStorable, Indexes, SumLen, AllReal;
      if ready {
        return 0;
      }
      ListIs(avail);
      if avail.blocks == [] || avail.firstNr < 2 {
        return ENOSPC;
      }
      CopiedAvailIs(avail);
      var avOld, avPeek, frPeek := avail.blocks[0].blkno, Peek(avail.blocks[0], 0), Peek(avail.blocks[0], 1);
      CopiedFreedIs(freed, frPeek);
      var newAvail, newFreed := CopiedAvail(avail), CopiedFreed(freed, frPeek);
      StorageIsReal(avail, freed, lists, Blocks(root.exts), used);
      ghost var h1 := Held(newFreed.blocks);
      if avOld != 0 {
        AddFirstIs(newFreed, avOld);
        newFreed := AddFirst(newFreed, avOld);
      }
      OldFreedIs(freed);
      if !NeedsNew(freed) && freed.blocks[0].blkno != 0 {
        AddFirstIs(newFreed, freed.blocks[0].blkno);
        newFreed := AddFirst(newFreed, freed.blocks[0].blkno);
      }
      BagOfCopies(Held(avail.blocks), Held(newAvail.blocks), Held(freed.blocks), h1, Held(newFreed.blocks), OldFreed(freed), avOld, frPeek);
      SumSame(avail, freed, lists, Blocks(root.exts), used, newAvail, newFreed, used);
      avail, freed := newAvail, newFreed;
      dirty := dirty + {avPeek, frPeek};
      ready := true;
      return 0;
    }

    /** There is a number to allocate, once the two are taken that the copies of the first blocks need. */
    predicate CanAlloc()
      reads this
    {
      avail.firstNr > if ready then 0 else 2
    }

    /** There is space to free a number; the copy of a block that is nearly full starts a new one. */
    predicate CanFree()
      reads this
    {
      if ready then freed.firstNr < LIST_MAX else avail.firstNr >= 2
    }

    /** A block number is taken from the list and is in use. */
    method AllocMeta() returns (ret: int, blkno: nat)
      requires Valid()
      modifies `avail, `freed, `ready, `dirty, `used
      ensures Valid() && Everything() == old(Everything())
      ensures ret == if old(CanAlloc()) then 0 else ENOSPC
      ensures ret == 0 ==> ready && used == old(used) + multiset{blkno}
      ensures ret != 0 ==> used == old(used) && blkno == 0
      ensures old(ready) ==> freed == old(freed)
      ensures ret == 0 && !old(ready) ==> freed.firstNr < LIST_MAX
      ensures ret == 0 ==> avail.firstNr == old(AvailAfter()) - 1 && freed.firstNr == old(FreedAfter()) && WroteOnly(old(dirty), {})
    {
      hide ListOK, Held, HeldAll, Sum, RemoveFirst, Blocks, AllStorable, Indexes, SumLen, AllReal;
      ret := DirtyAllocBlocks();
      if ret < 0 {
        return ret, 0;
      }
      ListIs(avail);
      if avail.blocks[0].nr == 0 {
        return ENOSPC, 0;
      }
      blkno := Peek(avail.blocks[0], 0);
      RemoveFirstIs(avail, 1);
      assert Entries(avail.blocks[0])[..1] == [blkno];
      var rest := RemoveFirst(avail, 1);
      SumSame(avail, freed, lists, Blocks(root.exts), used, rest, freed, used + multiset{blkno});
      avail, used := rest, used + multiset{blkno};
      return 0, blkno;
    }

    /** A block number that is not counted otherwise goes to the list of freed blocks. */
    method AddFreed(blkno: nat) returns (ret: int)
      requires Valid() && 0 < blkno < U64 - 1
      modifies `avail, `freed, `ready, `dirty
      ensures Valid() && ret in {0, ENOSPC, EIO}
      ensures Everything() == old(Everything()) + if ret == 0 then multiset{blkno} else multiset{}
      ensures ret == 0 <==> old(CanFree())
      ensures ret == 0 || old(ready) ==> ready
      ensures ret != 0 && old(ready) ==> freed == old(freed) && ret != ENOSPC
      ensures old(ready) ==> avail == old(avail) && (ret == 0 ==> freed.firstNr == old(freed.firstNr) + 1)
      ensures old(ready) ==> dirty == old(dirty) && FirstOf(freed) == old(FirstOf(freed))
    {
      hide ListOK, Held, HeldAll, Sum, AddFirst, Blocks, AllStorable, Indexes, SumLen, AllReal;
      ret := DirtyAllocBlocks();
      if ret < 0 {
        return;
      }
      ListIs(freed);
      if Space(freed.blocks[0]) == 0 {
        return EIO;
      }
      AddFirstIs(freed, blkno);
      SumChange(avail, freed, lists, Blocks(root.exts), used, avail, AddFirst(freed, blkno), used, multiset{blkno});
      RealMore(Everything(), blkno);
      freed := AddFirst(freed, blkno);
      return 0;
    }

    method FreeMeta(blkno: nat) returns (ret: int)
      requires Valid() && blkno in used
      modifies `avail, `freed, `ready, `dirty, `used
      ensures Valid() && Everything() == old(Everything()) && ret in {0, ENOSPC, EIO}
      ensures used == if ret == 0 then old(used) - multiset{blkno} else old(used)
      ensures ret == 0 <==> old(CanFree())
      ensures ret != 0 && old(ready) ==> freed == old(freed)
      ensures old(ready) ==> ready && avail == old(avail) && (ret == 0 ==> freed.firstNr == old(freed.firstNr) + 1)
    {
      hide ListOK, Held, HeldAll, Sum, Blocks, AllStorable, Indexes, SumLen, AllReal;
      SumHas(avail, freed, lists, Blocks(root.exts), used, blkno);
      ret := AddFreed(blkno);
      if ret == 0 {
        SumUsed(avail, freed, lists, Blocks(root.exts), used, multiset{blkno});
        used := used - multiset{blkno};
        Cancel(Everything(), old(Everything()), multiset{blkno});
      }
    }

    /** Blocks of the trees that store the free extents are copied: numbers are taken and others are freed. */
    method CowTree(count: nat)
      requires Valid()
      modifies `avail, `freed, `ready, `dirty, `used
      ensures Valid() && Everything() == old(Everything())
    {
      hide ListOK, Held, HeldAll, Sum, Blocks, AllStorable, Indexes, SumLen, AllReal;
      for i := 0 to count
        invariant Valid() && Everything() == old(Everything()) && lists == old(lists)
      {
        if * {
          var ret, blkno := AllocMeta();
        } else if used != multiset{} {
          var blkno :| blkno in used;
          var ret := FreeMeta(blkno);
        }
      }
    }

    /** The transaction was written: its lists are copied again by the next one. */
    method PrepareCommit()
      requires Valid()
      modifies `ready, `dirty
      ensures Valid() && Everything() == old(Everything()) && !ready
    {
      hide ListOK, Held, HeldAll, Sum, Blocks, AllStorable, Indexes, SumLen, AllReal;
      ready, dirty := false, {};
    }

    /** A copy that fails cannot be undone: a number was taken for it, and there is no space to free one. */
    predicate Stuck()
      reads this
    {
      ready && avail.firstNr > 0 && freed.firstNr == LIST_MAX
    }

    /**
      Takes a number for the copy of a block, if there is memory for it, and frees
      the number of the block, if there was one.  When that fails the new number
      is freed again, and it stays in use if that fails too.
    */
    method NewPlace(was: nat, memory: bool) returns (ret: int, bug: bool, blkno: nat)
      requires Valid() && was < U64 - 1
      modifies `avail, `freed, `ready, `dirty, `used
      ensures Valid() && ret in {0, EIO, ENOMEM, ENOSPC}
      ensures Everything() == old(Everything()) + if ret == 0 then OrNone(was) else multiset{}
      ensures ret == 0 ==> ready && blkno in used
      ensures ret == 0 <==> old(CanAlloc()) && memory && (was == 0 || !old(Stuck()))
      ensures bug <==> old(Stuck()) && (!memory || was != 0)
      ensures ret == ENOSPC <==> !old(CanAlloc())
      ensures ret == ENOMEM <==> old(CanAlloc()) && !memory
      ensures bug ==> ready && freed == old(freed)
      ensures !bug && ret != 0 ==> used == old(used)
      ensures ret == 0 ==> avail.firstNr == old(AvailAfter()) - 1 && freed.firstNr == old(FreedAfter()) + if was == 0 then 0 else 1
      ensures ret == 0 ==> WroteOnly(old(dirty), {})
    {
      hide Allocator.Valid, Allocator.Everything;
      var err;
      CountsTell();
      assert old(Everything()) + multiset{} == old(Everything());
      ret, blkno := AllocMeta();
      if ret < 0 {
        return ret, false, 0;
      }
      if !memory {
        err := FreeMeta(blkno);
        return ENOMEM, err < 0, 0;
      }
      if was != 0 {
        ret := AddFreed(was);
        if ret < 0 {
          err := FreeMeta(blkno);
          return ret, err < 0, 0;
        }
      }
      return 0, false, blkno;
    }

    /** The block of a list that is to be copied has to be: the transaction has not written to it yet. */
    predicate Clean(id: nat, i: nat)
      requires id < |lists|
      reads this
    {
      i < |lists[id].blocks| ==> lists[id].blocks[i].blkno !in dirty
    }

    /**
      Gives a block of a list a new place to be written to, or a list without
      blocks its first one.
    */
    method DirtyListBlock(id: nat, i: nat, memory: bool) returns (ret: int, bug: bool)
      requires Valid() && id < |lists| && (i < |lists[id].blocks| || (i == 0 && lists[id].blocks == []))
      modifies this
      ensures |lists| == |old(lists)| && Valid() && Everything() == old(Everything()) && ret in {0, EIO, ENOMEM, ENOSPC}
      ensures ret < 0 ==> lists == old(lists)
      ensures ret == 0 ==> lists == old(lists)[id := lists[id]] && Copied(old(lists[id]), lists[id], i)
      ensures bug <==> old(Clean(id, i)) && old(Stuck()) && (!memory || old(lists[id].blocks) != [])
      ensures ret == ENOSPC <==> old(Clean(id, i)) && !old(CanAlloc())
      ensures ret == ENOMEM <==> old(Clean(id, i)) && old(CanAlloc()) && !memory
      ensures ret == 0 <==> !old(Clean(id, i)) || (old(CanAlloc()) && memory && (old(lists[id].blocks) == [] || !old(Stuck())))
      ensures bug ==> ret < 0 && ready && freed == old(freed)
      ensures ret == 0 && old(Clean(id, i)) ==>
                && ready && avail.firstNr == old(AvailAfter()) - 1
                && freed.firstNr == old(FreedAfter()) + if old(lists[id].blocks) == [] then 0 else 1
      ensures ret == 0 && old(Clean(id, i)) ==> WroteOnly(old(dirty), BlockAt(lists[id], i))
      ensures !old(Clean(id, i)) ==> avail == old(avail) && freed == old(freed) && ready == old(ready) && dirty == old(dirty)
    {
      hide Allocator.Valid, Allocator.Everything, Copied, OrNone, AllReal, WroteOnly;
      var l := lists[id];
      if i < |l.blocks| && l.blocks[i].blkno in dirty {
        NotCopied(l, i);
        return 0, false;
      }
      AllIsReal();
      var blkno, was := 0, 0;
      if i < |l.blocks| {
        BlockIsReal(id, i);
        was := l.blocks[i].blkno;
      }
      assert old(Everything()) + multiset{} == old(Everything());
      ret, bug, blkno := NewPlace(was, memory);
      if ret < 0 {
        return;
      }
      PlaceBlock(id, i, was, blkno, old(dirty), old(Everything()));
    }

    lemma AllIsReal()
      requires Valid()
      ensures AllReal(Everything())
    {
    }

    lemma BlockIsReal(id: nat, i: nat)
      requires Valid() && id < |lists| && i < |lists[id].blocks|
      ensures 0 < lists[id].blocks[i].blkno < U64 - 1
    {
      hide ListOK, Held, HeldAll, Sum, Blocks, AllStorable, Indexes, SumLen, AllReal;
      StorageOf(avail, freed, lists, Blocks(root.exts), used, id, i);
    }

    /** A number in use becomes that of a list's block. */
    method PlaceBlock(id: nat, i: nat, was: nat, blkno: nat, ghost from: set<nat>, ghost all: multiset<nat>)
      requires Valid() && ready && blkno in used && id < |lists| && (i < |lists[id].blocks| || (i == 0 && lists[id].blocks == []))
      requires was == (if i < |lists[id].blocks| then lists[id].blocks[i].blkno else 0) && (was == 0 ==> lists[id].blocks == [])
      requires Everything() == all + OrNone(was) && AllReal(all) && WroteOnly(from, {})
      modifies `lists, `used, `dirty
      ensures Valid() && Everything() == all
      ensures |lists| == |old(lists)| && lists == old(lists)[id := lists[id]] && Copied(old(lists[id]), lists[id], i)
      ensures WroteOnly(from, BlockAt(lists[id], i))
    {
      hide ListOK, ListsOK, Held, HeldAll, Sum, Moved, Copied, OrNone, Blocks, AllStorable, Indexes, SumLen, AllReal, BlockAt, FirstOf;
      var l := lists[id];
      MovedCopied(l, i, blkno);
      MovesOver(avail, freed, lists, Blocks(root.exts), used, id, i, was, blkno, all);
      lists, used, dirty := lists[id := Moved(l, i, blkno)], used - multiset{blkno}, dirty + {blkno};
    }

    /** The first block of a list has no entries. */
    predicate Trimmable(id: nat)
      requires id < |lists|
      reads this
    {
      lists[id].blocks != [] && lists[id].firstNr == 0
    }

    /**
      Whether there are as many numbers and as much space as copying a list block and
      the blocks of the tree of free extents can take, by the height of that tree.
    */
    predicate CanCow(height: nat)
      reads this
    {
      avail.firstNr >= MostCopies(height) && freed.firstNr + MostCopies(height) <= LIST_MAX
    }

    /** The first block of a list is freed once it has no more entries; a list without such a block stays as it is. */
    method TrimEmptyFirstBlock(id: nat) returns (ret: int)
      requires Valid() && id < |lists|
      modifies this
      ensures Valid() && Everything() == old(Everything()) && used == old(used) && ret in {0, ENOSPC, EIO}
      ensures ret == 0 <==> !old(Trimmable(id)) || old(CanFree())
      ensures ret < 0 || !old(Trimmable(id)) ==> lists == old(lists)
      ensures ret == 0 && old(Trimmable(id)) ==>
                |lists| == |old(lists)| && lists == old(lists)[id := lists[id]] && lists[id].blocks == old(lists[id].blocks)[1..]
    {
      hide ListOK, Held, HeldAll, Sum, Blocks, AllStorable, Indexes, SumLen, AllReal;
      if lists[id].blocks == [] || lists[id].firstNr != 0 {
        return 0;
      }
      var l := lists[id];
      StorageOf(avail, freed, lists, Blocks(root.exts), used, id, 0);
      ret := AddFreed(l.blocks[0].blkno);
      if ret < 0 {
        return;
      }
      ghost var one := multiset{l.blocks[0].blkno};
      TailIs(l);
      SumList(avail, freed, lists, Blocks(root.exts), used, id, Tail(l), multiset{}, one);
      Cancel(Sum(avail, freed, lists[id := Tail(l)], Blocks(root.exts), used), old(Everything()), one);
      lists := lists[id := Tail(l)];
    }

    /** A number is added to the first block of a list. */
    method AddNumber(id: nat, x: nat)
      requires Valid() && id < |lists| && lists[id].blocks != [] && lists[id].firstNr < LIST_MAX && 0 < x < U64 - 1
      modifies `lists
      ensures Valid() && Everything() == old(Everything()) + multiset{x}
      ensures |lists| == |old(lists)| && lists == old(lists)[id := lists[id]]
      ensures lists[id].blocks != [] && lists[id].firstNr == old(lists[id].firstNr) + 1
    {
      hide ListOK, Held, HeldAll, Sum, AddFirst, Blocks, AllStorable, Indexes, SumLen, AllReal;
      AddOne(avail, freed, lists, Blocks(root.exts), used, id, x);
      lists := lists[id := AddFirst(lists[id], x)];
    }

    /** The numbers of a run are added to the first block of a list, one at a time. */
    method AddRun(id: nat, start: nat, len: nat)
      requires Valid() && id < |lists| && lists[id].blocks != [] && lists[id].firstNr + len <= LIST_MAX
      requires 0 < start && start + len < U64
      modifies `lists
      ensures Valid() && Everything() == old(Everything()) + multiset(Run(start, len))
      ensures |lists| == |old(lists)| && lists == old(lists)[id := lists[id]]
      ensures lists[id].blocks != [] && lists[id].firstNr == old(lists[id].firstNr) + len
    {
      hide Allocator.Valid, Allocator.Everything, Run;
      RunIs(start, 0);
      for i := 0 to len
        invariant Valid() && Everything() == old(Everything()) + multiset(Run(start, i))
        invariant |lists| == |old(lists)| && lists == old(lists)[id := lists[id]]
        invariant lists[id].blocks != [] && lists[id].firstNr == old(lists[id].firstNr) + i
      {
        RunBagNext(start, i, start + i);
        Sum3(old(Everything()), multiset(Run(start, i)), multiset{start + i});
        AddNumber(id, start + i);
      }
    }

    /**
      Fills the first block of a list from free extents towards a target, as long as
      there are extents and the test of what the transaction can copy passes, with
      the height that the tree of free extents has at each test.
    */
    method FillList(id: nat, lo: nat, target: nat, memory: bool, height: nat -> nat) returns (ret: int, bug: bool)
      requires Valid() && id < |lists| && forall i :: height(i) <= 255
      modifies this, root
      ensures Valid() && |lists| == |old(lists)| && Everything() == old(Everything())
      ensures target < lo || target > LIST_MAX ==> ret == EINVAL
      ensures bug <==> lo <= target <= LIST_MAX && old(lists[id].firstNr) < lo && old(Clean(id, 0)) && old(Stuck()) && (!memory || old(lists[id].blocks) != [])
      ensures ret == EINVAL || old(lists[id].firstNr) >= lo ==> lists == old(lists) && root.exts == old(root.exts)
      ensures lists[id].firstNr <= (if old(lists[id].firstNr) < target then target else old(lists[id].firstNr))
      ensures ret == ENOSPC ==> root.exts == {} || (old(Clean(id, 0)) && !old(CanAlloc()))
      ensures ret == 0 && old(lists[id].firstNr) < lo ==> lists[id].firstNr >= target || exists i :: !CanCow(height(i))
      ensures (forall i :: AlwaysFails(height(i))) ==> root.exts == old(root.exts)
    {
      hide ListOK, Held, HeldAll, Sum, Run, Blocks, AllStorable, Indexes, SumLen, AllReal, Copied;
      if target < lo || lo > LIST_MAX || target > LIST_MAX {
        return EINVAL, false;
      }
      if lists[id].firstNr >= lo {
        return 0, false;
      }
      ghost var l := lists[id];
      ret, bug := DirtyListBlock(id, 0, memory);
      if ret < 0 {
        return;
      }
      CopiedFirst(l, lists[id]);
      var n := 0;
      while lists[id].firstNr < target && CanCow(height(n))
        invariant Valid() && |lists| == |old(lists)| && Everything() == old(Everything()) && ret == 0 && !bug
        invariant lists[id].blocks != [] && lists[id].firstNr <= target
        invariant n == 0 ==> root.exts == old(root.exts)
        invariant (forall i :: AlwaysFails(height(i))) ==> n == 0
        decreases target - lists[id].firstNr
      {
        CowTest(height(n));
        ListIs(freed);
        var ext;
        ret, ext := ExtAlloc(target - lists[id].firstNr);
        if ret < 0 {
          return if ret == ENOENT then ENOSPC else ret, false;
        }
        AddRun(id, ext.start, ext.len);
        n := n + 1;
      }
    }

    /** Blocks are taken from the front of a largest free extent, and the tree that it is in is copied. */
    method ExtAlloc(count: nat) returns (ret: int, ext: Ext)
      requires Valid() && count > 0
      modifies `avail, `freed, `ready, `dirty, `used, root
      ensures Valid() && ret in {0, ENOENT, EIO}
      ensures ret == 0 ==> Everything() + multiset(Run(ext.start, ext.len)) == old(Everything())
      ensures ret == 0 ==> 0 < ext.len <= count && 0 < ext.start && End(ext) < U64
      ensures ret == 0 ==> exists found :: IsLargest(old(root.exts), found) && ext == ExtentOps.Piece(found, count)
      ensures ret != 0 ==> Everything() == old(Everything())
      ensures ret == ENOENT ==> root.exts == {}
    {
      hide ListOK, Held, HeldAll, Sum, Run, Blocks, Indexes, SumLen, ExtentOps.Allocated, IsLargest, AllStorable, AllReal;
      var n: nat := *;
      CowTree(n);
      ghost var before := root.exts;
      ret, ext := root.AllocExt(count);
      if ret == 0 {
        TakenBlocks(before, root.exts, ext, count);
        SumFree(avail, freed, lists, Blocks(root.exts), used, Run(ext.start, ext.len));
        assert Blocks(root.exts) + Run(ext.start, ext.len) == Blocks(before);
        RunIsReal(Everything(), ext.start, ext.len, old(Everything()));
      }
    }

    /**
      Moves the numbers of a list to free extents, a run at a time, and frees the
      blocks of the list that are empty, as long as the test of what the transaction
      can copy passes.
    */
    method EmptyList(id: nat, memory: nat -> bool, height: nat -> nat) returns (ret: int, bug: bool)
      requires Valid() && id < |lists| && forall i :: height(i) <= 255
      modifies this, root
      ensures Valid() && |lists| == |old(lists)| && Everything() == old(Everything())
      ensures bug ==> ready && freed.firstNr == LIST_MAX && exists i :: height(i) == 3
      ensures old(Stuck()) && old(Clean(id, 0)) && old(lists[id].firstNr) > 0 && old(lists[id].blocks) != [] && height(0) == 3 ==> bug
      ensures Once(old(Everything())) ==> ret != EINVAL
      ensures forall i :: 0 <= i < |lists| && i != id ==> lists[i] == old(lists[i])
      ensures ret == 0 ==> lists[id].blocks == [] || exists i :: !CanCow(height(i))
      ensures (forall i :: AlwaysFails(height(i))) ==> lists == old(lists) && root.exts == old(root.exts)
    {
      hide ListOK, Held, HeldAll, Sum, Run, SortBlock, Copied, FrontIs, Blocks, AllStorable, Indexes, SumLen, AllReal;
      ret, bug := 0, false;
      var have, n := false, 0;
      CowTest(height(0));
      ListIs(freed);
      while lists[id].blocks != [] && CanCow(height(n))
        invariant Valid() && |lists| == |old(lists)| && Everything() == old(Everything()) && !bug && ret == 0
        invariant forall i :: 0 <= i < |lists| && i != id ==> lists[i] == old(lists[i])
        invariant n == 0 ==> lists == old(lists) && root.exts == old(root.exts) && !have && unchanged(this)
        invariant n > 0 ==> !(old(Stuck()) && old(Clean(id, 0)) && old(lists[id].firstNr) > 0 && height(0) == 3)
        invariant (forall i :: AlwaysFails(height(i))) ==> n == 0
        decreases |lists[id].blocks|, lists[id].totalNr, !have
      {
        CowTest(height(n));
        ListIs(freed);
        if lists[id].firstNr == 0 {
          EmptyFirst(lists[id]);
          ret := TrimEmptyFirstBlock(id);
          have := false;
        } else if !have {
          ret, bug := SortFirstBlock(id, memory(n));
          have := true;
        } else {
          ret := GiveFront(id);
        }
        if ret < 0 {
          return;
        }
        n := n + 1;
      }
    }

    /** The first block of a list is copied and its entries are sorted. */
    method SortFirstBlock(id: nat, memory: bool) returns (ret: int, bug: bool)
      requires Valid() && id < |lists| && lists[id].blocks != []
      modifies this
      ensures Valid() && Everything() == old(Everything()) && ret in {0, EIO, ENOMEM, ENOSPC}
      ensures bug <==> old(Clean(id, 0)) && old(Stuck())
      ensures bug ==> ret < 0 && ready && freed == old(freed)
      ensures ret < 0 ==> lists == old(lists)
      ensures ret == 0 ==> |lists| == |old(lists)| && lists == old(lists)[id := lists[id]]
      ensures ret == 0 ==> |lists[id].blocks| == |old(lists[id].blocks)| && lists[id].totalNr == old(lists[id].totalNr)
    {
      hide Allocator.Valid, Allocator.Everything, Copied;
      ghost var l := lists[id];
      ret, bug := DirtyListBlock(id, 0, memory);
      if ret < 0 {
        return;
      }
      CopiedCounts(l, lists[id]);
      SortInPlace(id);
    }

    method SortInPlace(id: nat)
      requires Valid() && id < |lists| && lists[id].blocks != []
      modifies `lists
      ensures Valid() && Everything() == old(Everything())
      ensures |lists| == |old(lists)| && lists == old(lists)[id := lists[id]]
      ensures |lists[id].blocks| == |old(lists[id].blocks)| && lists[id].totalNr == old(lists[id].totalNr)
    {
      hide ListOK, Held, HeldAll, Sum, SortBlock, Blocks, AllStorable, Indexes, SumLen, AllReal;
      assert ListOK(lists[id]);
      SortAll(avail, freed, lists, Blocks(root.exts), used, id);
      lists := lists[id := SortFirst(lists[id])];
    }

    /** The entries at the front of a list that are a run become free blocks. */
    method GiveFront(id: nat) returns (ret: int)
      requires Valid() && id < |lists| && lists[id].blocks != [] && lists[id].firstNr > 0
      modifies this, root
      ensures Valid() && Everything() == old(Everything()) && ret in {0, EINVAL, EIO}
      ensures Once(old(Everything())) ==> ret != EINVAL
      ensures ret != 0 ==> lists == old(lists)
      ensures ret == 0 ==> |lists| == |old(lists)| && lists == old(lists)[id := lists[id]]
      ensures ret == 0 ==> |lists[id].blocks| == |old(lists[id].blocks)| && lists[id].totalNr < old(lists[id].totalNr)
    {
      hide ListOK, Held, HeldAll, Sum, Run, FrontIs, Blocks, RemoveFirst, Indexes, SumLen, AllStorable, ExtentOps.Inserted, ExtentOps.Fresh, AllReal;
      assert ListOK(lists[id]);
      var start, len := FrontRun(lists[id]);
      FrontIsReal(avail, freed, lists, Blocks(root.exts), used, id, start, len);
      var n: nat := *;
      CowTree(n);
      var ext := Ext(start, len, 0, 0);
      ghost var before := root.exts;
      ApartIsFresh(before, ext);
      FrontIsApart(avail, freed, lists, Blocks(before), used, id, start, len);
      ret := root.InsertExt(ext, false);
      if ret < 0 {
        return;
      }
      PutBlocks(before, ext);
      GiveAll(avail, freed, lists, Blocks(before), used, id, start, len);
      lists := lists[id := RemoveFirst(lists[id], len)];
    }

    lemma CountsTell()
      requires Valid()
      ensures Stuck() <==> AvailAfter() > 0 && FreedAfter() == LIST_MAX
      ensures (CanAlloc() <==> AvailAfter() > 0) && FreedAfter() <= LIST_MAX
    {
      hide ListOK, Held, HeldAll, Sum, Blocks, AllStorable, Indexes, SumLen, AllReal;
      ListIs(freed);
    }

    /** Storage that is in one place each is not written to when other storage is copied. */
    lemma StaysClean(id: nat, i: nat, was: set<nat>)
      requires Valid() && id < |lists| && Once(Everything()) && WroteOnly(was, BlockAt(lists[id], i))
      ensures forall j :: 0 <= j < |lists[id].blocks| && j != i ==> (lists[id].blocks[j].blkno in dirty <==> lists[id].blocks[j].blkno in was)
    {
      hide ListOK, Held, HeldAll, Sum, Blocks, AllStorable, Indexes, SumLen, AllReal, Once;
      forall j: nat | j < |lists[id].blocks| && j != i
        ensures lists[id].blocks[j].blkno !in BlockAt(lists[id], i) + FirstOf(avail) + FirstOf(freed)
      {
        OnePlace(avail, freed, lists, Blocks(root.exts), used, id, i, j);
      }
    }

    /**
      Copies every block of a list.  The undo of a copy fails exactly when the space to
      free numbers runs out before the blocks, the numbers and the memory do.
    */
    method CopyAll(id: nat, memory: nat -> bool) returns (ret: int, bug: bool)
      requires Valid() && id < |lists|
      modifies this
      ensures |lists| == |old(lists)| && Valid() && Everything() == old(Everything())
      ensures lists == old(lists)[id := lists[id]] && |lists[id].blocks| == |old(lists[id].blocks)| && lists[id].totalNr == old(lists[id].totalNr)
      ensures bug ==> ret < 0 && ready && freed.firstNr == LIST_MAX
      ensures Once(old(Everything())) ==>
                (bug <==> SpaceRunsOut(old(lists[id].blocks), old(dirty), old(AvailAfter()), old(FreedAfter()), memory))
    {
      hide Allocator.Valid, Allocator.Everything, Copied, WroteOnly, Once, SpaceRunsOut, Copying;
      var i := 0;
      ret, bug := 0, false;
      ghost var bs, d, a0, f0, once := lists[id].blocks, dirty, AvailAfter(), FreedAfter(), Once(Everything());
      CountsTell();
      CopyingStarts(bs, d, a0, f0, memory);
      while i < |lists[id].blocks|
        invariant |lists| == |old(lists)| && Valid() && Everything() == old(Everything()) && ret == 0 && !bug
        invariant lists == old(lists)[id := lists[id]] && lists[id].totalNr == old(lists[id].totalNr) && |lists[id].blocks| == |bs| && i <= |bs|
        invariant once ==> Copying(lists[id].blocks, dirty, AvailAfter(), FreedAfter(), bs, d, a0, f0, memory, i)
        decreases |bs| - i
      {
        ghost var l, was, a, f, clean, stuck := lists[id], dirty, AvailAfter(), FreedAfter(), Clean(id, i), Stuck();
        CountsTell();
        ret, bug := DirtyListBlock(id, i, memory(i));
        if ret < 0 {
          if once { CopyFails(l.blocks, was, a, f, bs, d, a0, f0, memory, i); }
          return;
        }
        CopiedBlocks(l, lists[id], i);
        CountsTell();
        if once {
          if clean { StaysClean(id, i, was); }
          CopyStep(l.blocks, was, a, f, lists[id].blocks, dirty, bs, d, a0, f0, memory, i);
        }
        i := i + 1;
      }
      if once { CopyEnds(lists[id].blocks, dirty, AvailAfter(), FreedAfter(), bs, d, a0, f0, memory); }
    }

    /** Puts a list before another: its blocks are copied so that its last one can lead on. */
    method SpliceList(dst: nat, src: nat, memory: nat -> bool) returns (ret: int, bug: bool)
      requires Valid() && dst < |lists| && src < |lists| && dst != src
      modifies this
      ensures Valid() && |lists| == |old(lists)| && Everything() == old(Everything())
      ensures bug ==> ready && freed.firstNr == LIST_MAX
      ensures Once(old(Everything())) ==>
                (bug <==> SpaceRunsOut(old(lists[src].blocks), old(dirty), old(AvailAfter()), old(FreedAfter()), memory))
      ensures ret == 0 ==> lists[src] == EMPTY || old(lists[src].blocks) == []
      ensures ret == 0 ==> lists[dst].totalNr == old(lists[dst].totalNr) + old(lists[src].totalNr)
    {
      hide ListOK, Held, HeldAll, Sum, Blocks, AllStorable, Indexes, SumLen, AllReal, SpaceRunsOut, Once;
      assert ListOK(lists[src]) && ListOK(lists[dst]);
      ret, bug := CopyAll(src, memory);
      if ret < 0 {
        return;
      }
      if lists[src].blocks == [] {
        NoEntries(lists[src]);
        return;
      }
      SpliceAll(avail, freed, lists, Blocks(root.exts), used, dst, src);
      lists := lists[dst := Spliced(lists[dst], lists[src])][src := EMPTY];
    }
  }

  // ---- how many blocks can be copied

  /** How many of the blocks have to be copied. */
  ghost function Copies(bs: seq<ListBlock>, dirty: set<nat>): nat {
    if bs == [] then 0 else Copies(bs[..|bs| - 1], dirty) + if bs[|bs| - 1].blkno in dirty then 0 else 1
  }

  /** There is memory for the first copies. */
  ghost predicate HasMemory(bs: seq<ListBlock>, dirty: set<nat>, memory: nat -> bool, n: int) {
    forall i :: 0 <= i < |bs| && bs[i].blkno !in dirty && Copies(bs[..i], dirty) < n ==> memory(i)
  }

  /** Each copy takes a number and frees one: there are more to copy, and more numbers, than can be freed. */
  ghost predicate SpaceRunsOut(bs: seq<ListBlock>, dirty: set<nat>, avail: int, freed: int, memory: nat -> bool) {
    var space := LIST_MAX - freed;
    Copies(bs, dirty) > space && avail > space && HasMemory(bs, dirty, memory, space)
  }

  /** Some blocks were copied and the others are as they were. */
  ghost predicate Copying(blocks: seq<ListBlock>, dirty: set<nat>, avail: int, freed: int,
                          bs: seq<ListBlock>, d: set<nat>, a0: int, f0: int, memory: nat -> bool, i: nat) {
    && i <= |bs| == |blocks|
    && avail == a0 - Copies(bs[..i], d) && freed == f0 + Copies(bs[..i], d) <= LIST_MAX
    && (forall j :: i <= j < |bs| ==> blocks[j].blkno == bs[j].blkno && (bs[j].blkno in dirty <==> bs[j].blkno in d))
    && (forall j :: 0 <= j < i && bs[j].blkno !in d ==> memory(j))
  }

  lemma CopyingStarts(bs: seq<ListBlock>, d: set<nat>, a0: int, f0: int, memory: nat -> bool)
    requires f0 <= LIST_MAX
    ensures Copying(bs, d, a0, f0, bs, d, a0, f0, memory, 0)
  {
    assert bs[..0] == [];
  }

  lemma CopiesNext(bs: seq<ListBlock>, d: set<nat>, i: nat)
    requires i < |bs|
    ensures Copies(bs[..i + 1], d) == Copies(bs[..i], d) + if bs[i].blkno in d then 0 else 1
  {
    assert bs[..i + 1][..i] == bs[..i];
  }

  lemma {:induction false} CopiesGrow(bs: seq<ListBlock>, d: set<nat>, i: nat, j: nat)
    requires i <= j <= |bs|
    ensures Copies(bs[..i], d) <= Copies(bs[..j], d)
    decreases j
  {
    if i < j {
      CopiesGrow(bs, d, i, j - 1);
      CopiesNext(bs, d, j - 1);
    }
  }

  lemma CopyStep(blocks: seq<ListBlock>, dirty: set<nat>, a: int, f: int, blocks': seq<ListBlock>, dirty': set<nat>,
                 bs: seq<ListBlock>, d: set<nat>, a0: int, f0: int, memory: nat -> bool, i: nat)
    requires Copying(blocks, dirty, a, f, bs, d, a0, f0, memory, i) && i < |bs| && |blocks'| == |blocks|
    requires forall j :: 0 <= j < |blocks| && j != i ==> blocks'[j] == blocks[j] && (blocks'[j].blkno in dirty' <==> blocks'[j].blkno in dirty)
    requires blocks[i].blkno !in dirty ==> memory(i) && f < LIST_MAX
    ensures var n := if blocks[i].blkno in dirty then 0 else 1;
            Copying(blocks', dirty', a - n, f + n, bs, d, a0, f0, memory, i + 1)
  {
    hide Copies;
    CopiesNext(bs, d, i);
  }

  lemma CopyFails(blocks: seq<ListBlock>, dirty: set<nat>, a: int, f: int, bs: seq<ListBlock>, d: set<nat>, a0: int, f0: int,
                  memory: nat -> bool, i: nat)
    requires Copying(blocks, dirty, a, f, bs, d, a0, f0, memory, i) && i < |bs| && blocks[i].blkno !in dirty
    requires a <= 0 || f == LIST_MAX || !memory(i)
    ensures SpaceRunsOut(bs, d, a0, f0, memory) <==> a > 0 && f == LIST_MAX
  {
    hide Copies;
    CopiesNext(bs, d, i);
    CopiesGrow(bs, d, i + 1, |bs|);
    assert bs[..|bs|] == bs;
    forall j | i <= j < |bs| ensures Copies(bs[..j], d) >= Copies(bs[..i], d) { CopiesGrow(bs, d, i, j); }
  }

  lemma CopyEnds(blocks: seq<ListBlock>, dirty: set<nat>, a: int, f: int, bs: seq<ListBlock>, d: set<nat>, a0: int, f0: int,
                 memory: nat -> bool)
    requires Copying(blocks, dirty, a, f, bs, d, a0, f0, memory, |bs|)
    ensures !SpaceRunsOut(bs, d, a0, f0, memory)
  {
    assert bs[..|bs|] == bs;
  }

  lemma CopiedBlocks(l: List, l': List, i: nat)
    requires Copied(l, l', i) && l.blocks != []
    ensures |l'.blocks| == |l.blocks| && l'.totalNr == l.totalNr && forall j :: 0 <= j < |l.blocks| && j != i ==> l'.blocks[j] == l.blocks[j]
  {
  }

  /** The numbers of two blocks of a list are both held. */
  lemma HeldTwo(l: List, i: nat, j: nat)
    requires ListOK(l) && i < j < |l.blocks| && l.blocks[i].blkno == l.blocks[j].blkno
    ensures Held(l.blocks)[l.blocks[i].blkno] >= 2
  {
    hide Held, CountNr;
    var a, b, c := l.blocks[..j], l.blocks[j], l.blocks[j + 1..];
    assert l.blocks == a + ([b] + c);
    HeldCons(b, c);
    HeldConcat(a, [b] + c);
    var p, q, r := a[..i], a[i], a[i + 1..];
    assert a == p + ([q] + r);
    HeldCons(q, r);
    HeldConcat(p, [q] + r);
  }

  /** When each number is in one place, a block's own number is not that of another block. */
  lemma OnePlace(avail: List, freed: List, lists: seq<List>, free: set<nat>, used: multiset<nat>, id: nat, i: nat, j: nat)
    requires ListOK(avail) && ListOK(freed) && ListsOK(lists) && Once(Sum(avail, freed, lists, free, used))
    requires id < |lists| && j < |lists[id].blocks| && j != i
    ensures lists[id].blocks[j].blkno !in BlockAt(lists[id], i) + FirstOf(avail) + FirstOf(freed)
  {
    hide ListOK, Held, HeldAll;
    var l := lists[id];
    assert ListOK(l);
    var x := l.blocks[j].blkno;
    HeldOne(l, j);
    HeldAllOne(lists, id);
    assert HeldAll(lists)[x] >= 1;
    if avail.blocks != [] { HeldFirst(avail); }
    if freed.blocks != [] { HeldFirst(freed); }
    assert Sum(avail, freed, lists, free, used)[x] <= 1;
    if i < |l.blocks| && l.blocks[i].blkno == x {
      if i < j { HeldTwo(l, i, j); } else { HeldTwo(l, j, i); }
    }
  }

  /**
    Freeing what is in use fills the block of freed numbers, and then the copy of a
    block can neither be finished nor undone.
  */
  method FreeUntilStuck(a: Allocator, memory: bool, was: nat) returns (ret: int, bug: bool)
    requires a.Valid() && a.ready && a.CanAlloc() && a.freed.firstNr + |a.used| >= LIST_MAX
    requires 0 < was < U64 - 1
    modifies a
    ensures a.Valid() && bug && ret != 0 && a.Everything() == old(a.Everything())
  {
    hide ListOK, ListsOK, Held, HeldAll, Sum, Blocks, AllStorable, Indexes, SumLen, AllReal;
    ListIs(a.freed);
    while a.freed.firstNr < LIST_MAX
      invariant a.Valid() && a.ready && a.avail == old(a.avail) && a.Everything() == old(a.Everything())
      invariant a.freed.firstNr + |a.used| >= LIST_MAX && a.freed.firstNr <= LIST_MAX
      decreases LIST_MAX - a.freed.firstNr
    {
      var blkno :| blkno in a.used;
      ret := a.FreeMeta(blkno);
    }
    var blkno;
    ret, bug, blkno := a.NewPlace(was, memory);
  }

  /** No number is accounted for twice. */
  ghost predicate Once(m: multiset<nat>) {
    forall b :: m[b] <= 1
  }

  /** A number becomes an entry of a list. */
  lemma AddOne(avail: List, freed: List, lists: seq<List>, free: set<nat>, used: multiset<nat>, id: nat, x: nat)
    requires ListsOK(lists) && id < |lists| && lists[id].blocks != [] && lists[id].firstNr < LIST_MAX
    requires AllReal(Sum(avail, freed, lists, free, used)) && 0 < x < U64 - 1
    ensures var l' := AddFirst(lists[id], x);
            && ListsOK(lists[id := l']) && l'.blocks != [] && l'.firstNr == lists[id].firstNr + 1
            && Sum(avail, freed, lists[id := l'], free, used) == Sum(avail, freed, lists, free, used) + multiset{x}
            && AllReal(Sum(avail, freed, lists[id := l'], free, used))
  {
    hide ListOK, Held, HeldAll, Sum, AddFirst;
    assert ListOK(lists[id]);
    var l' := AddFirst(lists[id], x);
    AddFirstIs(lists[id], x);
    SumList(avail, freed, lists, free, used, id, l', multiset{x}, multiset{});
    Cancel(Sum(avail, freed, lists[id := l'], free, used), Sum(avail, freed, lists, free, used) + multiset{x}, multiset{});
  }

  lemma RunBagNext(start: nat, i: nat, x: nat)
    requires x == start + i
    ensures multiset(Run(start, i + 1)) == multiset(Run(start, i)) + multiset{x}
  {
    hide Run;
    RunIs(start, i);
    var r: set<nat> := Run(start, i);
    assert multiset(r + {x}) == multiset(r) + multiset{x};
  }

  lemma RunIsReal(m: multiset<nat>, start: nat, len: nat, all: multiset<nat>)
    requires m + multiset(Run(start, len)) == all && AllReal(all) && len > 0
    ensures AllReal(m) && 0 < start && start + len < U64
  {
    hide Run;
    RunMember(start, len, start);
    RunMember(start, len, start + len - 1);
    assert start in multiset(Run(start, len)) && start + len - 1 in multiset(Run(start, len));
    assert start in all && start + len - 1 in all;
    forall b | b in m ensures b in all {}
  }

  /** The numbers at the front of a list are real block numbers. */
  lemma FrontIsReal(avail: List, freed: List, lists: seq<List>, free: set<nat>, used: multiset<nat>, id: nat, start: nat, len: nat)
    requires ListsOK(lists) && id < |lists| && FrontIs(lists[id], start, len) && 0 < len <= lists[id].firstNr
    requires AllReal(Sum(avail, freed, lists, free, used))
    ensures 0 < start && start + len < U64
  {
    hide Held, HeldAll, ListOK, CountNr, Entries, Run;
    assert ListOK(lists[id]);
    FrontHeld(lists[id], start, len, start);
    FrontHeld(lists[id], start, len, start + len - 1);
    HeldAllOne(lists, id);
    SumHas(avail, freed, lists, free, used, start);
    SumHas(avail, freed, lists, free, used, start + len - 1);
  }

  lemma FrontHeld(l: List, start: nat, len: nat, x: nat)
    requires ListOK(l) && FrontIs(l, start, len) && len <= l.firstNr && start <= x < start + len
    ensures x in Held(l.blocks)
  {
    hide CountNr, Entries;
    assert Entries(l.blocks[0])[x - start] == x;
  }

  /** If no number is accounted for twice, the entries of a list are not free. */
  lemma FrontIsApart(avail: List, freed: List, lists: seq<List>, free: set<nat>, used: multiset<nat>, id: nat, start: nat, len: nat)
    requires ListsOK(lists) && id < |lists| && FrontIs(lists[id], start, len) && 0 < len <= lists[id].firstNr
    ensures Once(Sum(avail, freed, lists, free, used)) ==> free !! Run(start, len)
  {
    hide Held, HeldAll, ListOK, CountNr, Entries, Run, FrontIs;
    HeldAllOne(lists, id);
    if Once(Sum(avail, freed, lists, free, used)) {
      forall x | x in Run(start, len) ensures x !in free {
        RunMember(start, len, x);
        FrontHeld(lists[id], start, len, x);
        assert x in HeldAll(lists);
        assert Sum(avail, freed, lists, free, used)[x] <= 1;
      }
    }
  }

  lemma EmptyFirst(l: List)
    requires l.blocks != []
    ensures |l.blocks[1..]| < |l.blocks|
  {
  }

  lemma NoEntries(l: List)
    requires ListOK(l) && l.blocks == []
    ensures l.totalNr == 0
  {
  }

  lemma CopiedFirst(l: List, l': List)
    requires Copied(l, l', 0)
    ensures l'.blocks != [] && l'.firstNr == l.firstNr
  {
  }

  lemma CopiedCounts(l: List, l': List)
    requires Copied(l, l', 0) && l.blocks != []
    ensures l'.blocks != [] && |l'.blocks| == |l.blocks| && l'.totalNr == l.totalNr
  {
  }

  function SortFirst(l: List): List
    requires ListOK(l) && l.blocks != []
  {
    l.(blocks := [SortBlock(l.blocks[0])] + l.blocks[1..])
  }

  lemma SortAll(avail: List, freed: List, lists: seq<List>, free: set<nat>, used: multiset<nat>, id: nat)
    requires ListsOK(lists) && id < |lists| && lists[id].blocks != []
    ensures var l' := SortFirst(lists[id]);
            && ListsOK(lists[id := l']) && |l'.blocks| == |lists[id].blocks| && l'.totalNr == lists[id].totalNr
            && Sum(avail, freed, lists[id := l'], free, used) == Sum(avail, freed, lists, free, used)
  {
    hide Held, HeldAll, Sum, SortBlock, CountNr;
    var l := lists[id];
    var b, rest := l.blocks[0], l.blocks[1..];
    assert ListOK(l) && l.blocks == [b] + rest;
    SortHolds(b);
    HeldCons(b, rest);
    HeldCons(SortBlock(b), rest);
    SumList(avail, freed, lists, free, used, id, SortFirst(l), multiset{}, multiset{});
    Cancel(Sum(avail, freed, lists[id := SortFirst(l)], free, used), Sum(avail, freed, lists, free, used), multiset{});
  }

  /** The first entry and as many of those after it as count on from it. */
  method FrontRun(l: List) returns (start: nat, len: nat)
    requires ListOK(l) && l.blocks != [] && l.firstNr > 0
    ensures 0 < len <= l.firstNr && FrontIs(l, start, len)
  {
    hide CountNr;
    var b := l.blocks[0];
    start, len := Peek(b, 0), 1;
    while len < b.nr && Peek(b, len) == start + len
      invariant 0 < len <= b.nr && forall j :: 0 <= j < len ==> Entries(b)[j] == start + j
    {
      len := len + 1;
    }
  }

  function Spliced(dst: List, src: List): List {
    List(src.blocks + dst.blocks, src.firstNr, dst.totalNr + src.totalNr)
  }

  lemma SpliceAll(avail: List, freed: List, lists: seq<List>, free: set<nat>, used: multiset<nat>, dst: nat, src: nat)
    requires ListsOK(lists) && dst < |lists| && src < |lists| && dst != src && lists[src].blocks != []
    ensures var ls := lists[dst := Spliced(lists[dst], lists[src])][src := EMPTY];
            ListsOK(ls) && Sum(avail, freed, ls, free, used) == Sum(avail, freed, lists, free, used)
  {
    hide Held, HeldAll, Sum, CountNr, BlockOK;
    var d, s := lists[dst], lists[src];
    assert ListOK(d) && ListOK(s);
    HeldConcat(s.blocks, d.blocks);
    NoBlocks();
    var one := lists[dst := Spliced(d, s)];
    SumList(avail, freed, lists, free, used, dst, Spliced(d, s), Held(s.blocks), multiset{});
    SumList(avail, freed, one, free, used, src, EMPTY, multiset{}, Held(s.blocks));
    Cancel(Sum(avail, freed, one[src := EMPTY], free, used), Sum(avail, freed, lists, free, used), Held(s.blocks));
  }

  ghost predicate FrontIs(l: List, start: nat, len: nat) {
    l.blocks != [] && len <= |Entries(l.blocks[0])| && forall j :: 0 <= j < len ==> Entries(l.blocks[0])[j] == start + j
  }

  lemma {:induction false} RunBag(s: seq<nat>, start: nat)
    requires forall j :: 0 <= j < |s| ==> s[j] == start + j
    ensures multiset(s) == multiset(Run(start, |s|))
  {
    hide Run;
    RunIs(start, 0);
    if s != [] {
      var n := |s| - 1;
      RunBag(s[..n], start);
      RunIs(start, n);
      assert s == s[..n] + [s[n]];
      var r: set<nat>, x: nat := Run(start, n), start + n;
      assert multiset(r + {x}) == multiset(r) + multiset{x};
    }
  }

  lemma GiveAll(avail: List, freed: List, lists: seq<List>, free: set<nat>, used: multiset<nat>, id: nat, start: nat, len: nat)
    requires ListsOK(lists) && id < |lists| && lists[id].blocks != [] && len <= lists[id].firstNr && Run(start, len) !! free
    requires FrontIs(lists[id], start, len)
    ensures var l' := RemoveFirst(lists[id], len);
            && ListsOK(lists[id := l']) && |l'.blocks| == |lists[id].blocks| && l'.totalNr + len == lists[id].totalNr
            && Sum(avail, freed, lists[id := l'], free + Run(start, len), used) == Sum(avail, freed, lists, free, used)
  {
    hide ListOK, Held, HeldAll, Sum, RemoveFirst, Run, Entries;
    assert ListOK(lists[id]);
    var l' := RemoveFirst(lists[id], len);
    RemoveFirstIs(lists[id], len);
    CountFirst(lists[id]);
    var front := Entries(lists[id].blocks[0])[..len];
    RunBag(front, start);
    SumList(avail, freed, lists, free, used, id, l', multiset{}, multiset(front));
    SumFree(avail, freed, lists[id := l'], free, used, Run(start, len));
  }

  function Tail(l: List): List
    requires l.blocks != []
  {
    List(l.blocks[1..], if |l.blocks| > 1 then l.blocks[1].nr else 0, l.totalNr)
  }

  lemma TailIs(l: List)
    requires ListOK(l) && l.blocks != [] && l.firstNr == 0
    ensures ListOK(Tail(l)) && Held(Tail(l).blocks) + multiset{l.blocks[0].blkno} == Held(l.blocks)
  {
  }

  lemma SumList(avail: List, freed: List, lists: seq<List>, free: set<nat>, used: multiset<nat>, id: nat, l': List, plus: multiset<nat>, minus: multiset<nat>)
    requires ListsOK(lists) && id < |lists| && ListOK(l') && Held(l'.blocks) + minus == Held(lists[id].blocks) + plus
    ensures ListsOK(lists[id := l'])
    ensures Sum(avail, freed, lists[id := l'], free, used) + minus == Sum(avail, freed, lists, free, used) + plus
  {
    hide Held, HeldAll, ListOK;
    HeldAllUpdate(lists, id, l');
    BagOfMove(HeldAll(lists), HeldAll(lists[id := l']), Held(lists[id].blocks), Held(l'.blocks), minus, plus);
    var rest := Held(avail.blocks) + Held(freed.blocks) + multiset(free) + used;
    assert Sum(avail, freed, lists[id := l'], free, used) + minus == rest + (HeldAll(lists[id := l']) + minus);
    assert Sum(avail, freed, lists, free, used) + plus == rest + (HeldAll(lists) + plus);
  }

  lemma SumFree(avail: List, freed: List, lists: seq<List>, free: set<nat>, used: multiset<nat>, some: set<nat>)
    requires some !! free
    ensures Sum(avail, freed, lists, free + some, used) == Sum(avail, freed, lists, free, used) + multiset(some)
  {
    hide Held, HeldAll;
    assert multiset(free + some) == multiset(free) + multiset(some);
    var rest := Held(avail.blocks) + Held(freed.blocks) + HeldAll(lists) + used;
    assert Sum(avail, freed, lists, free + some, used) == rest + multiset(free + some);
    assert Sum(avail, freed, lists, free, used) == rest + multiset(free);
  }

  function OrNone(blkno: nat): multiset<nat> {
    if blkno == 0 then multiset{} else multiset{blkno}
  }

  /** A list after one of its blocks moved, or after it got its first one. */
  function Moved(l: List, i: nat, blkno: nat): List {
    l.(blocks := if i < |l.blocks| then l.blocks[i := l.blocks[i].(blkno := blkno)] else [NewBlock(blkno)])
  }

  /** A block of a list may be elsewhere, and nothing else is different; there is a first block now. */
  ghost predicate Copied(l: List, l': List, i: nat) {
    && l'.blocks != [] && l'.firstNr == l.firstNr && l'.totalNr == l.totalNr
    && (l.blocks != [] ==> |l'.blocks| == |l.blocks|)
    && forall j :: 0 <= j < |l.blocks| && j < |l'.blocks| ==>
         l'.blocks[j] == l.blocks[j] || (j == i && l'.blocks[j] == l.blocks[j].(blkno := l'.blocks[j].blkno))
  }

  lemma NotCopied(l: List, i: nat)
    requires l.blocks != []
    ensures Copied(l, l, i)
  {
  }

  lemma MovedCopied(l: List, i: nat, blkno: nat)
    requires i < |l.blocks| || (i == 0 && l.blocks == [])
    ensures Copied(l, Moved(l, i, blkno), i) && BlockAt(Moved(l, i, blkno), i) == {blkno}
  {
  }

  lemma MovedIs(l: List, i: nat, blkno: nat, more: multiset<nat>)
    requires ListOK(l) && (i < |l.blocks| || (i == 0 && l.blocks == []))
    requires more == if i < |l.blocks| then multiset{l.blocks[i].blkno} else multiset{}
    ensures ListOK(Moved(l, i, blkno)) && Held(Moved(l, i, blkno).blocks) + more == Held(l.blocks) + multiset{blkno}
  {
    hide Held, CountNr;
    if i < |l.blocks| {
      var b, b' := l.blocks[i], l.blocks[i].(blkno := blkno);
      MovedHolds(b, blkno);
      HeldUpdate(l.blocks, i, b');
      BagOfMove(Held(l.blocks), Held(Moved(l, i, blkno).blocks), HeldBlock(b), HeldBlock(b'), more, multiset{blkno});
    } else {
      NoBlocks();
      HeldCons(NewBlock(blkno), []);
      assert [NewBlock(blkno)] + [] == [NewBlock(blkno)];
    }
  }

  lemma NoBlocks()
    ensures Held([]) == multiset{} && CountNr([]) == 0
  {
  }

  lemma BagOfMove(all: multiset<nat>, all': multiset<nat>, b: multiset<nat>, b': multiset<nat>, was: multiset<nat>, new': multiset<nat>)
    requires all' + b == all + b' && b' + was == b + new'
    ensures all' + was == all + new'
  {
    forall x ensures (all' + was)[x] == (all + new')[x] {
      assert (all' + b)[x] == (all + b')[x];
      assert (b' + was)[x] == (b + new')[x];
    }
  }

  lemma SumMoves(avail: List, freed: List, lists: seq<List>, free: set<nat>, used: multiset<nat>, id: nat, l': List, more: multiset<nat>, blkno: nat)
    requires ListsOK(lists) && id < |lists| && ListOK(l') && blkno in used
    requires Held(l'.blocks) + more == Held(lists[id].blocks) + multiset{blkno}
    ensures ListsOK(lists[id := l'])
    ensures Sum(avail, freed, lists[id := l'], free, used - multiset{blkno}) + more == Sum(avail, freed, lists, free, used)
  {
    hide Held, HeldAll, ListOK;
    HeldAllUpdate(lists, id, l');
    var one := multiset{blkno};
    BagOfMove(HeldAll(lists), HeldAll(lists[id := l']), Held(lists[id].blocks), Held(l'.blocks), more, one);
    var rest := Held(avail.blocks) + Held(freed.blocks) + multiset(free);
    assert used - one + one == used;
    assert Sum(avail, freed, lists[id := l'], free, used - one) + more == rest + (HeldAll(lists[id := l']) + more) + (used - one);
    assert Sum(avail, freed, lists, free, used) == rest + HeldAll(lists) + (used - one + one);
  }

  /** The copy of a block takes the place of the block. */
  lemma MovesOver(avail: List, freed: List, lists: seq<List>, free: set<nat>, used: multiset<nat>, id: nat, i: nat, was: nat, blkno: nat, all: multiset<nat>)
    requires ListsOK(lists) && id < |lists| && blkno in used && (i < |lists[id].blocks| || (i == 0 && lists[id].blocks == []))
    requires was == if i < |lists[id].blocks| then lists[id].blocks[i].blkno else 0
    requires (was == 0 ==> lists[id].blocks == []) && Sum(avail, freed, lists, free, used) == all + OrNone(was)
    ensures ListsOK(lists[id := Moved(lists[id], i, blkno)])
    ensures Sum(avail, freed, lists[id := Moved(lists[id], i, blkno)], free, used - multiset{blkno}) == all
  {
    hide Held, HeldAll, ListOK, Sum, Moved;
    assert ListOK(lists[id]);
    var l' := Moved(lists[id], i, blkno);
    MovedIs(lists[id], i, blkno, OrNone(was));
    SumMoves(avail, freed, lists, free, used, id, l', OrNone(was), blkno);
    Cancel(Sum(avail, freed, lists[id := l'], free, used - multiset{blkno}), all, OrNone(was));
  }

  lemma StorageOf(avail: List, freed: List, lists: seq<List>, free: set<nat>, used: multiset<nat>, id: nat, i: nat)
    requires ListsOK(lists) && id < |lists| && i < |lists[id].blocks| && AllReal(Sum(avail, freed, lists, free, used))
    ensures 0 < lists[id].blocks[i].blkno < U64 - 1
  {
    hide Held, HeldAll, ListOK, CountNr, Sum, AllReal;
    var l := lists[id];
    assert ListOK(l);
    HeldOne(l, i);
    HeldAllOne(lists, id);
    SumHas(avail, freed, lists, free, used, l.blocks[i].blkno);
  }

  lemma HeldOne(l: List, i: nat)
    requires ListOK(l) && i < |l.blocks|
    ensures l.blocks[i].blkno in Held(l.blocks)
  {
    hide Held, CountNr;
    assert l.blocks == l.blocks[..i] + ([l.blocks[i]] + l.blocks[i + 1..]);
    HeldCons(l.blocks[i], l.blocks[i + 1..]);
    HeldConcat(l.blocks[..i], [l.blocks[i]] + l.blocks[i + 1..]);
  }

  lemma HeldAllOne(ls: seq<List>, id: nat)
    requires ListsOK(ls) && id < |ls|
    ensures Held(ls[id].blocks) <= HeldAll(ls)
  {
    hide Held, ListOK;
    assert ls == ls[..id] + ls[id..];
    HeldAllConcat(ls[..id], ls[id..]);
  }

  lemma SumUsed(avail: List, freed: List, lists: seq<List>, free: set<nat>, used: multiset<nat>, some: multiset<nat>)
    requires some <= used
    ensures Sum(avail, freed, lists, free, used - some) + some == Sum(avail, freed, lists, free, used)
  {
    hide Held, HeldAll;
    assert used - some + some == used;
  }

  lemma ListIs(l: List)
    requires ListOK(l)
    ensures l.blocks != [] ==> BlockOK(l.blocks[0]) && l.firstNr == l.blocks[0].nr
    ensures l.firstNr <= LIST_MAX
    ensures l.blocks == [] ==> l.firstNr == 0
  {
  }

  /** If all block numbers are accounted for once, each of them is in exactly one place. */
  lemma ExactlyOnePlace(avail: List, freed: List, lists: seq<List>, free: set<nat>, used: multiset<nat>, blocks: set<nat>, b: nat)
    requires Sum(avail, freed, lists, free, used) == multiset(blocks)
    ensures Held(avail.blocks)[b] + Held(freed.blocks)[b] + HeldAll(lists)[b] + (if b in free then 1 else 0) + used[b] ==
            if b in blocks then 1 else 0
  {
    hide Held, HeldAll;
    var a, f, l := Held(avail.blocks), Held(freed.blocks), HeldAll(lists);
    assert (a + f + l + multiset(free) + used)[b] == a[b] + f[b] + l[b] + multiset(free)[b] + used[b];
  }
}
