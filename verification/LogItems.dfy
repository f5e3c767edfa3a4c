/**
  Items as the trees of the forest store them: values with a version and a
  deletion flag in front, and the newest of the versions in many trees.
*/
module LogItems {
  import opened Wrappers

  datatype LogItem = LogItem(vers: nat, deletion: bool, val: seq<nat>)

  const VERSIONS: nat := 0x1_0000_0000_0000_0000
  const HEADER: nat := 9

  /** `n` little endian bytes. */
  function LittleEndian(x: nat, n: nat): (r: seq<nat>)
    ensures |r| == n
  {
    if n == 0 then [] else [x % 256] + LittleEndian(x / 256, n - 1)
  }

  function FromLittleEndian(s: seq<nat>): nat {
    if s == [] then 0 else s[0] + 256 * FromLittleEndian(s[1..])
  }

  function Power256(n: nat): (r: nat)
    ensures r > 0
  {
    if n == 0 then 1 else 256 * Power256(n - 1)
  }

  lemma {:induction false} LittleEndianBack(x: nat, n: nat)
    requires x < Power256(n)
    ensures FromLittleEndian(LittleEndian(x, n)) == x
  {
    if n > 0 {
      LittleEndianBack(x / 256, n - 1);
      assert LittleEndian(x, n)[1..] == LittleEndian(x / 256, n - 1);
    }
  }

  /** A log tree's value holds the version, the flags and then the bytes of the item. */
  function Encode(l: LogItem): (r: seq<nat>)
    ensures |r| == HEADER + |l.val|
  {
    LittleEndian(l.vers, 8) + [if l.deletion then 1 else 0] + l.val
  }

  function Decode(s: seq<nat>): LogItem
    requires |s| >= HEADER
  {
    LogItem(FromLittleEndian(s[..8]), s[8] % 2 == 1, s[HEADER..])
  }

  lemma Power8()
    ensures Power256(8) == VERSIONS
  {
    assert Power256(4) == 0x1_0000_0000;
  }

  /** What is written to a log tree is what is read from it. */
  lemma DecodeEncode(l: LogItem)
    requires l.vers < VERSIONS
    ensures Decode(Encode(l)) == l
  {
    Power8();
    LittleEndianBack(l.vers, 8);
    var s := Encode(l);
    assert s[..8] == LittleEndian(l.vers, 8);
    assert s[HEADER..] == l.val;
  }

  // ---- the newest version

  type Tree = map<nat, LogItem>

  function At(t: Tree, k: nat): Option<LogItem> {
    if k in t then Some(t[k]) else None
  }

  /** An item that was found first stays unless a higher version follows. */
  function Take(found: Option<LogItem>, next: Option<LogItem>): Option<LogItem> {
    if next.None? || (found.Some? && found.value.vers >= next.value.vers) then found else next
  }

  /** The item for a key once the trees were read one after the other. */
  function Newest(trees: seq<Tree>, k: nat): Option<LogItem> {
    if trees == [] then None else Take(Newest(trees[..|trees| - 1], k), At(trees[|trees| - 1], k))
  }

  /** An item of one of the trees, none of which has a higher version. */
  ghost predicate IsNewest(trees: seq<Tree>, k: nat, r: Option<LogItem>) {
    match r
    case None => forall t :: t in trees ==> k !in t
    case Some(l) =>
      && (exists t :: t in trees && At(t, k) == r)
      && forall t: Tree :: t in trees && k in t ==> t[k].vers <= l.vers
  }

  lemma {:induction false} NewestIs(trees: seq<Tree>, k: nat)
    ensures IsNewest(trees, k, Newest(trees, k))
  {
    if trees != [] {
      var init, last := trees[..|trees| - 1], trees[|trees| - 1];
      NewestIs(init, k);
      assert trees == init + [last];
      NewestOfMore(init, last, k);
    }
  }

  lemma NewestOfMore(init: seq<Tree>, last: Tree, k: nat)
    requires IsNewest(init, k, Newest(init, k))
    ensures IsNewest(init + [last], k, Take(Newest(init, k), At(last, k)))
  {
    hide Newest;
    var all, was, r := init + [last], Newest(init, k), Take(Newest(init, k), At(last, k));
    assert last in all && forall t :: t in init ==> t in all;
    if r.Some? {
      if r == was {
        var t :| t in init && At(t, k) == was;
        assert t in all && At(t, k) == r;
      } else {
        assert last in all && At(last, k) == r;
      }
    }
  }

  /** No two trees have the same version of different items. */
  ghost predicate DistinctVersions(trees: seq<Tree>, k: nat) {
    forall t: Tree, u: Tree :: t in trees && u in trees && k in t && k in u && t[k].vers == u[k].vers ==> t[k] == u[k]
  }

  /** The order in which the trees are read does not matter. */
  lemma AnyOrder(trees: seq<Tree>, trees': seq<Tree>, k: nat)
    requires forall t :: t in trees ==> t in trees'
    requires forall t :: t in trees' ==> t in trees
    requires DistinctVersions(trees, k)
    ensures Newest(trees, k) == Newest(trees', k)
  {
    hide Newest;
    NewestIs(trees, k);
    NewestIs(trees', k);
    var r, r' := Newest(trees, k), Newest(trees', k);
    if r.Some? {
      var t :| t in trees && At(t, k) == r;
      assert t in trees' && k in t;
      if r'.Some? {
        var t' :| t' in trees' && At(t', k) == r';
        assert t' in trees && k in t';
      }
    }
  }

  /** With equal versions the first tree that is read wins. */
  lemma TiesFollowOrder()
    ensures Newest([map[1 := LogItem(5, false, [1])], map[1 := LogItem(5, false, [2])]], 1) ==
            Some(LogItem(5, false, [1]))
    ensures Newest([map[1 := LogItem(5, false, [2])], map[1 := LogItem(5, false, [1])]], 1) ==
            Some(LogItem(5, false, [2]))
  {
    var a, b := map[1 := LogItem(5, false, [1])], map[1 := LogItem(5, false, [2])];
    assert [a, b][..1] == [a] && [b, a][..1] == [b];
    assert Newest([a], 1) == Some(a[1]) && Newest([b], 1) == Some(b[1]);
  }
}
