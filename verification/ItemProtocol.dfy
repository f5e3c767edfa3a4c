/**
  One mount's item cache over the trees of the forest as a transition system:
  readers, writers, commits, splits, shrinking and lock invalidation interleave,
  and other mounts change what this mount neither caches nor reads.
*/
module ItemProtocol {
  import opened Wrappers
  import opened ItemPages
  import opened LogItems
  import opened ItemCells
  import opened PageCache

  /** A read in the range of a lock; once it has the roots, what the forest stored then and the range it will speak for. */
  datatype Reader = Reader(start: nat, end: nat, snap: Option<Snapshot>)

  datatype Snapshot = Snapshot(trees: seq<Tree>, lo: nat, hi: nat)

  /** Writers are kept out from the writing of the dirty items until they are clean. */
  datatype Phase = Open | Written(next: Tree) | Flushing

  datatype State = State(pages: set<Page>, trees: seq<Tree>, mine: nat, readers: map<nat, Reader>, phase: Phase)

  datatype Op = Create(val: Bytes) | Update(val: Bytes) | MarkDirty | Delete

  datatype Label = Operate(key: nat, vers: nat, op: Op) | Remote | Internal

  ghost function CellAt(s: State, k: nat): Cell {
    Look(s.pages, k)
  }

  function StoredAt(s: State, k: nat): Option<LogItem> {
    Newest(s.trees, k)
  }

  /** The value that a key has in the file system. */
  ghost function Truth(s: State, k: nat): Option<Bytes> {
    Overlay(CellAt(s, k), StoredAt(s, k))
  }

  ghost function Ranges(readers: map<nat, Reader>): set<Range> {
    set id | id in readers :: Range(readers[id].start, readers[id].end)
  }

  // ---- steps

  /** Whether the operation is refused, as the item has to exist or has to be missing. */
  predicate Refused(c: Cell, op: Op) {
    if op.Create? then Live(c) else !Live(c)
  }

  function Result(c: Cell, vers: nat, op: Op): Cell {
    if Refused(c, op) then c
    else
      match op
      case Create(val) => Created(c, val, vers, false)
      case Update(val) => Updated(c, val, vers)
      case MarkDirty => Dirtied(c, vers)
      case Delete => Deleted(c, vers, false)
  }

  /** The version of a write lock is above what others wrote before and not below what this mount wrote. */
  ghost predicate IsNewer(s: State, k: nat, vers: nat) {
    && (forall i :: 0 <= i < |s.trees| && k in s.trees[i] ==> s.trees[i][k].vers < vers || (i == s.mine && s.trees[i][k].vers == vers))
    && (CellAt(s, k).Present? ==> CellAt(s, k).item.vers <= vers)
  }

  ghost predicate OperateStep(s: State, s': State, key: nat, vers: nat, op: Op) {
    && s.phase.Open? && CellAt(s, key) != Uncached && IsNewer(s, key, vers)
    && s' == s.(pages := s'.pages) && Sets(s.pages, s'.pages, key, Result(CellAt(s, key), vers, op))
  }

  ghost predicate RegisterStep(s: State, s': State, id: nat, start: nat, end: nat) {
    id !in s.readers && s' == s.(readers := s.readers[id := Reader(start, end, None)])
  }

  ghost predicate SnapshotStep(s: State, s': State, id: nat, lo: nat, hi: nat) {
    && id in s.readers && s.readers[id].start <= lo && hi <= s.readers[id].end
    && s' == s.(readers := s.readers[id := s.readers[id].(snap := Some(Snapshot(s.trees, lo, hi)))])
  }

  /** What was read goes where nothing is cached; the trees may have changed since. */
  ghost predicate FinishStep(s: State, s': State, id: nat) {
    && id in s.readers && s.readers[id].snap.Some?
    && s' == s.(pages := s'.pages, readers := s.readers - {id}) && Good(s'.pages)
    && Fills(s.pages, s'.pages, s.readers[id].snap.value.trees, s.readers[id].snap.value.lo, s.readers[id].snap.value.hi)
  }

  ghost predicate AbortStep(s: State, s': State, id: nat) {
    s' == s.(readers := s.readers - {id})
  }

  ghost predicate SplitStep(s: State, s': State) {
    s' == s.(pages := s'.pages) && Good(s'.pages) && SameCells(s.pages, s'.pages)
  }

  ghost predicate ShrinkStep(s: State, s': State) {
    s' == s.(pages := s'.pages) && Good(s'.pages) && Shrinks(s.pages, s'.pages, Ranges(s.readers))
  }

  /** A lock that is given up has no users, and its dirty items were written. */
  ghost predicate InvalidateStep(s: State, s': State, start: nat, end: nat) {
    && CleanRange(s.pages, start, end) && (forall k: nat :: start <= k <= end ==> !BeingRead(Ranges(s.readers), k))
    && s' == s.(pages := s'.pages) && Good(s'.pages) && Forgets(s.pages, s'.pages, start, end)
  }

  ghost predicate WriteDirtyStep(s: State, s': State) {
    && s.phase.Open? && s'.phase.Written? && s' == s.(phase := s'.phase) && s.mine < |s.trees|
    && forall k: nat :: At(s'.phase.next, k) == Committed(CellAt(s, k), At(s.trees[s.mine], k))
  }

  ghost predicate CommitStep(s: State, s': State) {
    && s.phase.Written? && s.mine < |s.trees|
    && s' == s.(trees := s.trees[s.mine := s.phase.next], phase := Flushing)
  }

  ghost predicate WriteDoneStep(s: State, s': State) {
    && s.phase.Flushing? && s' == s.(pages := s'.pages, phase := Open) && Good(s'.pages)
    && forall k: nat :: CellAt(s', k) == Done(CellAt(s, k))
  }

  /** Other mounts only write where this mount holds no lock. */
  ghost predicate RemoteStep(s: State, s': State) {
    && s' == s.(trees := s'.trees) && |s'.trees| == |s.trees| && (s.mine < |s.trees| ==> s'.trees[s.mine] == s.trees[s.mine])
    && forall k: nat, i :: 0 <= i < |s.trees| && (CellAt(s, k) != Uncached || BeingRead(Ranges(s.readers), k)) ==>
         At(s'.trees[i], k) == At(s.trees[i], k)
  }

  ghost predicate InternalStep(s: State, s': State) {
    || (exists id, start, end :: RegisterStep(s, s', id, start, end))
    || (exists id, lo, hi :: SnapshotStep(s, s', id, lo, hi))
    || (exists id :: FinishStep(s, s', id))
    || (exists id :: AbortStep(s, s', id))
    || SplitStep(s, s')
    || ShrinkStep(s, s')
    || (exists start, end :: InvalidateStep(s, s', start, end))
    || WriteDirtyStep(s, s')
    || CommitStep(s, s')
    || WriteDoneStep(s, s')
  }

  ghost predicate Step(s: State, s': State, l: Label) {
    match l
    case Operate(key, vers, op) => OperateStep(s, s', key, vers, op)
    case Remote => RemoteStep(s, s')
    case Internal => InternalStep(s, s')
  }

  ghost predicate Init(s: State) {
    && s.pages == {} && s.readers == map[] && s.phase == Open && s.mine < |s.trees|
  }

  // ---- the invariant

  ghost predicate CellOK(s: State, k: nat) {
    if s.phase.Flushing? then Flushed(CellAt(s, k), StoredAt(s, k)) else Coherent(CellAt(s, k), StoredAt(s, k))
  }

  /** Dirty items are newer than what others wrote. */
  ghost predicate DirtyIsNewer(s: State, k: nat) {
    IsDirty(CellAt(s, k)) ==>
      forall i :: 0 <= i < |s.trees| && i != s.mine && k in s.trees[i] ==> s.trees[i][k].vers < CellAt(s, k).item.vers
  }

  /** What a reader saw is still stored wherever nothing is cached. */
  ghost predicate ReaderOK(s: State, r: Reader, k: nat) {
    r.snap.Some? && r.start <= k <= r.end && CellAt(s, k) == Uncached ==> Newest(r.snap.value.trees, k) == StoredAt(s, k)
  }

  ghost predicate WrittenOK(s: State, k: nat) {
    s.phase.Written? && s.mine < |s.trees| ==> At(s.phase.next, k) == Committed(CellAt(s, k), At(s.trees[s.mine], k))
  }

  ghost predicate RangesOK(s: State) {
    forall id :: id in s.readers && s.readers[id].snap.Some? ==>
      s.readers[id].start <= s.readers[id].snap.value.lo && s.readers[id].snap.value.hi <= s.readers[id].end
  }

  /** All that is claimed about one key. */
  ghost predicate KeyOK(s: State, k: nat) {
    && CellOK(s, k) && DirtyIsNewer(s, k) && WrittenOK(s, k)
    && forall id :: id in s.readers ==> ReaderOK(s, s.readers[id], k)
  }

  ghost predicate Inv(s: State) {
    && Good(s.pages) && s.mine < |s.trees| && RangesOK(s)
    && forall k: nat :: KeyOK(s, k)
  }
}
