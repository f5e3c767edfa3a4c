/** What every step of the item cache keeps, and what that means for whole runs. */
module ItemTheorems {
  import opened Wrappers
  import opened ItemPages
  import opened LogItems
  import opened ItemCells
  import opened PageCache
  import opened ItemProtocol

  // ---- the newest items of changed trees

  lemma {:induction false} NewestSame(a: seq<Tree>, b: seq<Tree>, k: nat)
    requires |a| == |b| && forall i :: 0 <= i < |a| ==> At(a[i], k) == At(b[i], k)
    ensures Newest(a, k) == Newest(b, k)
  {
    if a != [] {
      NewestSame(a[..|a| - 1], b[..|b| - 1], k);
    }
  }

  /** An item that is above those of all other trees is the newest. */
  lemma NewestAbove(trees: seq<Tree>, mine: nat, k: nat)
    requires mine < |trees| && k in trees[mine]
    requires forall i :: 0 <= i < |trees| && i != mine && k in trees[i] ==> trees[i][k].vers < trees[mine][k].vers
    ensures Newest(trees, k) == Some(trees[mine][k])
  {
    hide Newest;
    NewestIs(trees, k);
    var r := Newest(trees, k);
    assert trees[mine] in trees;
    if r.Some? {
      var t :| t in trees && At(t, k) == r;
      var i :| 0 <= i < |trees| && trees[i] == t;
    }
  }

  lemma NewestCommitted(s: State, k: nat)
    requires s.phase.Written? && s.mine < |s.trees| && DirtyIsNewer(s, k) && WrittenOK(s, k)
    ensures Newest(s.trees[s.mine := s.phase.next], k) == Committed(CellAt(s, k), StoredAt(s, k))
  {
    hide Newest, Look;
    var trees := s.trees[s.mine := s.phase.next];
    if IsDirty(CellAt(s, k)) {
      NewestAbove(trees, s.mine, k);
    } else {
      NewestSame(trees, s.trees, k);
    }
  }

  lemma NewerMayWrite(s: State, k: nat, vers: nat)
    requires IsNewer(s, k, vers)
    ensures MayWrite(CellAt(s, k), StoredAt(s, k), vers)
  {
    hide Newest, Look;
    NewestIs(s.trees, k);
    var r := StoredAt(s, k);
    if r.Some? {
      var t :| t in s.trees && At(t, k) == r;
      var i :| 0 <= i < |s.trees| && s.trees[i] == t;
      assert k in s.trees[i];
    }
  }

  // ---- operations

  /** What an operation does to the value of its key. */
  function Expected(t: Option<Bytes>, op: Op): Option<Bytes> {
    match op
    case Create(val) => if t.Some? then t else Some(val)
    case Update(val) => if t.Some? then Some(val) else None
    case MarkDirty => t
    case Delete => None
  }

  /** The same key of two states with equal trees and cells. */
  lemma SameKey(s: State, s': State, k: nat)
    requires KeyOK(s, k) && CellAt(s', k) == CellAt(s, k)
    requires s'.trees == s.trees && s'.mine == s.mine && s'.readers == s.readers && s'.phase == s.phase
    ensures KeyOK(s', k) && Truth(s', k) == Truth(s, k)
  {
    hide Newest, Look, Coherent, Flushed;
    forall id | id in s'.readers ensures ReaderOK(s', s'.readers[id], k) {
      assert ReaderOK(s, s.readers[id], k);
    }
  }

  lemma OperateHere(s: State, s': State, key: nat, vers: nat, op: Op)
    requires KeyOK(s, key) && OperateStep(s, s', key, vers, op)
    ensures KeyOK(s', key) && Truth(s', key) == Expected(Truth(s, key), op)
  {
    hide Newest, Look, Good;
    var c, l := CellAt(s, key), StoredAt(s, key);
    NewerMayWrite(s, key, vers);
    OperationsAreCoherent(c, l, if op.Create? || op.Update? then op.val else [], vers);
    ShownIsOverlay(c, l);
    ShownIsOverlay(CellAt(s', key), l);
  }

  lemma OperateKeeps(s: State, s': State, key: nat, vers: nat, op: Op)
    requires Inv(s) && OperateStep(s, s', key, vers, op)
    ensures Inv(s')
    ensures forall k: nat :: Truth(s', k) == if k == key then Expected(Truth(s, k), op) else Truth(s, k)
  {
    hide Look, Good, KeyOK, Truth, Expected, Result, IsNewer;
    assert KeyOK(s, key);
    OperateHere(s, s', key, vers, op);
    forall k: nat ensures KeyOK(s', k) && Truth(s', k) == if k == key then Expected(Truth(s, k), op) else Truth(s, k) {
      assert KeyOK(s, k);
      if k != key { SameKey(s, s', k); }
    }
  }

  // ---- readers

  lemma RegisterKeeps(s: State, s': State, id: nat, start: nat, end: nat)
    requires Inv(s) && RegisterStep(s, s', id, start, end)
    ensures Inv(s') && forall k: nat :: Truth(s', k) == Truth(s, k)
  {
    hide Look, Good, Newest, Coherent, Flushed;
    forall k: nat ensures KeyOK(s', k) {
      assert KeyOK(s, k);
      forall r | r in s'.readers ensures ReaderOK(s', s'.readers[r], k) {
        if r != id { assert ReaderOK(s, s.readers[r], k); }
      }
    }
  }

  lemma SnapshotKeeps(s: State, s': State, id: nat, lo: nat, hi: nat)
    requires Inv(s) && SnapshotStep(s, s', id, lo, hi)
    ensures Inv(s') && forall k: nat :: Truth(s', k) == Truth(s, k)
  {
    hide Look, Good, Newest, Coherent, Flushed;
    forall k: nat ensures KeyOK(s', k) {
      assert KeyOK(s, k);
      forall r | r in s'.readers ensures ReaderOK(s', s'.readers[r], k) {
        if r != id { assert ReaderOK(s, s.readers[r], k); }
      }
    }
  }

  lemma AbortKeeps(s: State, s': State, id: nat)
    requires Inv(s) && AbortStep(s, s', id)
    ensures Inv(s') && forall k: nat :: Truth(s', k) == Truth(s, k)
  {
    hide Look, Good, Newest, Coherent, Flushed;
    forall k: nat ensures KeyOK(s', k) {
      assert KeyOK(s, k);
      forall r | r in s'.readers ensures ReaderOK(s', s'.readers[r], k) { assert ReaderOK(s, s.readers[r], k); }
    }
  }

  /** A cell that was filled from what a reader saw is what is stored now. */
  lemma FinishHere(s: State, s': State, id: nat, k: nat)
    requires RangesOK(s) && KeyOK(s, k) && FinishStep(s, s', id)
    ensures KeyOK(s', k) && Truth(s', k) == Truth(s, k)
  {
    hide Look, Good, Newest;
    var r, c := s.readers[id], CellAt(s, k);
    assert ReaderOK(s, r, k);
    assert CellAt(s', k) == FillCell(c, r.snap.value.trees, r.snap.value.lo, r.snap.value.hi, k);
    ReadIsCoherent(StoredAt(s, k));
    ShownIsOverlay(Undeleted(CellOf(StoredAt(s, k))), StoredAt(s, k));
    forall i | i in s'.readers ensures ReaderOK(s', s'.readers[i], k) { assert ReaderOK(s, s.readers[i], k); }
  }

  lemma FinishKeeps(s: State, s': State, id: nat)
    requires Inv(s) && FinishStep(s, s', id)
    ensures Inv(s') && forall k: nat :: Truth(s', k) == Truth(s, k)
  {
    hide Look, KeyOK, Truth, Good;
    forall k: nat ensures KeyOK(s', k) && Truth(s', k) == Truth(s, k) {
      assert KeyOK(s, k);
      FinishHere(s, s', id, k);
    }
  }

  // ---- forgetting

  lemma ReaderReads(s: State, id: nat, k: nat)
    requires id in s.readers && s.readers[id].start <= k <= s.readers[id].end
    ensures BeingRead(Ranges(s.readers), k)
  {
    assert Range(s.readers[id].start, s.readers[id].end) in Ranges(s.readers);
  }

  /** A clean key that nobody reads can be forgotten. */
  lemma ForgetHere(s: State, s': State, k: nat)
    requires KeyOK(s, k) && CellAt(s', k) == Uncached && !IsDirty(CellAt(s, k)) && !BeingRead(Ranges(s.readers), k)
    requires s' == s.(pages := s'.pages)
    ensures KeyOK(s', k) && Truth(s', k) == Truth(s, k)
  {
    hide Look, Good, Newest, BeingRead, Ranges;
    forall id | id in s'.readers ensures ReaderOK(s', s'.readers[id], k) {
      if s.readers[id].start <= k <= s.readers[id].end { ReaderReads(s, id, k); }
    }
  }

  lemma SplitKeeps(s: State, s': State)
    requires Inv(s) && SplitStep(s, s')
    ensures Inv(s') && forall k: nat :: Truth(s', k) == Truth(s, k)
  {
    hide Look, KeyOK, Truth, Good;
    forall k: nat ensures KeyOK(s', k) && Truth(s', k) == Truth(s, k) {
      assert KeyOK(s, k);
      SameKey(s, s', k);
    }
  }

  lemma ShrinkKeeps(s: State, s': State)
    requires Inv(s) && ShrinkStep(s, s')
    ensures Inv(s') && forall k: nat :: Truth(s', k) == Truth(s, k)
  {
    hide Look, KeyOK, Truth, Good, BeingRead, Ranges;
    forall k: nat ensures KeyOK(s', k) && Truth(s', k) == Truth(s, k) {
      assert KeyOK(s, k);
      if CellAt(s', k) == CellAt(s, k) { SameKey(s, s', k); } else { ForgetHere(s, s', k); }
    }
  }

  lemma InvalidateKeeps(s: State, s': State, start: nat, end: nat)
    requires Inv(s) && InvalidateStep(s, s', start, end)
    ensures Inv(s') && forall k: nat :: Truth(s', k) == Truth(s, k)
  {
    hide Look, KeyOK, Truth, Good, BeingRead, Ranges;
    forall k: nat ensures KeyOK(s', k) && Truth(s', k) == Truth(s, k) {
      assert KeyOK(s, k);
      if start <= k <= end { ForgetHere(s, s', k); } else { SameKey(s, s', k); }
    }
  }

  // ---- commits

  lemma WriteDirtyKeeps(s: State, s': State)
    requires Inv(s) && WriteDirtyStep(s, s')
    ensures Inv(s') && forall k: nat :: Truth(s', k) == Truth(s, k)
  {
    hide Look, Good, Newest, Coherent, Flushed;
    forall k: nat ensures KeyOK(s', k) {
      assert KeyOK(s, k);
      forall id | id in s'.readers ensures ReaderOK(s', s'.readers[id], k) { assert ReaderOK(s, s.readers[id], k); }
    }
  }

  lemma CommitHere(s: State, s': State, k: nat)
    requires KeyOK(s, k) && CommitStep(s, s')
    ensures KeyOK(s', k) && Truth(s', k) == Truth(s, k)
  {
    hide Look, Good, Newest;
    NewestCommitted(s, k);
    CommitKeepsOverlay(CellAt(s, k), StoredAt(s, k));
    forall id | id in s'.readers ensures ReaderOK(s', s'.readers[id], k) { assert ReaderOK(s, s.readers[id], k); }
  }

  lemma CommitKeeps(s: State, s': State)
    requires Inv(s) && CommitStep(s, s')
    ensures Inv(s') && forall k: nat :: Truth(s', k) == Truth(s, k)
  {
    hide Look, KeyOK, Truth, Good;
    forall k: nat ensures KeyOK(s', k) && Truth(s', k) == Truth(s, k) {
      assert KeyOK(s, k);
      CommitHere(s, s', k);
    }
  }

  lemma WriteDoneHere(s: State, s': State, k: nat)
    requires KeyOK(s, k) && WriteDoneStep(s, s')
    ensures KeyOK(s', k) && Truth(s', k) == Truth(s, k)
  {
    hide Look, Good, Newest;
    CommitKeepsOverlay(CellAt(s, k), StoredAt(s, k));
    assert CellAt(s', k) == Done(CellAt(s, k));
    forall id | id in s'.readers ensures ReaderOK(s', s'.readers[id], k) { assert ReaderOK(s, s.readers[id], k); }
  }

  lemma WriteDoneKeeps(s: State, s': State)
    requires Inv(s) && WriteDoneStep(s, s')
    ensures Inv(s') && forall k: nat :: Truth(s', k) == Truth(s, k)
  {
    hide Look, KeyOK, Truth, Good;
    forall k: nat ensures KeyOK(s', k) && Truth(s', k) == Truth(s, k) {
      assert KeyOK(s, k);
      WriteDoneHere(s, s', k);
    }
  }

  // ---- other mounts

  /** This mount has the key cached or is reading it, which it only does under a lock. */
  ghost predicate Holds(s: State, k: nat) {
    CellAt(s, k) != Uncached || BeingRead(Ranges(s.readers), k)
  }

  lemma RemoteHere(s: State, s': State, k: nat)
    requires KeyOK(s, k) && s.mine < |s.trees| && RemoteStep(s, s')
    ensures KeyOK(s', k)
    ensures Holds(s, k) ==> Truth(s', k) == Truth(s, k) && StoredAt(s', k) == StoredAt(s, k)
  {
    hide Look, Good, Newest, BeingRead, Ranges;
    if CellAt(s, k) != Uncached || BeingRead(Ranges(s.readers), k) {
      NewestSame(s'.trees, s.trees, k);
    }
    forall id | id in s'.readers ensures ReaderOK(s', s'.readers[id], k) {
      assert ReaderOK(s, s.readers[id], k);
      if s.readers[id].start <= k <= s.readers[id].end { ReaderReads(s, id, k); }
    }
    assert DirtyIsNewer(s', k) by {
      forall i | IsDirty(CellAt(s', k)) && 0 <= i < |s'.trees| && i != s'.mine && k in s'.trees[i]
        ensures s'.trees[i][k].vers < CellAt(s', k).item.vers
      {
        assert At(s'.trees[i], k) == At(s.trees[i], k);
      }
    }
  }

  lemma RemoteKeeps(s: State, s': State)
    requires Inv(s) && RemoteStep(s, s')
    ensures Inv(s') && forall k: nat :: Holds(s, k) ==> Truth(s', k) == Truth(s, k)
  {
    hide Look, KeyOK, Truth, Good, BeingRead, Ranges, Holds;
    forall k: nat ensures KeyOK(s', k) && (Holds(s, k) ==> Truth(s', k) == Truth(s, k)) {
      assert KeyOK(s, k);
      RemoteHere(s, s', k);
    }
  }

  // ---- whole runs

  lemma InternalKeeps(s: State, s': State)
    requires Inv(s) && InternalStep(s, s')
    ensures Inv(s') && forall k: nat :: Truth(s', k) == Truth(s, k)
  {
    hide Inv, Truth, RegisterStep, SnapshotStep, FinishStep, AbortStep, SplitStep, ShrinkStep, InvalidateStep, WriteDirtyStep, CommitStep, WriteDoneStep;
    if id, start, end :| RegisterStep(s, s', id, start, end) {
      RegisterKeeps(s, s', id, start, end);
    } else if id, lo, hi :| SnapshotStep(s, s', id, lo, hi) {
      SnapshotKeeps(s, s', id, lo, hi);
    } else if id :| FinishStep(s, s', id) {
      FinishKeeps(s, s', id);
    } else if id :| AbortStep(s, s', id) {
      AbortKeeps(s, s', id);
    } else if SplitStep(s, s') {
      SplitKeeps(s, s');
    } else if ShrinkStep(s, s') {
      ShrinkKeeps(s, s');
    } else if start, end :| InvalidateStep(s, s', start, end) {
      InvalidateKeeps(s, s', start, end);
    } else if WriteDirtyStep(s, s') {
      WriteDirtyKeeps(s, s');
    } else if CommitStep(s, s') {
      CommitKeeps(s, s');
    } else {
      WriteDoneKeeps(s, s');
    }
  }

  /** What a step does to the value of a key, unless it is the step of another mount. */
  function After(t: Option<Bytes>, l: Label, k: nat): Option<Bytes> {
    if l.Operate? && l.key == k then Expected(t, l.op) else t
  }

  lemma StepKeeps(s: State, s': State, l: Label)
    requires Inv(s) && Step(s, s', l)
    ensures Inv(s')
    ensures forall k: nat :: !l.Remote? || Holds(s, k) ==> Truth(s', k) == After(Truth(s, k), l, k)
  {
    hide Inv, Truth, InternalStep, RemoteStep, OperateStep, Expected, Holds;
    match l
    case Operate(key, vers, op) => OperateKeeps(s, s', key, vers, op);
    case Remote => RemoteKeeps(s, s');
    case Internal => InternalKeeps(s, s');
  }

  lemma InitHolds(s: State)
    requires Init(s)
    ensures Inv(s)
  {
  }

  /** A run: states that follow from each other by labelled steps. */
  ghost predicate Run(states: seq<State>, labels: seq<Label>) {
    |states| == |labels| + 1 && forall i :: 0 <= i < |labels| ==> Step(states[i], states[i + 1], labels[i])
  }

  lemma {:induction false} RunKeeps(states: seq<State>, labels: seq<Label>, n: nat)
    requires Run(states, labels) && Inv(states[0]) && n < |states|
    ensures Inv(states[n])
  {
    hide Inv, Step;
    if n > 0 {
      RunKeeps(states, labels, n - 1);
      StepKeeps(states[n - 1], states[n], labels[n - 1]);
    }
  }

  /** In every reachable state a clean cell says what the forest stores, and what is cached is never behind it. */
  lemma NeverStale(states: seq<State>, labels: seq<Label>, n: nat, k: nat)
    requires Run(states, labels) && Init(states[0]) && n < |states|
    ensures var c, l := CellAt(states[n], k), StoredAt(states[n], k);
            && (c == Absent ==> Value(l).None?)
            && (c.Present? && !c.item.dirty ==> l == Some(Logged(c.item)) && !c.item.deletion)
            && (c.Present? && l.Some? ==> l.value.vers <= c.item.vers)
  {
    hide Look, Newest, Step;
    InitHolds(states[0]);
    RunKeeps(states, labels, n);
    assert KeyOK(states[n], k);
  }

  /** In every reachable state a lookup finds the forest overlaid with the dirty items. */
  lemma LookupsAgree(states: seq<State>, labels: seq<Label>, n: nat, k: nat)
    requires Run(states, labels) && Init(states[0]) && n < |states|
    ensures Shown(CellAt(states[n], k), StoredAt(states[n], k)) == Truth(states[n], k)
  {
    hide Look, Newest, Step;
    InitHolds(states[0]);
    RunKeeps(states, labels, n);
    assert KeyOK(states[n], k);
    ShownIsOverlay(CellAt(states[n], k), StoredAt(states[n], k));
  }

  /** The value of a key after operations, one after the other. */
  function AfterAll(t: Option<Bytes>, labels: seq<Label>, k: nat): Option<Bytes> {
    if labels == [] then t else After(AfterAll(t, labels[..|labels| - 1], k), labels[|labels| - 1], k)
  }

  /**
    However reads, commits and reclaim interleave, and whatever other mounts do
    while this one holds a key, the value of the key changes by the operations alone.
  */
  lemma {:induction false} RunsAreOperations(states: seq<State>, labels: seq<Label>, n: nat, k: nat)
    requires Run(states, labels) && Inv(states[0]) && n < |states|
    requires forall i :: 0 <= i < n && labels[i].Remote? ==> Holds(states[i], k)
    ensures Truth(states[n], k) == AfterAll(Truth(states[0], k), labels[..n], k)
  {
    hide Inv, Step, Truth, After, Holds;
    if n == 0 {
      assert labels[..0] == [];
    } else {
      RunsAreOperations(states, labels, n - 1, k);
      RunKeeps(states, labels, n - 1);
      StepKeeps(states[n - 1], states[n], labels[n - 1]);
      assert labels[..n][..n - 1] == labels[..n - 1];
    }
  }

  /** No step puts an older version in the place of a newer one while this mount holds the key. */
  lemma VersionsGrow(s: State, s': State, l: Label, k: nat)
    requires Inv(s) && Step(s, s', l) && (!l.Remote? || Holds(s, k)) && StoredAt(s, k).Some?
    ensures StoredAt(s', k).Some? && StoredAt(s, k).value.vers <= StoredAt(s', k).value.vers
  {
    hide Look, Newest, Good, Holds;
    assert KeyOK(s, k);
    if l.Remote? { RemoteHere(s, s', k); }
    if CommitStep(s, s') {
      NewestCommitted(s, k);
    }
  }

  // ---- why shrinking spares the ranges of readers

  function OldTree(): Tree { map[5 := LogItem(1, false, [1])] }

  function NewTree(): Tree { map[5 := LogItem(2, false, [2])] }

  /** A reader holds the old item while the new one is committed and cached. */
  function SlowReader(): State {
    State({Page(5, 5, map[5 := Item([2], 2, false, true, false)])}, [NewTree()], 0,
          map[0 := Reader(5, 5, Some(Snapshot([OldTree()], 5, 5)))], Open)
  }

  lemma SlowReaderIsFine()
    ensures Inv(SlowReader())
  {
    var s := SlowReader();
    forall k: nat ensures KeyOK(s, k) {
      LookOne(Page(5, 5, map[5 := Item([2], 2, false, true, false)]), k);
      assert Newest([], 5) == None;
      assert [NewTree()][..0] == [];
    }
  }

  /** Shrinking a page in the range of a reader would let the reader cache what is no longer stored. */
  lemma ShrinkingReadersIsStale(s': State, s'': State)
    requires s' == SlowReader().(pages := {}) && FinishStep(s', s'', 0)
    ensures Shrinks(SlowReader().pages, s'.pages, {}) && !Inv(s'')
    ensures Truth(s'', 5) == Some([2]) && Shown(CellAt(s'', 5), StoredAt(s'', 5)) == Some([1])
  {
    var s := SlowReader();
    forall k: nat ensures Look(s'.pages, k) == Look(s.pages, k) || (Look(s'.pages, k) == Uncached && !IsDirty(Look(s.pages, k)) && !BeingRead({}, k)) {
      LookOne(Page(5, 5, map[5 := Item([2], 2, false, true, false)]), k);
    }
    assert [NewTree()][..0] == [] && [OldTree()][..0] == [];
    assert Newest([], 5) == None;
    assert CellAt(s'', 5) == FillCell(Uncached, [OldTree()], 5, 5, 5);
    assert !KeyOK(s'', 5);
  }
}
