/**
  Locks and items together: mounts stamp what they write with the version that
  their lock was granted with, and commit it to their own log trees later, while
  the lock protocol goes on.  Whatever the interleaving, no two mounts store the
  same version, and what a writer stamps is newer than all that is stored.
*/
module StampedItems {
  import opened Wrappers
  import opened LockModes
  import opened LockServer
  import opened LockProtocol
  import opened LockTheorems
  import opened LockResults
  import opened LockProgress
  import opened LogItems
  import opened ItemCells
  import opened WriteVersions
  import P = ItemProtocol

  /** The lock, the items that each mount has stamped and not committed, and its log tree. */
  datatype World = World(locks: Sys, dirty: map<nat, Tree>, logs: map<nat, Tree>)

  datatype Act =
    | Protocol(step: Step)
    | Stamp(rid: nat, key: nat, item: LogItem)
    | Commit(rid: nat, key: nat)

  function TreeOf(trees: map<nat, Tree>, rid: nat): Tree {
    if rid in trees then trees[rid] else map[]
  }

  /** The version of the last write grant to a mount. */
  ghost predicate HasVersion(log: seq<Out>, rid: nat, vers: nat) {
    exists n :: 0 <= n < |log| && IsWriteGrant(log[n]) && log[n].rid == rid && log[n].version.value == vers
             && forall j :: n < j < |log| && IsWriteGrant(log[j]) ==> log[j].rid != rid
  }

  ghost predicate CanAct(w: World, a: Act) {
    match a
    case Protocol(step) => Enabled(w.locks, step)
    case Stamp(rid, _, item) =>
      && rid in w.locks.mounts && (w.locks.mounts[rid].users[Write] > 0 || w.locks.mounts[rid].users[WriteOnly] > 0)
      && HasVersion(w.locks.log, rid, item.vers)
    case Commit(rid, key) => key in TreeOf(w.dirty, rid)
  }

  ghost function Acted(w: World, a: Act): World
    requires CanAct(w, a)
  {
    match a
    case Protocol(step) => w.(locks := Apply(w.locks, step))
    case Stamp(rid, key, item) => w.(dirty := w.dirty[rid := TreeOf(w.dirty, rid)[key := item]])
    case Commit(rid, key) =>
      w.(logs := w.logs[rid := TreeOf(w.logs, rid)[key := w.dirty[rid][key]]], dirty := w.dirty[rid := w.dirty[rid] - {key}])
  }

  ghost predicate ActsFrom(w: World, acts: seq<Act>)
    decreases |acts|
  {
    acts == [] || (CanAct(w, acts[0]) && ActsFrom(Acted(w, acts[0]), acts[1..]))
  }

  ghost function After(w: World, acts: seq<Act>): World
    requires ActsFrom(w, acts)
    decreases |acts|
  {
    if acts == [] then w else After(Acted(w, acts[0]), acts[1..])
  }

  /** What a cluster gets to from a server start with nothing stamped by it yet. */
  ghost predicate Possible(w: World) {
    exists s, acts :: Init(s) && ActsFrom(World(s, map[], map[]), acts) && After(World(s, map[], map[]), acts) == w
  }

  // ---- everything that is stored was granted

  ghost predicate AllGranted(log: seq<Out>, trees: map<nat, Tree>) {
    forall rid, k :: rid in trees && k in trees[rid] ==> Granted(log, rid, trees[rid][k].vers)
  }

  ghost predicate Stored(w: World) {
    AllGranted(w.locks.log, w.dirty) && AllGranted(w.locks.log, w.logs)
  }

  lemma GrantedLater(log: seq<Out>, log': seq<Out>, rid: nat, vers: nat)
    requires log <= log' && Granted(log, rid, vers)
    ensures Granted(log', rid, vers)
  {
    var i :| 0 <= i < |log| && IsWriteGrant(log[i]) && log[i].rid == rid && log[i].version.value == vers;
    assert log'[i] == log[i];
  }

  lemma LogGrows(s: Sys, t: Step)
    requires Enabled(s, t)
    ensures s.log <= Apply(s, t).log
  {
    hide Process, Find, Deliver;
  }

  lemma ActStores(w: World, a: Act)
    requires Stored(w) && CanAct(w, a)
    ensures Stored(Acted(w, a))
  {
    hide Granted, Apply, Enabled;
    match a
    case Protocol(step) =>
      LogGrows(w.locks, step);
      var log, log' := w.locks.log, Apply(w.locks, step).log;
      forall rid, k | rid in w.dirty && k in w.dirty[rid] ensures Granted(log', rid, w.dirty[rid][k].vers) {
        GrantedLater(log, log', rid, w.dirty[rid][k].vers);
      }
      forall rid, k | rid in w.logs && k in w.logs[rid] ensures Granted(log', rid, w.logs[rid][k].vers) {
        GrantedLater(log, log', rid, w.logs[rid][k].vers);
      }
    case Stamp(rid, key, item) => VersionGranted(w.locks.log, rid, item.vers);
    case Commit(rid, key) =>
  }

  lemma VersionGranted(log: seq<Out>, rid: nat, vers: nat)
    requires HasVersion(log, rid, vers)
    ensures Granted(log, rid, vers)
  {
  }

  lemma {:induction false} ActsStore(w: World, acts: seq<Act>, s: Sys, steps: seq<Step>)
    requires Stored(w) && ActsFrom(w, acts) && Init(s) && ValidRun(s, steps) && Run(s, steps) == w.locks
    ensures Stored(After(w, acts)) && Reachable(After(w, acts).locks)
    decreases |acts|
  {
    hide Stored, Init, CanAct, Acted, ValidRun, Run;
    if acts != [] {
      ActStores(w, acts[0]);
      var steps' := ActRuns(w, acts[0], s, steps);
      ActsStore(Acted(w, acts[0]), acts[1..], s, steps');
    }
  }

  lemma ActRuns(w: World, a: Act, s: Sys, steps: seq<Step>) returns (steps': seq<Step>)
    requires CanAct(w, a) && ValidRun(s, steps) && Run(s, steps) == w.locks
    ensures ValidRun(s, steps') && Run(s, steps') == Acted(w, a).locks
  {
    hide ValidRun, Run, Apply, Enabled;
    steps' := steps;
    if a.Protocol? {
      OneStep(w.locks, a.step);
      RunConcat(s, steps, [a.step]);
      steps' := steps + [a.step];
    }
  }

  lemma OneStep(s: Sys, t: Step)
    requires Enabled(s, t)
    ensures ValidRun(s, [t]) && Run(s, [t]) == Apply(s, t)
  {
    hide Enabled, Apply;
    assert [t][1..] == [];
    assert Run(Apply(s, t), []) == Apply(s, t);
  }

  lemma PossibleIs(w: World)
    requires Possible(w)
    ensures Stored(w) && Reachable(w.locks)
  {
    hide Init, ActsFrom, After, Reachable, Granted;
    var s, acts :| Init(s) && ActsFrom(World(s, map[], map[]), acts) && After(World(s, map[], map[]), acts) == w;
    NoSteps(s);
    ActsStore(World(s, map[], map[]), acts, s, []);
  }

  lemma NoSteps(s: Sys)
    ensures ValidRun(s, []) && Run(s, []) == s
  {
  }

  // ---- versions

  /** In every world two mounts never store the same version, of any key. */
  lemma VersionsDiffer(w: World, a: nat, b: nat, j: nat, k: nat)
    requires Possible(w) && a != b && a in w.logs && b in w.logs && j in w.logs[a] && k in w.logs[b]
    ensures w.logs[a][j].vers != w.logs[b][k].vers
  {
    hide Possible, Reachable, InOrder;
    PossibleIs(w);
    GrantsInOrder(w.locks);
    var log := w.locks.log;
    assert Granted(log, a, w.logs[a][j].vers) && Granted(log, b, w.logs[b][k].vers);
    var m :| 0 <= m < |log| && IsWriteGrant(log[m]) && log[m].rid == a && log[m].version.value == w.logs[a][j].vers;
    var n :| 0 <= n < |log| && IsWriteGrant(log[n]) && log[n].rid == b && log[n].version.value == w.logs[b][k].vers;
    if m < n { Rises(log, m, n); } else { Rises(log, n, m); }
  }

  /** The trees of a forest: the filesystem's, whose items have version zero, and mounts' log trees. */
  ghost predicate IsForest(w: World, trees: seq<Tree>, owners: seq<Option<nat>>) {
    && |owners| == |trees|
    && (forall i, j :: 0 <= i < j < |owners| ==> owners[i] != owners[j])
    && forall i :: 0 <= i < |trees| ==>
         if owners[i].Some? then trees[i] == TreeOf(w.logs, owners[i].value)
         else forall k :: k in trees[i] ==> trees[i][k].vers == 0
  }

  ghost predicate AllPositive(log: seq<Out>) {
    forall i :: 0 <= i < |log| && IsWriteGrant(log[i]) ==> log[i].version.value > 0
  }

  lemma {:induction false} ProcessPositive(n: Node, recovering: bool, version: nat)
    ensures AllPositive(Process(n, recovering, version).sent)
    decreases |n.requested|
  {
    hide Keep, Invalidations;
    if !(recovering || n.invalidated != [] || n.requested == []) {
      if Keep(n.granted, n.requested[0], false) != [] {
        NoGrantsSent(Keep(n.granted, n.requested[0], false), n.requested[0].mode);
      } else {
        var one := GrantFirst(n, version);
        ProcessPositive(one.node, recovering, one.version);
      }
    }
  }

  lemma StepPositive(s: Sys, t: Step)
    requires Enabled(s, t) && AllPositive(s.log)
    ensures AllPositive(Apply(s, t).log)
  {
    hide Process, Find, Deliver;
    var n, rec := s.node, s.recovering != {};
    match t
    case ServeRequestStep(c, mode) => ProcessPositive(Enqueue(n, c, mode), rec, s.version);
    case ServeResponseStep(c, a, b) =>
      if Find(n.invalidated, c).Some? { ProcessPositive(Finish(n, Find(n.invalidated, c).value, b), rec, s.version); }
    case RecoverStep(c) => ProcessPositive(RecoverNode(n, c, s.mounts[c]), s.recovering - {c} != {}, s.version);
    case FarewellStep(c) => ProcessPositive(Forget(n, c), rec, s.version);
    case _ =>
  }

  lemma {:induction false} RunPositive(s: Sys, steps: seq<Step>)
    requires ValidRun(s, steps) && AllPositive(s.log)
    ensures AllPositive(Run(s, steps).log)
    decreases |steps|
  {
    hide AllPositive, Apply, Enabled;
    if steps != [] {
      StepPositive(s, steps[0]);
      RunPositive(Apply(s, steps[0]), steps[1..]);
    }
  }

  lemma GrantsArePositive(t: Sys)
    requires Reachable(t)
    ensures AllPositive(t.log)
  {
    hide ValidRun, Run;
    var s, steps :| Init(s) && ValidRun(s, steps) && Run(s, steps) == t;
    RunPositive(s, steps);
  }

  lemma VersionsStart(w: World, rid: nat, k: nat)
    requires Possible(w) && rid in w.logs && k in w.logs[rid]
    ensures w.logs[rid][k].vers > 0
  {
    hide Possible, Reachable;
    PossibleIs(w);
    assert Granted(w.locks.log, rid, w.logs[rid][k].vers);
    GrantsArePositive(w.locks);
  }

  /** Whatever order the trees of a forest are read in, the same item is the newest. */
  lemma MergeIsOrderFree(w: World, trees: seq<Tree>, owners: seq<Option<nat>>, trees': seq<Tree>, k: nat)
    requires Possible(w) && IsForest(w, trees, owners)
    requires (forall t :: t in trees ==> t in trees') && forall t :: t in trees' ==> t in trees
    ensures Newest(trees, k) == Newest(trees', k)
  {
    hide Possible, Newest;
    forall t: Tree, u: Tree | t in trees && u in trees && k in t && k in u && t[k].vers == u[k].vers ensures t[k] == u[k] {
      var i, j :| 0 <= i < |trees| && 0 <= j < |trees| && trees[i] == t && trees[j] == u;
      if i != j { ForestDiffers(w, trees, owners, i, j, k); }
    }
    AnyOrder(trees, trees', k);
  }

  lemma ForestDiffers(w: World, trees: seq<Tree>, owners: seq<Option<nat>>, i: nat, j: nat, k: nat)
    requires Possible(w) && IsForest(w, trees, owners) && i < |trees| && j < |trees| && i != j && k in trees[i] && k in trees[j]
    ensures trees[i][k].vers != trees[j][k].vers
  {
    hide Possible;
    assert owners[i] != owners[j];
    if owners[i].Some? { VersionsStart(w, owners[i].value, k); }
    if owners[j].Some? { VersionsStart(w, owners[j].value, k); }
    if owners[i].Some? && owners[j].Some? { VersionsDiffer(w, owners[i].value, owners[j].value, k, k); }
  }

  // ---- writers

  lemma WriterIsLast(w: World, rid: nat, vers: nat)
    requires Possible(w) && rid in w.locks.mounts && w.locks.mounts[rid].users[Write] > 0
    requires HasVersion(w.locks.log, rid, vers)
    ensures LastGrant(w.locks.log, rid, vers)
  {
    hide Possible, Reachable, Find;
    PossibleIs(w);
    UsersWithin(w.locks, rid, Write);
    WhyRequestsWait(w.locks);
    var log := w.locks.log;
    var n :| 0 <= n < |log| && IsWriteGrant(log[n]) && log[n].rid == rid && log[n].version.value == vers
             && forall j :: n < j < |log| && IsWriteGrant(log[j]) ==> log[j].rid != rid;
    WriterHasLastGrant(w.locks, rid, n);
  }

  /** What a writer stamps is newer than what every other mount stores or has stamped, and no older than its own. */
  lemma WriterIsNewest(w: World, rid: nat, vers: nat, other: nat, k: nat)
    requires Possible(w) && rid in w.locks.mounts && w.locks.mounts[rid].users[Write] > 0
    requires HasVersion(w.locks.log, rid, vers)
    ensures other in w.logs && k in w.logs[other] ==> w.logs[other][k].vers <= vers && (other != rid ==> w.logs[other][k].vers < vers)
    ensures other in w.dirty && k in w.dirty[other] ==> w.dirty[other][k].vers <= vers && (other != rid ==> w.dirty[other][k].vers < vers)
  {
    hide Possible, Reachable, Granted, LastGrant, HasVersion;
    PossibleIs(w);
    WriterIsLast(w, rid, vers);
    if other in w.logs && k in w.logs[other] { LastIsHighest(w.locks, rid, vers, other, w.logs[other][k].vers); }
    if other in w.dirty && k in w.dirty[other] { LastIsHighest(w.locks, rid, vers, other, w.dirty[other][k].vers); }
  }

  /** A writer's operations on its cache have the version that the item cache's own protocol asks for. */
  lemma WriterMayStamp(w: World, s: P.State, owners: seq<Option<nat>>, rid: nat, vers: nat, k: nat)
    requires Possible(w) && rid in w.locks.mounts && w.locks.mounts[rid].users[Write] > 0
    requires HasVersion(w.locks.log, rid, vers) && IsForest(w, s.trees, owners)
    requires forall i :: 0 <= i < |owners| ==> (owners[i] == Some(rid) <==> i == s.mine)
    requires P.CellAt(s, k).Present? && P.CellAt(s, k).item.dirty ==>
               k in TreeOf(w.dirty, rid) && w.dirty[rid][k].vers == P.CellAt(s, k).item.vers
    requires Coherent(P.CellAt(s, k), P.StoredAt(s, k))
    ensures P.IsNewer(s, k, vers)
  {
    hide Possible, Reachable, Granted, LastGrant, P.CellAt, P.IsNewer, Coherent, P.StoredAt;
    PossibleIs(w);
    WriterIsLast(w, rid, vers);
    LastIsPositive(w.locks, rid, vers);
    LastGrantIsNewer(w.locks, s, owners, rid, vers, k);
  }

  lemma LastIsPositive(t: Sys, rid: nat, vers: nat)
    requires Reachable(t) && LastGrant(t.log, rid, vers)
    ensures vers > 0
  {
    hide Reachable;
    GrantsArePositive(t);
  }
}
