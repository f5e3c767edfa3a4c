/**
  Where the versions of items come from: a mount stamps what it writes with the
  write version that its lock was granted with, and those only rise.
*/
module WriteVersions {
  import opened Wrappers
  import opened LockModes
  import opened LockServer
  import opened LockProtocol
  import opened LockTheorems
  import opened LockResults
  import opened LogItems
  import opened ItemCells
  import P = ItemProtocol

  predicate IsWriteGrant(o: Out) {
    o.GrantTo? && o.version.Some?
  }

  /** A version that was granted to a mount. */
  ghost predicate Granted(log: seq<Out>, rid: nat, vers: nat) {
    exists i :: 0 <= i < |log| && IsWriteGrant(log[i]) && log[i].rid == rid && log[i].version.value == vers
  }

  /** What a tree stores under a key was stamped by the mount whose tree it is; the tree without an owner has version zero. */
  ghost predicate Stamped(log: seq<Out>, owner: Option<nat>, tree: Tree, k: nat) {
    k in tree ==> if owner.Some? then Granted(log, owner.value, tree[k].vers) else tree[k].vers == 0
  }

  /** The last of all write grants went to a mount, with a version. */
  ghost predicate LastGrant(log: seq<Out>, rid: nat, vers: nat) {
    exists n :: 0 <= n < |log| && IsWriteGrant(log[n]) && log[n].rid == rid && log[n].version.value == vers
             && forall j :: n < j < |log| ==> !IsWriteGrant(log[j])
  }

  // ---- the mount that may write has the last grant

  /** The write grants to other mounts were all followed by one to this mount. */
  ghost predicate LastTo(log: seq<Out>, rid: nat) {
    forall i :: 0 <= i < |log| && IsWriteGrant(log[i]) && log[i].rid != rid ==> LaterTo(log, i, rid)
  }

  ghost predicate LaterTo(log: seq<Out>, i: nat, rid: nat) {
    exists j :: i < j < |log| && IsWriteGrant(log[j]) && log[j].rid == rid
  }

  ghost predicate ListLast(list: seq<Entry>, log: seq<Out>) {
    forall e :: e in list && e.mode == Write ==> LastTo(log, e.rid)
  }

  /** Who has or is giving up the lock to write was the last to be granted it to write. */
  ghost predicate WritersLast(n: Node, log: seq<Out>) {
    ListLast(n.granted, log) && ListLast(n.invalidated, log)
  }

  lemma LastToMore(log: seq<Out>, sent: seq<Out>, rid: nat)
    requires LastTo(log, rid) && forall i :: 0 <= i < |sent| ==> !IsWriteGrant(sent[i])
    ensures LastTo(log + sent, rid)
  {
    var all := log + sent;
    forall i | 0 <= i < |all| && IsWriteGrant(all[i]) && all[i].rid != rid ensures LaterTo(all, i, rid) {
      assert i < |log| && all[i] == log[i];
      assert LaterTo(log, i, rid);
      var j :| i < j < |log| && IsWriteGrant(log[j]) && log[j].rid == rid;
      assert all[j] == log[j];
    }
  }

  lemma ListLastMore(list: seq<Entry>, log: seq<Out>, sent: seq<Out>)
    requires ListLast(list, log) && forall i :: 0 <= i < |sent| ==> !IsWriteGrant(sent[i])
    ensures ListLast(list, log + sent)
  {
    hide LastTo;
    forall e | e in list && e.mode == Write ensures LastTo(log + sent, e.rid) { LastToMore(log, sent, e.rid); }
  }

  lemma {:induction false} KeepIn(list: seq<Entry>, req: Entry, c: bool)
    ensures forall e :: e in Keep(list, req, c) ==> e in list && Compatible(e, req) == c
    ensures forall e :: e in list && Compatible(e, req) == c ==> e in Keep(list, req, c)
  {
    if list != [] {
      KeepIn(list[..|list| - 1], req, c);
      assert list == list[..|list| - 1] + [list[|list| - 1]];
    }
  }

  lemma {:induction false} DropIn(list: seq<Entry>, rid: nat)
    ensures forall e :: e in Drop(list, rid) ==> e in list
  {
    if list != [] { DropIn(list[1..], rid); }
  }

  lemma {:induction false} PurgeIn(list: seq<Entry>, rid: nat)
    ensures forall e :: e in Purge(list, rid) ==> e in list
  {
    if list != [] { PurgeIn(list[..|list| - 1], rid); }
  }

  lemma {:induction false} NoGrantsSent(list: seq<Entry>, mode: Mode)
    ensures forall i :: 0 <= i < |Invalidations(list, mode)| ==> !IsWriteGrant(Invalidations(list, mode)[i])
  {
    if list != [] { NoGrantsSent(list[..|list| - 1], mode); }
  }

  /** Granting a request: nobody else can write if the request is to write. */
  lemma GrantLast(n: Node, version: nat, log: seq<Out>)
    requires n.requested != [] && n.invalidated == [] && Keep(n.granted, n.requested[0], false) == [] && WritersLast(n, log)
    ensures WritersLast(GrantFirst(n, version).node, log + GrantFirst(n, version).sent)
  {
    hide Keep, Drop, LastTo;
    var req, r := n.requested[0], GrantFirst(n, version);
    KeepIn(n.granted, req, false);
    DropIn(n.granted, req.rid);
    if CanWrite(req.mode) {
      forall e | e in r.node.granted && e.mode == Write ensures LastTo(log + r.sent, e.rid) {
        assert e == req || e in n.granted;
        assert e in n.granted ==> Compatible(e, req);
        LastIsIt(log, r.sent[0]);
        assert r.sent == [r.sent[0]];
      }
    } else {
      ListLastMore(n.granted, log, r.sent);
      forall e | e in r.node.granted && e.mode == Write ensures LastTo(log + r.sent, e.rid) {
        assert e in n.granted;
      }
    }
  }

  lemma LastIsIt(log: seq<Out>, o: Out)
    requires IsWriteGrant(o)
    ensures LastTo(log + [o], o.rid)
  {
    var all := log + [o];
    forall i | 0 <= i < |all| && IsWriteGrant(all[i]) && all[i].rid != o.rid ensures LaterTo(all, i, o.rid) {
      assert all[|log|] == o;
    }
  }

  lemma {:induction false} ProcessLast(n: Node, recovering: bool, version: nat, log: seq<Out>)
    requires WritersLast(n, log)
    ensures WritersLast(Process(n, recovering, version).node, log + Process(n, recovering, version).sent)
    decreases |n.requested|
  {
    hide WritersLast, Keep;
    if recovering || n.invalidated != [] || n.requested == [] {
      assert log + [] == log;
    } else if Keep(n.granted, n.requested[0], false) != [] {
      InvalidateLast(n, version, log);
    } else {
      GrantLast(n, version, log);
      var one := GrantFirst(n, version);
      ProcessLast(one.node, recovering, one.version, log + one.sent);
      var rest := Process(one.node, recovering, one.version);
      assert log + (one.sent + rest.sent) == log + one.sent + rest.sent;
    }
  }

  lemma InvalidateLast(n: Node, version: nat, log: seq<Out>)
    requires n.requested != [] && WritersLast(n, log)
    ensures WritersLast(InvalidateFor(n, version).node, log + InvalidateFor(n, version).sent)
  {
    hide Keep, LastTo, Invalidations;
    var req := n.requested[0];
    var conflicts := Keep(n.granted, req, false);
    KeepIn(n.granted, req, false);
    KeepIn(n.granted, req, true);
    NoGrantsSent(conflicts, req.mode);
    var sent := Invalidations(conflicts, req.mode);
    ListLastMore(n.granted, log, sent);
    ListLastMore(n.invalidated, log, sent);
  }

  lemma ResponseLowers(n: Node, c: nat, m: Mount, a: Mode, b: Mode)
    requires MountOK(n, c, m) && Response(a, b) in m.up
    ensures b != Write
  {
    hide Find, Held, RequestOK, UsersMatch, GrantOK, Outstanding;
    var g, i, q, r :| MountOKWith(n, c, m, g, i, q, r);
    IsTheResponse(m, g, i, q, r, Response(a, b));
  }

  lemma IsTheResponse(m: Mount, g: Option<ToClient>, i: Option<ToClient>, q: Option<ToServer>, r: Option<ToServer>, x: ToServer)
    requires Outstanding(m, g, i, q, r) && x in m.up && x.Response?
    ensures r == Some(x)
  {
  }

  lemma StepLast(s: Sys, t: Step)
    requires Inv(s) && Enabled(s, t) && WritersLast(s.node, s.log)
    ensures WritersLast(Apply(s, t).node, Apply(s, t).log)
  {
    hide MountOK, RecoveringOK, NodeOK, Exclusive, Known, Process, Find, InOrder, LastTo, Purge, Drop;
    var n, rec := s.node, s.recovering != {};
    match t
    case ServeRequestStep(c, mode) => ProcessLast(Enqueue(n, c, mode), rec, s.version, s.log);
    case ServeResponseStep(c, a, b) =>
      assert AgreesAt(s, c);
      if Find(n.invalidated, c).Some? {
        ResponseIsLower(s, c, a, b);
        var e := Find(n.invalidated, c).value;
        DropIn(n.invalidated, e.rid);
        ProcessLast(Finish(n, e, b), rec, s.version, s.log);
      } else {
        assert s.log + [] == s.log;
      }
    case RecoverStep(c) =>
      assert s.log == [];
      NobodyYet(RecoverNode(n, c, s.mounts[c]));
      ProcessLast(RecoverNode(n, c, s.mounts[c]), s.recovering - {c} != {}, s.version, s.log);
    case FarewellStep(c) =>
      PurgeIn(n.granted, c);
      PurgeIn(n.invalidated, c);
      ProcessLast(Forget(n, c), rec, s.version, s.log);
      assert s.log + [] == s.log;
    case _ =>
  }

  lemma NobodyYet(n: Node)
    ensures WritersLast(n, [])
  {
  }

  lemma ResponseIsLower(s: Sys, c: nat, a: Mode, b: Mode)
    requires Inv(s) && Enabled(s, ServeResponseStep(c, a, b))
    ensures b != Write
  {
    hide MountOK, RecoveringOK, NodeOK, Exclusive, Known, InOrder;
    assert AgreesAt(s, c);
    if c in s.recovering {
      RecoveringIsIdle(s, c);
      assert false;
    } else {
      ResponseLowers(s.node, c, s.mounts[c], a, b);
    }
  }

  lemma {:induction false} RunLast(s: Sys, steps: seq<Step>)
    requires Inv(s) && ValidRun(s, steps) && WritersLast(s.node, s.log)
    ensures WritersLast(Run(s, steps).node, Run(s, steps).log)
    decreases |steps|
  {
    hide Inv, WritersLast, Apply, Enabled;
    if steps != [] {
      StepKeeps(s, steps[0]);
      StepLast(s, steps[0]);
      RunLast(Apply(s, steps[0]), steps[1..]);
    }
  }

  /** A mount that the server has on record to write was the last to be granted the lock to write. */
  lemma WriterWasLast(t: Sys, rid: nat)
    requires Reachable(t) && Held(t.node, rid) == Write
    ensures LastTo(t.log, rid)
  {
    hide Inv, Find;
    var s, steps :| Init(s) && ValidRun(s, steps) && Run(s, steps) == t;
    InitHolds(s);
    RunLast(s, steps);
    FindSome(t.node.granted, rid);
    FindSome(t.node.invalidated, rid);
  }

  /** The version that a mount was last granted, when it has the lock to write, is the last of all. */
  lemma WriterHasLastGrant(t: Sys, rid: nat, n: nat)
    requires Reachable(t) && Held(t.node, rid) == Write && n < |t.log| && IsWriteGrant(t.log[n])
    requires forall j :: n < j < |t.log| && IsWriteGrant(t.log[j]) ==> t.log[j].rid != rid
    ensures LastGrant(t.log, rid, t.log[n].version.value)
  {
    hide Reachable, Held;
    WriterWasLast(t, rid);
  }

  // ---- versions

  /** No version that was granted before is higher than the last, and only its mount has that one. */
  lemma LastIsHighest(t: Sys, rid: nat, vers: nat, other: nat, older: nat)
    requires Reachable(t) && LastGrant(t.log, rid, vers) && Granted(t.log, other, older)
    ensures older <= vers && (other != rid ==> older < vers)
  {
    hide Reachable, InOrder;
    GrantsInOrder(t);
    var n :| 0 <= n < |t.log| && IsWriteGrant(t.log[n]) && t.log[n].rid == rid && t.log[n].version.value == vers
             && forall j :: n < j < |t.log| ==> !IsWriteGrant(t.log[j]);
    var i :| 0 <= i < |t.log| && IsWriteGrant(t.log[i]) && t.log[i].rid == other && t.log[i].version.value == older;
    if i < n { Rises(t.log, i, n); }
  }

  lemma Rises(log: seq<Out>, i: nat, n: nat)
    requires InOrder(log) && i < n < |log| && IsWriteGrant(log[i]) && IsWriteGrant(log[n])
    ensures log[i].version.value < log[n].version.value
  {
  }

  /** The mount with the last write grant may stamp items with its version: they are newer than all that is stored. */
  lemma LastGrantIsNewer(t: Sys, s: P.State, owners: seq<Option<nat>>, rid: nat, vers: nat, k: nat)
    requires Reachable(t) && LastGrant(t.log, rid, vers) && vers > 0 && |owners| == |s.trees|
    requires forall i :: 0 <= i < |s.trees| ==> Stamped(t.log, owners[i], s.trees[i], k) && (owners[i] == Some(rid) <==> i == s.mine)
    requires P.CellAt(s, k).Present? && P.CellAt(s, k).item.dirty ==> Granted(t.log, rid, P.CellAt(s, k).item.vers)
    requires Coherent(P.CellAt(s, k), P.StoredAt(s, k))
    ensures P.IsNewer(s, k, vers)
  {
    hide Reachable, LastGrant, Granted, P.CellAt;
    forall i | 0 <= i < |s.trees| && k in s.trees[i]
      ensures s.trees[i][k].vers < vers || (i == s.mine && s.trees[i][k].vers == vers)
    {
      assert Stamped(t.log, owners[i], s.trees[i], k);
      if owners[i].Some? { LastIsHighest(t, rid, vers, owners[i].value, s.trees[i][k].vers); }
    }
    var c := P.CellAt(s, k);
    if c.Present? {
      if c.item.dirty {
        LastIsHighest(t, rid, vers, rid, c.item.vers);
      } else {
        NewestIs(s.trees, k);
        var tree :| tree in s.trees && At(tree, k) == P.StoredAt(s, k);
        var i :| 0 <= i < |s.trees| && s.trees[i] == tree;
        assert s.trees[i][k].vers <= vers;
      }
    }
  }
}
