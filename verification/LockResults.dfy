/** What every reachable state of the cluster lock protocol guarantees. */
module LockResults {
  import opened Wrappers
  import opened LockModes
  import opened LockServer
  import opened LockProtocol
  import opened LockClientProofs
  import opened LockTheorems

  /** A state that a cluster can get to from a server start. */
  ghost predicate Reachable(t: Sys) {
    exists s, steps :: Init(s) && ValidRun(s, steps) && Run(s, steps) == t
  }

  lemma ReachableInv(t: Sys)
    requires Reachable(t)
    ensures Inv(t)
  {
    hide Init, Inv;
    var s, steps :| Init(s) && ValidRun(s, steps) && Run(s, steps) == t;
    InitHolds(s);
    RunKeeps(s, steps);
  }

  lemma Agrees(t: Sys, c: nat)
    requires Reachable(t) && c in t.mounts
    ensures c in t.recovering ==> RecoveringOK(t.node, c, t.mounts[c])
    ensures c !in t.recovering ==> MountOK(t.node, c, t.mounts[c])
  {
    hide MountOK, RecoveringOK, NodeOK, Known, Exclusive, LogOK;
    ReachableInv(t);
    assert AgreesAt(t, c);
  }

  lemma RecordsCoexist(t: Sys, c: nat, d: nat)
    requires Reachable(t) && c in t.mounts && d in t.mounts && c != d
    ensures Coexist(HeldBy(t, c), HeldBy(t, d))
  {
    hide NodeOK, Known, Mounts, LogOK, Reachable;
    ReachableInv(t);
  }

  /** A mount's users never exceed what the server has on record for the mount. */
  lemma UsersWithinRecord(n: Node, c: nat, m: Mount, a: Mode)
    requires MountOK(n, c, m) && m.users[a] > 0
    ensures a != Null && (Held(n, c) == a || (Held(n, c) == Write && a == Read))
  {
    hide Find, Held, RequestOK;
    var g, i, q, r :| MountOKWith(n, c, m, g, i, q, r);
  }

  lemma UsersWithin(t: Sys, c: nat, a: Mode)
    requires Reachable(t) && c in t.mounts && t.mounts[c].users[a] > 0
    ensures a != Null && (HeldBy(t, c) == a || (HeldBy(t, c) == Write && a == Read))
  {
    hide MountOK, Reachable, Outstanding, RequestOK;
    Agrees(t, c);
    if c !in t.recovering { UsersWithinRecord(t.node, c, t.mounts[c], a); }
  }

  /** Active users of one lock on two mounts are all readers or all write-only users. */
  lemma MutualExclusion(t: Sys, c: nat, d: nat, a: Mode, b: Mode)
    requires Reachable(t) && c in t.mounts && d in t.mounts && c != d
    requires t.mounts[c].users[a] > 0 && t.mounts[d].users[b] > 0
    ensures a == b && (a == Read || a == WriteOnly)
  {
    hide Reachable, HeldBy;
    UsersWithin(t, c, a);
    UsersWithin(t, d, b);
    RecordsCoexist(t, c, d);
  }

  lemma RecoveringIsQuiet(n: Node, c: nat, m: Mount)
    requires RecoveringOK(n, c, m)
    ensures m.down == multiset{} && m.grant.None? && m.inv.None? && !m.ready
  {
  }

  /** At most one grant and one invalidation are outstanding for a mount, in flight or waiting to be applied. */
  lemma OneOfEach(t: Sys, c: nat, x: ToClient, y: ToClient)
    requires Reachable(t) && c in t.mounts
    requires x in t.mounts[c].down && y in t.mounts[c].down
    ensures t.mounts[c].down[x] == 1 && (x.Grant? == y.Grant? ==> x == y)
    ensures x.Grant? ==> t.mounts[c].grant.None?
    ensures x.Invalidate? ==> t.mounts[c].inv.None?
  {
    hide Reachable, RequestOK, UsersMatch, Find, Held, RecoveringOK;
    var m := t.mounts[c];
    Agrees(t, c);
    if c in t.recovering {
      RecoveringIsQuiet(t.node, c, m);
      assert false;
    }
    var g, i, q, r :| MountOKWith(t.node, c, m, g, i, q, r);
    if x.Grant? { GrantArrives(m, x, g, i, q, r); } else { InvalidateArrives(m, x, g, i, q, r); }
    if y.Grant? { GrantArrives(m, y, g, i, q, r); } else { InvalidateArrives(m, y, g, i, q, r); }
  }

  /** The client's assertions on incoming messages never fail. */
  lemma MessagesAreExpected(t: Sys, c: nat, x: ToClient)
    requires Reachable(t) && c in t.mounts && x in t.mounts[c].down
    ensures x.Grant? ==> t.mounts[c].pending && t.mounts[c].grant.None?
    ensures x.Invalidate? ==> Present(t.mounts[c]) && t.mounts[c].inv.None?
  {
    hide Reachable, MountOK, RecoveringOK;
    var m := t.mounts[c];
    Agrees(t, c);
    if c in t.recovering {
      RecoveringIsQuiet(t.node, c, m);
    } else if x.Grant? {
      ReceiveGrantKeeps(t.node, c, m, x);
    } else {
      ReceiveInvalidateKeeps(t.node, c, m, x);
    }
  }

  lemma InvalidationLowers(n: Node, c: nat, m: Mount)
    requires MountOK(n, c, m) && m.inv.Some?
    ensures Lowers(m.inv.value.old_, m.inv.value.new_)
  {
    hide Find, Held, RequestOK, UsersMatch;
    var g, i, q, r :| MountOKWith(n, c, m, g, i, q, r);
  }

  /** A lock is only ever invalidated from write to read or down to null. */
  lemma InvalidationsLower(t: Sys, c: nat)
    requires Reachable(t) && c in t.mounts && t.mounts[c].inv.Some?
    ensures Lowers(t.mounts[c].inv.value.old_, t.mounts[c].inv.value.new_)
  {
    hide Reachable, MountOK, RecoveringOK;
    Agrees(t, c);
    if c in t.recovering {
      RecoveringIsQuiet(t.node, c, t.mounts[c]);
    } else {
      InvalidationLowers(t.node, c, t.mounts[c]);
    }
  }

  /** A mount with nothing outstanding has exactly the mode that the server recorded. */
  lemma QuietMountAgrees(t: Sys, c: nat)
    requires Reachable(t) && c in t.mounts && c !in t.recovering
    requires var m := t.mounts[c];
             m.down == multiset{} && m.up == multiset{} && m.grant.None? && m.inv.None?
    ensures t.mounts[c].mode == Held(t.node, c) && Find(t.node.invalidated, c).None?
  {
    hide Reachable, UsersMatch, Find, Held;
    Agrees(t, c);
    var m := t.mounts[c];
    var g, i, q, r :| MountOKWith(t.node, c, m, g, i, q, r);
    assert g.None? && i.None? && r.None?;
  }

  /** A grant that has arrived can always be applied. */
  lemma GrantApplies(t: Sys, c: nat)
    requires Reachable(t) && c in t.mounts && t.mounts[c].grant.Some?
    ensures CanApplyGrant(t.mounts[c])
  {
    hide Reachable, UsersMatch, Find, Held, RecoveringOK;
    Agrees(t, c);
    if c in t.recovering {
      RecoveringIsQuiet(t.node, c, t.mounts[c]);
    } else {
      var g, i, q, r :| MountOKWith(t.node, c, t.mounts[c], g, i, q, r);
    }
  }

  function GrantThenInvalidate(m: Mount, g: ToClient, i: ToClient): Mount {
    FinishInvalidate(StartInvalidate(ReceiveInvalidate(ApplyGrant(ReceiveGrant(m, g)), i)))
  }

  function InvalidateThenGrant(m: Mount, g: ToClient, i: ToClient): Mount {
    FinishInvalidate(StartInvalidate(ApplyGrant(ReceiveGrant(ReceiveInvalidate(m, i), g))))
  }

  lemma BothInFlight(n: Node, c: nat, m: Mount, g: ToClient, i: ToClient)
    requires MountOK(n, c, m) && g.Grant? && i.Invalidate? && g in m.down && i in m.down
    ensures m.mode == g.old_ && g.new_ == i.old_ && m.mode != i.old_
    ensures m.inv.None? && m.grant.None? && !m.ready
  {
    hide Find, Held, UsersMatch;
    var g', i', q, r :| MountOKWith(n, c, m, g', i', q, r);
    GrantArrives(m, g, g', i', q, r);
    InvalidateArrives(m, i, g', i', q, r);
    hide Outstanding;
    assert Held(n, c) != Null;
  }

  /**
    A grant and a later invalidation can arrive in either order.  An early
    invalidation waits for the grant, and both orders end in the same state:
    the invalidated mode, with the server's answer on its way.
  */
  lemma EitherOrder(t: Sys, c: nat, g: ToClient, i: ToClient)
    requires Reachable(t) && c in t.mounts && g.Grant? && i.Invalidate?
    requires g in t.mounts[c].down && i in t.mounts[c].down
    ensures var m := t.mounts[c];
            && !CanInvalidate(ReceiveInvalidate(m, i))
            && !CanInvalidate(ReceiveGrant(ReceiveInvalidate(m, i), g))
            && CanApplyGrant(ReceiveGrant(m, g)) && CanApplyGrant(ReceiveGrant(ReceiveInvalidate(m, i), g))
            && GrantThenInvalidate(m, g, i) == InvalidateThenGrant(m, g, i)
            && GrantThenInvalidate(m, g, i).mode == i.new_ && !GrantThenInvalidate(m, g, i).pending
            && Response(g.new_, i.new_) in GrantThenInvalidate(m, g, i).up
  {
    hide Reachable, MountOK, RecoveringOK;
    var m := t.mounts[c];
    Agrees(t, c);
    if c in t.recovering {
      RecoveringIsQuiet(t.node, c, m);
      assert false;
    }
    BothInFlight(t.node, c, m, g, i);
    assert m.down - multiset{g} - multiset{i} == m.down - multiset{i} - multiset{g};
  }

  /** Over a whole run grants answer requests in arrival order and write versions strictly rise. */
  lemma GrantsInOrder(t: Sys)
    requires Reachable(t)
    ensures InOrder(t.log)
  {
    hide Reachable, Mounts, Exclusive, NodeOK, Known, InOrder;
    ReachableInv(t);
  }

  /** Nothing is granted or invalidated during recovery, and requests wait for no other reason than these. */
  lemma WhyRequestsWait(t: Sys)
    requires Reachable(t)
    ensures t.recovering != {} ==> t.log == []
    ensures t.node.requested != [] ==> t.recovering != {} || t.node.invalidated != []
  {
    hide Reachable, Mounts, Exclusive, NodeOK, Known, LogOK;
    ReachableInv(t);
  }

  /** A step of the lock machinery itself, rather than of the lock's users. */
  predicate ProtocolStep(t: Step) {
    ClientWork(t) || t.ServeRequestStep? || t.ServeResponseStep? || t.RecoverStep?
  }

  /** The users of a mount stop an invalidation that has arrived at the mount. */
  ghost predicate UsersBlock(m: Mount) {
    m.inv.Some? && !m.ready && !CountsMatch(m.inv.value.new_, m.users)
  }

  lemma OutstandingIsSomewhere(m: Mount, g: Option<ToClient>, i: Option<ToClient>, q: Option<ToServer>, r: Option<ToServer>)
    requires Outstanding(m, g, i, q, r)
    ensures g.Some? ==> m.grant == g || g.value in m.down
    ensures i.Some? ==> (m.inv == i && !m.ready) || i.value in m.down
    ensures r.Some? ==> r.value in m.up
  {
  }

  lemma InvalidationMoves(t: Sys, c: nat)
    requires c in t.mounts && MountOK(t.node, c, t.mounts[c]) && Find(t.node.invalidated, c).Some?
    ensures UsersBlock(t.mounts[c]) || exists step :: ProtocolStep(step) && Enabled(t, step)
  {
    hide Find, Held, UsersMatch, RequestOK, CountsMatch, Bag;
    var m := t.mounts[c];
    var g, i, q, r :| MountOKWith(t.node, c, m, g, i, q, r);
    OutstandingIsSomewhere(m, g, i, q, r);
    if m.ready {
      assert Enabled(t, FinishInvalidateStep(c));
    } else if r.Some? {
      assert Enabled(t, ServeResponseStep(c, r.value.old_, r.value.new_));
    } else if m.inv.None? {
      assert Enabled(t, ReceiveInvalidateStep(c, i.value));
    } else if m.grant.Some? {
      assert Enabled(t, ApplyGrantStep(c));
    } else if g.Some? {
      assert Enabled(t, ReceiveGrantStep(c, g.value));
    } else if !UsersBlock(m) {
      assert Enabled(t, StartInvalidateStep(c));
    }
  }

  lemma FirstInvalidated(t: Sys)
    requires Reachable(t) && t.node.invalidated != []
    ensures t.recovering == {} && t.node.invalidated[0].rid in t.mounts
    ensures Find(t.node.invalidated, t.node.invalidated[0].rid).Some?
  {
    hide Reachable, Mounts, Exclusive, LogOK;
    ReachableInv(t);
    assert t.node.invalidated[0] in t.node.invalidated;
    FindIs(t.node.invalidated, 0);
  }

  /** A waiting request is never stuck: a protocol step can run, or a mount's users hold up an invalidation. */
  lemma NoDeadlock(t: Sys)
    requires Reachable(t) && t.node.requested != []
    ensures (exists c :: c in t.mounts && UsersBlock(t.mounts[c])) || exists step :: ProtocolStep(step) && Enabled(t, step)
  {
    hide Reachable, Find, MountOK, RecoveringOK, UsersBlock;
    WhyRequestsWait(t);
    if t.node.invalidated != [] {
      var c := t.node.invalidated[0].rid;
      FirstInvalidated(t);
      Agrees(t, c);
      InvalidationMoves(t, c);
    } else {
      var c :| c in t.recovering;
      RecoveringAreMounts(t);
      assert Enabled(t, RecoverStep(c));
    }
  }

  lemma RecoveringAreMounts(t: Sys)
    requires Reachable(t)
    ensures t.recovering <= t.mounts.Keys
  {
    hide Reachable, Mounts, Exclusive, NodeOK, Known, LogOK;
    ReachableInv(t);
  }
}
