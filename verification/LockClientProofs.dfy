/** Every step of a mount keeps that mount in agreement with the server's record of it. */
module LockClientProofs {
  import opened Wrappers
  import opened LockModes
  import opened LockServer
  import opened LockProtocol

  lemma NewUsersWith(n: Node, c: nat, m: Mount, users: multiset<Mode>, g: Option<ToClient>, i: Option<ToClient>, q: Option<ToServer>, r: Option<ToServer>)
    requires MountOKWith(n, c, m, g, i, q, r) && UsersMatch(m.(users := users))
    ensures MountOKWith(n, c, m.(users := users), g, i, q, r)
  {
    hide UsersMatch, Find, Held, Wires;
  }

  /** Users only have to be covered by the mount's mode. */
  lemma NewUsers(n: Node, c: nat, m: Mount, users: multiset<Mode>)
    requires MountOK(n, c, m) && UsersMatch(m.(users := users))
    ensures MountOK(n, c, m.(users := users))
  {
    hide UsersMatch, MountOKWith;
    var g, i, q, r :| MountOKWith(n, c, m, g, i, q, r);
    NewUsersWith(n, c, m, users, g, i, q, r);
  }

  lemma UsersOK(n: Node, c: nat, m: Mount)
    requires MountOK(n, c, m)
    ensures UsersMatch(m)
  {
  }

  lemma LockKeeps(n: Node, c: nat, m: Mount, mode: Mode)
    requires MountOK(n, c, m) && CanLock(m, mode)
    ensures MountOK(n, c, Lock(m, mode))
  {
    hide MountOK;
    UsersOK(n, c, m);
    NewUsers(n, c, m, m.users + multiset{mode});
  }

  lemma UnlockKeeps(n: Node, c: nat, m: Mount, mode: Mode)
    requires MountOK(n, c, m)
    ensures MountOK(n, c, Unlock(m, mode))
  {
    hide MountOK;
    UsersOK(n, c, m);
    NewUsers(n, c, m, m.users - multiset{mode});
  }

  lemma RequestKeeps(n: Node, c: nat, m: Mount, mode: Mode)
    requires MountOK(n, c, m) && CanRequest(m, mode)
    ensures MountOK(n, c, SendRequest(m, mode))
  {
    var g, i, q, r :| MountOKWith(n, c, m, g, i, q, r);
    assert MountOKWith(n, c, SendRequest(m, mode), g, i, Some(Request(mode)), r);
  }

  /** The only grant in flight is the outstanding one, and nothing else waits in its slot. */
  lemma GrantArrives(m: Mount, x: ToClient, g: Option<ToClient>, i: Option<ToClient>, q: Option<ToServer>, r: Option<ToServer>)
    requires Outstanding(m, g, i, q, r) && x in m.down && x.Grant?
    ensures g == Some(x) && m.grant.None?
    ensures m.down - multiset{x} == if m.inv.Some? && !m.ready then multiset{} else Bag(i)
  {
  }

  lemma InvalidateArrives(m: Mount, x: ToClient, g: Option<ToClient>, i: Option<ToClient>, q: Option<ToServer>, r: Option<ToServer>)
    requires Outstanding(m, g, i, q, r) && x in m.down && x.Invalidate?
    ensures i == Some(x) && !(m.inv.Some? && !m.ready)
    ensures m.down - multiset{x} == if m.grant.Some? then multiset{} else Bag(g)
  {
  }

  lemma InvalidateSlot(m: Mount, x: ToClient, g: Option<ToClient>, i: Option<ToClient>, q: Option<ToServer>, r: Option<ToServer>)
    requires Outstanding(m, g, i, q, r) && x in m.down && x.Invalidate? && !m.ready
    ensures m.inv.None? && Outstanding(ReceiveInvalidate(m, x), g, i, q, r)
  {
    InvalidateArrives(m, x, g, i, q, r);
  }

  lemma ReceiveGrantKeeps(n: Node, c: nat, m: Mount, x: ToClient)
    requires MountOK(n, c, m) && x.Grant? && x in m.down
    ensures MountOK(n, c, ReceiveGrant(m, x))
    ensures m.pending && m.grant.None?
  {
    var g, i, q, r :| MountOKWith(n, c, m, g, i, q, r);
    GrantArrives(m, x, g, i, q, r);
    assert MountOKWith(n, c, ReceiveGrant(m, x), g, i, q, r);
  }

  lemma ReceiveInvalidateKeeps(n: Node, c: nat, m: Mount, x: ToClient)
    requires MountOK(n, c, m) && x.Invalidate? && x in m.down
    ensures MountOK(n, c, ReceiveInvalidate(m, x))
    ensures m.inv.None? && Present(m)
  {
    hide Wires, Find;
    var g, i, q, r :| MountOKWith(n, c, m, g, i, q, r);
    InvalidateArrives(m, x, g, i, q, r);
    assert !m.ready;
    InvalidateSlot(m, x, g, i, q, r);
    assert MountOKWith(n, c, ReceiveInvalidate(m, x), g, i, q, r);
  }

  lemma ApplyGrantKeeps(n: Node, c: nat, m: Mount)
    requires MountOK(n, c, m) && CanApplyGrant(m)
    ensures MountOK(n, c, ApplyGrant(m))
  {
    var g, i, q, r :| MountOKWith(n, c, m, g, i, q, r);
    assert MountOKWith(n, c, ApplyGrant(m), None, i, q, r);
  }

  lemma StartInvalidateKeeps(n: Node, c: nat, m: Mount)
    requires MountOK(n, c, m) && CanInvalidate(m)
    ensures MountOK(n, c, StartInvalidate(m))
  {
    var g, i, q, r :| MountOKWith(n, c, m, g, i, q, r);
    assert MountOKWith(n, c, StartInvalidate(m), g, None, q, r);
  }

  lemma FinishInvalidateKeeps(n: Node, c: nat, m: Mount)
    requires MountOK(n, c, m) && m.ready && m.inv.Some?
    ensures MountOK(n, c, FinishInvalidate(m))
  {
    var g, i, q, r :| MountOKWith(n, c, m, g, i, q, r);
    assert MountOKWith(n, c, FinishInvalidate(m), g, i, q, Some(Response(m.inv.value.old_, m.inv.value.new_)));
  }

  /** While the server is recovering a mount only its users and its request can change. */
  lemma RecoveringUsersKeep(n: Node, c: nat, m: Mount, mode: Mode)
    requires RecoveringOK(n, c, m)
    ensures CanLock(m, mode) ==> RecoveringOK(n, c, Lock(m, mode))
    ensures RecoveringOK(n, c, Unlock(m, mode))
  {
    var q :| RecoveringOKWith(n, c, m, q);
    assert CanLock(m, mode) ==> RecoveringOKWith(n, c, Lock(m, mode), q);
    assert RecoveringOKWith(n, c, Unlock(m, mode), q);
  }

  lemma RecoveringRequestKeeps(n: Node, c: nat, m: Mount, mode: Mode)
    requires RecoveringOK(n, c, m) && CanRequest(m, mode)
    ensures RecoveringOK(n, c, SendRequest(m, mode))
  {
    var q :| RecoveringOKWith(n, c, m, q);
    assert RecoveringOKWith(n, c, SendRequest(m, mode), Some(Request(mode)));
  }
}
