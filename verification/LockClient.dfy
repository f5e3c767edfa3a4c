/** A mount's structure for one lock, updated in place by lock calls and by the grant and invalidation workers. */
module LockClient {
  import opened Errno
  import opened Wrappers
  import opened LockModes
  import opened LockProtocol

  const AllModes := [Null, Read, Write, WriteOnly]

  /** All the actively used modes are satisfied by a lock of the given mode. */
  method LockCountsMatch(granted: Mode, counts: multiset<Mode>) returns (ok: bool)
    ensures ok == CountsMatch(granted, counts)
  {
    var i := 0;
    while i < |AllModes|
      invariant i <= |AllModes| && forall j :: 0 <= j < i ==> counts[AllModes[j]] > 0 ==> ModesMatch(granted, AllModes[j])
    {
      if counts[AllModes[i]] > 0 && !ModesMatch(granted, AllModes[i]) { return false; }
      i := i + 1;
    }
    assert AllModes[0] == Null && AllModes[1] == Read && AllModes[2] == Write && AllModes[3] == WriteOnly;
    ok := true;
  }

  class ClientLock {
    var mode: Mode
    var users: multiset<Mode>
    var pending: bool
    var grant: Option<ToClient>
    var inv: Option<ToClient>
    var ready: bool
    var outbox: seq<ToServer>

    /** The mount's part of the protocol state, with the messages it sent. */
    function State(): Mount
      reads this
    {
      Mount(mode, users, pending, grant, inv, ready, multiset{}, multiset(outbox))
    }

    constructor ()
      ensures State() == FreshMount
    {
      mode, users, pending, grant, inv, ready, outbox := Null, multiset{}, false, None, None, false, [];
    }

    /** One pass of a lock attempt: use the granted mode, give up, or make sure a request is outstanding. */
    method TryLock(want: Mode, nonblock: bool) returns (ret: int, locked: bool)
      requires want != Null
      modifies this
      ensures locked == old(CanLock(State(), want))
      ensures locked ==> ret == 0 && State() == Lock(old(State()), want)
      ensures !locked ==> ret == if nonblock then EAGAIN else 0
      ensures !locked ==>
                State() == if !nonblock && old(CanRequest(State(), want)) then SendRequest(old(State()), want) else old(State())
    {
      if ModesMatch(mode, want) {
        users := users + multiset{want};
        return 0, true;
      }
      if nonblock { return EAGAIN, false; }
      if !pending {
        pending := true;
        outbox := outbox + [ToServer.Request(want)];
      }
      return 0, false;
    }

    method UnlockMode(m: Mode)
      requires users[m] > 0
      modifies this
      ensures State() == Unlock(old(State()), m)
    {
      users := users - multiset{m};
    }

    method GrantResponse(g: ToClient)
      requires pending && g.Grant?
      modifies this
      ensures State() == ReceiveGrant(old(State()), g)
    {
      grant := Some(g);
    }

    /** Only set the granted mode once the old mode matches. */
    method GrantWork()
      modifies this
      ensures State() == if old(CanApplyGrant(State())) then ApplyGrant(old(State())) else old(State())
    {
      if grant.Some? && mode == grant.value.old_ {
        pending := false;
        mode := grant.value.new_;
        grant := None;
      }
    }

    method InvalidateRequest(i: ToClient)
      requires inv.None? && i.Invalidate?
      modifies this
      ensures State() == ReceiveInvalidate(old(State()), i)
    {
      inv := Some(i);
    }

    /** Reduce the mode once the old mode matches and no user needs more than the new mode. */
    method InvalidateWork()
      modifies this
      ensures State() == if old(CanInvalidate(State())) then StartInvalidate(old(State())) else old(State())
    {
      if inv.None? || ready || mode != inv.value.old_ { return; }
      var ok := LockCountsMatch(inv.value.new_, users);
      if ok {
        mode := inv.value.new_;
        ready := true;
      }
    }

    method InvalidateDone()
      requires inv.Some? && ready
      modifies this
      ensures State() == FinishInvalidate(old(State()))
    {
      outbox := outbox + [ToServer.Response(inv.value.old_, inv.value.new_)];
      inv := None;
      ready := false;
    }

    /** Memory pressure asks the server for the null mode of an idle lock. */
    method Shrink()
      requires mode != Null && !pending && inv.None? && users == multiset{}
      modifies this
      ensures old(CanRequest(State(), Null)) && State() == SendRequest(old(State()), Null)
    {
      pending := true;
      outbox := outbox + [ToServer.Request(Null)];
    }
  }
}
