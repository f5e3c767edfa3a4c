/** The lock server's per-lock structure, updated in place by its message handlers. */
module LockServerNode {
  import opened Errno
  import opened Wrappers
  import opened LockModes
  import opened LockServer

  /** Lock modes are bytes on the wire; anything past write-only is invalid. */
  predicate InvalidMode(b: nat) {
    b >= 4
  }

  function FromByte(b: nat): Mode
    requires !InvalidMode(b)
  {
    if b == 0 then Null else if b == 1 then Read else if b == 2 then Write else WriteOnly
  }

  lemma {:induction false} DropAt(list: seq<Entry>, i: nat)
    requires i < |list| && forall j :: 0 <= j < i ==> list[j].rid != list[i].rid
    ensures Find(list, list[i].rid) == Some(list[i])
    ensures Drop(list, list[i].rid) == list[..i] + list[i + 1..]
  {
    if i > 0 {
      assert forall j :: 0 <= j < i - 1 ==> list[1..][j].rid != list[1..][i - 1].rid;
      DropAt(list[1..], i - 1);
      assert list[..i] == [list[0]] + list[1..][..i - 1];
      assert list[1..][i..] == list[i + 1..];
    }
  }

  lemma {:induction false} FindMissing(list: seq<Entry>, rid: nat)
    requires forall j :: 0 <= j < |list| ==> list[j].rid != rid
    ensures Find(list, rid) == None && Drop(list, rid) == list
  {
    if list != [] { FindMissing(list[1..], rid); }
  }

  /** The position of the client's first entry, or the length of the list. */
  method FindEntry(list: seq<Entry>, rid: nat) returns (i: nat)
    ensures i <= |list| && (i < |list| ==> list[i].rid == rid)
    ensures forall j :: 0 <= j < i ==> list[j].rid != rid
  {
    i := 0;
    while i < |list| && list[i].rid != rid
      invariant i <= |list| && forall j :: 0 <= j < i ==> list[j].rid != rid
    {
      i := i + 1;
    }
  }

  method PurgeList(list: seq<Entry>, rid: nat) returns (kept: seq<Entry>)
    ensures kept == Purge(list, rid)
  {
    kept := [];
    for i := 0 to |list|
      invariant kept == Purge(list[..i], rid)
    {
      assert list[..i + 1][..i] == list[..i];
      if list[i].rid != rid { kept := kept + [list[i]]; }
    }
    assert list[..|list|] == list;
  }

  lemma KeepEmpty(req: Entry)
    ensures Keep([], req, true) == [] && Keep([], req, false) == [] && Invalidations([], req.mode) == []
  {
  }

  lemma KeepNext(list: seq<Entry>, e: Entry, req: Entry)
    ensures Keep(list + [e], req, true) == if Compatible(e, req) then Keep(list, req, true) + [e] else Keep(list, req, true)
    ensures Keep(list + [e], req, false) == if Compatible(e, req) then Keep(list, req, false) else Keep(list, req, false) + [e]
    ensures !Compatible(e, req) ==>
              Invalidations(Keep(list + [e], req, false), req.mode) ==
              Invalidations(Keep(list, req, false), req.mode) + [InvalidateTo(e.rid, e.mode, InvalidationMode(e.mode, req.mode))]
  {
    assert (list + [e])[..|list|] == list;
    var bad := Keep(list, req, false);
    assert (bad + [e])[..|bad|] == bad;
  }

  class ServerLock {
    var granted: seq<Entry>
    var requested: seq<Entry>
    var invalidated: seq<Entry>
    var next: nat

    function State(): Node
      reads this
    {
      Node(granted, requested, invalidated, next)
    }

    constructor ()
      ensures State() == EmptyNode
    {
      granted, requested, invalidated, next := [], [], [], 0;
    }

    /** Move every grant that conflicts with the request to the invalidated list, telling its client. */
    method SendInvalidations(req: Entry) returns (sent: seq<Out>)
      modifies this
      ensures granted == Keep(old(granted), req, true)
      ensures invalidated == old(invalidated) + Keep(old(granted), req, false)
      ensures requested == old(requested) && next == old(next)
      ensures sent == Invalidations(Keep(old(granted), req, false), req.mode)
    {
      hide *;
      var list := granted;
      granted, sent := [], [];
      KeepEmpty(req);
      assert list[..0] == [];
      ghost var bad := [];
      for i := 0 to |list|
        invariant granted == Keep(list[..i], req, true)
        invariant bad == Keep(list[..i], req, false) && invalidated == old(invalidated) + bad
        invariant sent == Invalidations(bad, req.mode)
        invariant requested == old(requested) && next == old(next)
      {
        var gr := list[i];
        KeepNext(list[..i], gr, req);
        assert list[..i + 1] == list[..i] + [gr];
        if Compatible(gr, req) {
          granted := granted + [gr];
        } else {
          sent := sent + [InvalidateTo(gr.rid, gr.mode, InvalidationMode(gr.mode, req.mode))];
          invalidated := invalidated + [gr];
          bad := bad + [gr];
        }
      }
      assert list[..|list|] == list;
    }

    /** Grant the request at the head of the list, replacing an earlier grant of its client. */
    method GrantHead(version: nat) returns (v: nat, sent: seq<Out>)
      requires requested != []
      modifies this
      ensures Result(State(), v, sent) == GrantFirst(old(State()), version)
    {
      var req := requested[0];
      var oldMode := Null;
      var i := FindEntry(granted, req.rid);
      if i < |granted| {
        DropAt(granted, i);
        oldMode := granted[i].mode;
        granted := granted[..i] + granted[i + 1..];
      } else {
        FindMissing(granted, req.rid);
      }
      v := version;
      var wv := None;
      if CanWrite(req.mode) {
        v := v + 1;
        wv := Some(v);
      }
      sent := [GrantTo(req.rid, req.tseq, oldMode, req.mode, wv)];
      requested := requested[1..];
      if req.mode != Null { granted := granted + [req]; }
    }

    method ProcessWaiting(recovering: bool, version: nat) returns (v: nat, sent: seq<Out>)
      modifies this
      ensures Result(State(), v, sent) == Process(old(State()), recovering, version)
    {
      v, sent := version, [];
      if invalidated != [] || recovering { return; }
      while requested != []
        invariant invalidated == []
        invariant var rest := Process(State(), false, v);
                  Process(old(State()), false, version) == Result(rest.node, rest.version, sent + rest.sent)
        decreases |requested|
      {
        ghost var before, v0 := State(), v;
        var invs := SendInvalidations(requested[0]);
        if invalidated != [] {
          sent := sent + invs;
          return;
        }
        NothingKept(before.granted, before.requested[0]);
        assert State() == before;
        var one;
        v, one := GrantHead(v);
        assert sent + one + Process(State(), false, v).sent == sent + (one + Process(State(), false, v).sent);
        sent := sent + one;
      }
      assert sent + [] == sent;
    }

    /** A lock request: queue it behind the earlier ones and make what progress is possible. */
    method Request(recovering: bool, version: nat, rid: nat, oldMode: nat, newMode: nat)
        returns (ret: int, v: nat, sent: seq<Out>)
      modifies this
      ensures if InvalidMode(oldMode) || InvalidMode(newMode)
              then ret == EINVAL && Result(State(), v, sent) == Result(old(State()), version, [])
              else ret == 0 && Result(State(), v, sent) == HandleRequest(old(State()), recovering, version, rid, FromByte(newMode))
    {
      if InvalidMode(oldMode) || InvalidMode(newMode) { return EINVAL, version, []; }
      requested := requested + [Entry(rid, next, FromByte(newMode))];
      next := next + 1;
      ret := 0;
      v, sent := ProcessWaiting(recovering, version);
    }

    /** An invalidation response; a client with nothing being invalidated gets an error. */
    method Response(recovering: bool, version: nat, rid: nat, oldMode: nat, newMode: nat)
        returns (ret: int, v: nat, sent: seq<Out>)
      modifies this
      ensures ret == 0 <==> !InvalidMode(oldMode) && !InvalidMode(newMode) && Find(old(invalidated), rid).Some?
      ensures if ret == 0
              then Result(State(), v, sent) == HandleResponse(old(State()), recovering, version, rid, FromByte(newMode))
              else ret == EINVAL && Result(State(), v, sent) == Result(old(State()), version, [])
    {
      if InvalidMode(oldMode) || InvalidMode(newMode) { return EINVAL, version, []; }
      var i := FindEntry(invalidated, rid);
      if i == |invalidated| {
        FindMissing(invalidated, rid);
        return EINVAL, version, [];
      }
      DropAt(invalidated, i);
      var e := invalidated[i];
      invalidated := invalidated[..i] + invalidated[i + 1..];
      if FromByte(newMode) != Null { granted := granted + [e.(mode := FromByte(newMode))]; }
      assert State() == Finish(old(State()), e, FromByte(newMode));
      ret := 0;
      v, sent := ProcessWaiting(recovering, version);
    }

    /** A recovering client tells us the mode that it holds. */
    method RecoverEntry(rid: nat, mode: Mode) returns (ret: int)
      modifies this
      ensures State() == Recover(old(State()), rid, mode)
      ensures ret == if Find(old(granted), rid).Some? then EEXIST else 0
    {
      var i := FindEntry(granted, rid);
      if i < |granted| {
        DropAt(granted, i);
        return EEXIST;
      }
      FindMissing(granted, rid);
      granted := granted + [Entry(rid, next, mode)];
      next := next + 1;
      ret := 0;
    }

    method Farewell(recovering: bool, version: nat, rid: nat) returns (v: nat, sent: seq<Out>)
      modifies this
      ensures Result(State(), v, sent) == HandleFarewell(old(State()), recovering, version, rid)
    {
      var g := PurgeList(granted, rid);
      var q := PurgeList(requested, rid);
      var i := PurgeList(invalidated, rid);
      var freed := g != granted || q != requested || i != invalidated;
      granted, requested, invalidated := g, q, i;
      if freed {
        v, sent := ProcessWaiting(recovering, version);
      } else {
        v, sent := version, [];
      }
    }
  }

  /** A list without conflicts is kept as it is. */
  lemma {:induction false} NothingKept(list: seq<Entry>, req: Entry)
    requires Keep(list, req, false) == []
    ensures Keep(list, req, true) == list
  {
    if list != [] {
      NothingKept(list[..|list| - 1], req);
      assert list == list[..|list| - 1] + [list[|list| - 1]];
    }
  }
}
