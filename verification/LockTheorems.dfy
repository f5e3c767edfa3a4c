/** Safety, order and progress of the cluster lock protocol over whole runs. */
module LockTheorems {
  import opened Wrappers
  import opened LockModes
  import opened LockServer
  import opened LockProtocol
  import opened LockClientProofs
  import opened LockServerProofs

  // ---- steps that only change one mount

  lemma SetMount(s: Sys, c: nat, m: Mount)
    requires Inv(s) && c in s.mounts
    requires AgreesAt(WithMount(s, c, m), c)
    requires c in s.recovering ==> m.mode == s.mounts[c].mode
    ensures Inv(WithMount(s, c, m))
  {
    hide MountOK, RecoveringOK, LogOK, NodeOK, Known, Held;
    var t := WithMount(s, c, m);
    assert t.mounts.Keys == s.mounts.Keys;
    forall d | d in t.mounts ensures AgreesAt(t, d) && HeldBy(t, d) == HeldBy(s, d) {
      assert AgreesAt(s, d);
    }
    assert Exclusive(t) by {
      forall a, b | a in t.mounts && b in t.mounts && a != b ensures Coexist(HeldBy(t, a), HeldBy(t, b)) {
        assert Coexist(HeldBy(s, a), HeldBy(s, b));
      }
    }
  }

  lemma RecoveringIsIdle(s: Sys, c: nat)
    requires Inv(s) && c in s.recovering
    ensures var m := s.mounts[c]; m.down == multiset{} && m.grant.None? && m.inv.None? && !m.ready
    ensures forall x :: x in s.mounts[c].up ==> x.Request?
  {
    assert AgreesAt(s, c);
  }

  lemma UserStepKeeps(s: Sys, t: Step)
    requires Inv(s) && Enabled(s, t) && (t.LockStep? || t.RequestStep? || t.UnlockStep?)
    ensures Inv(Apply(s, t))
  {
    hide MountOK, RecoveringOK, LogOK, NodeOK, Known, Exclusive;
    var m := s.mounts[t.c];
    assert AgreesAt(s, t.c);
    if t.c in s.recovering {
      if t.RequestStep? { RecoveringRequestKeeps(s.node, t.c, m, t.mode); } else { RecoveringUsersKeep(s.node, t.c, m, t.mode); }
    } else {
      match t
      case LockStep(c, mode) => LockKeeps(s.node, c, m, mode);
      case RequestStep(c, mode) => RequestKeeps(s.node, c, m, mode);
      case UnlockStep(c, mode) => UnlockKeeps(s.node, c, m, mode);
    }
    SetMount(s, t.c, Apply(s, t).mounts[t.c]);
  }

  predicate ClientWork(t: Step) {
    t.ReceiveGrantStep? || t.ReceiveInvalidateStep? || t.ApplyGrantStep? || t.StartInvalidateStep? || t.FinishInvalidateStep?
  }

  lemma ClientWorkKeeps(s: Sys, t: Step)
    requires Inv(s) && Enabled(s, t) && ClientWork(t)
    ensures Inv(Apply(s, t))
  {
    hide MountOK, RecoveringOK, LogOK, NodeOK, Known, Exclusive;
    var m := s.mounts[t.c];
    if t.c in s.recovering {
      RecoveringIsIdle(s, t.c);
      assert false;
    }
    assert AgreesAt(s, t.c);
    match t {
      case ReceiveGrantStep(c, g) => ReceiveGrantKeeps(s.node, c, m, g);
      case ReceiveInvalidateStep(c, i) => ReceiveInvalidateKeeps(s.node, c, m, i);
      case ApplyGrantStep(c) => ApplyGrantKeeps(s.node, c, m);
      case StartInvalidateStep(c) => StartInvalidateKeeps(s.node, c, m);
      case FinishInvalidateStep(c) => FinishInvalidateKeeps(s.node, c, m);
    }
    SetMount(s, t.c, Apply(s, t).mounts[t.c]);
  }

  // ---- steps of the server

  ghost predicate SameEntries(n: Node, k: Node, d: nat) {
    && Find(n.granted, d) == Find(k.granted, d) && Find(n.requested, d) == Find(k.requested, d)
    && Find(n.invalidated, d) == Find(k.invalidated, d)
  }

  /** Changing one client's entries and mount leaves the other mounts as they were. */
  lemma OneClient(s: Sys, t: Sys, c: nat)
    requires Core(s) && c in s.mounts && NodeOK(t.node) && Known(t.node, s.mounts.Keys) && LogOK(t.log, t.node, t.version)
    requires t.mounts.Keys == s.mounts.Keys && (forall d :: d in s.mounts && d != c ==> t.mounts[d] == s.mounts[d])
    requires t.recovering == s.recovering || t.recovering == s.recovering - {c}
    requires t.recovering != {} ==> t.node.invalidated == [] && t.log == []
    requires forall d :: d in s.mounts && d != c ==> SameEntries(s.node, t.node, d)
    requires AgreesAt(t, c)
    requires HeldBy(t, c) == HeldBy(s, c) || HeldBy(t, c) == Null || (HeldBy(s, c) == Write && HeldBy(t, c) == Read)
    ensures Core(t)
  {
    hide MountOK, RecoveringOK, LogOK, NodeOK, Known, Held;
    forall d | d in t.mounts ensures AgreesAt(t, d) && (d != c ==> HeldBy(t, d) == HeldBy(s, d)) {
      if d != c {
        assert AgreesAt(s, d) && SameEntries(s.node, t.node, d);
        SameView(s.node, t.node, d, s.mounts[d]);
      }
    }
    assert Exclusive(t) by {
      forall a, b | a in t.mounts && b in t.mounts && a != b ensures Coexist(HeldBy(t, a), HeldBy(t, b)) {
        assert Coexist(HeldBy(s, a), HeldBy(s, b));
      }
    }
  }

  lemma EnqueueViews(n: Node, c: nat, mode: Mode, d: nat)
    ensures var k := Enqueue(n, c, mode);
            Find(k.requested, d) == if Find(n.requested, d).None? && d == c then Some(Entry(c, n.next, mode)) else Find(n.requested, d)
  {
    FindConcat(n.requested, [Entry(c, n.next, mode)], d);
    assert Find([], d) == None;
  }

  lemma EnqueueNode(n: Node, c: nat, mode: Mode)
    requires NodeOK(n) && Find(n.requested, c).None?
    ensures NodeOK(Enqueue(n, c, mode))
  {
    FindSome(n.requested, c);
  }

  lemma TakeRequest(m: Mount, g: Option<ToClient>, i: Option<ToClient>, q: Option<ToServer>, r: Option<ToServer>, mode: Mode)
    requires Outstanding(m, g, i, q, r) && Request(mode) in m.up
    ensures q == Some(Request(mode)) && Outstanding(m.(up := m.up - multiset{Request(mode)}), g, i, None, r)
  {
    assert m.up - multiset{Request(mode)} == Bag(None) + Bag(r);
  }

  lemma TakeResponse(m: Mount, g: Option<ToClient>, i: Option<ToClient>, q: Option<ToServer>, r: Option<ToServer>, a: Mode, b: Mode)
    requires Outstanding(m, g, i, q, r) && Response(a, b) in m.up
    ensures r == Some(Response(a, b)) && m.ready == (m.ready && m.inv.Some?)
    ensures Outstanding(m.(up := m.up - multiset{Response(a, b)}), g, i, q, None)
  {
    assert m.up - multiset{Response(a, b)} == Bag(q) + Bag(None);
  }

  /** A request that leaves the network becomes the client's only entry on the requested list. */
  lemma EnqueueMount(n: Node, c: nat, m: Mount, mode: Mode)
    requires MountOK(n, c, m) && Request(mode) in m.up
    ensures Find(n.requested, c).None?
    ensures MountOK(Enqueue(n, c, mode), c, m.(up := m.up - multiset{Request(mode)}))
  {
    var m' := m.(up := m.up - multiset{Request(mode)});
    EnqueueViews(n, c, mode, c);
    hide Find, Wires;
    var g, i, q, r :| MountOKWith(n, c, m, g, i, q, r);
    TakeRequest(m, g, i, q, r, mode);
    assert MountOKWith(Enqueue(n, c, mode), c, m', g, i, None, r);
  }

  lemma EnqueueRecovering(n: Node, c: nat, m: Mount, mode: Mode)
    requires RecoveringOK(n, c, m) && Request(mode) in m.up
    ensures Find(n.requested, c).None?
    ensures RecoveringOK(Enqueue(n, c, mode), c, m.(up := m.up - multiset{Request(mode)}))
  {
    var m' := m.(up := m.up - multiset{Request(mode)});
    EnqueueViews(n, c, mode, c);
    var q :| RecoveringOKWith(n, c, m, q);
    TakeRequest(m, None, None, q, None, mode);
    assert RecoveringOKWith(Enqueue(n, c, mode), c, m', None);
  }

  lemma EnqueueLog(n: Node, c: nat, mode: Mode, log: seq<Out>, version: nat)
    requires LogOK(log, n, version)
    ensures LogOK(log, Enqueue(n, c, mode), version)
  {
  }

  /** The request is on the server's list and not processed yet. */
  function Queued(s: Sys, c: nat, mode: Mode): Sys
    requires c in s.mounts
  {
    WithMount(s, c, s.mounts[c].(up := s.mounts[c].up - multiset{Request(mode)})).(node := Enqueue(s.node, c, mode))
  }

  lemma QueuedKeeps(s: Sys, c: nat, mode: Mode)
    requires Inv(s) && Enabled(s, ServeRequestStep(c, mode))
    ensures Core(Queued(s, c, mode)) && Queued(s, c, mode).mounts.Keys == s.mounts.Keys && Find(s.node.requested, c).None?
    ensures forall d :: d in s.mounts && d != c ==> SameEntries(s.node, Queued(s, c, mode).node, d)
    ensures Apply(s, ServeRequestStep(c, mode)) == Processed(Queued(s, c, mode))
  {
    hide MountOK, RecoveringOK, LogOK, NodeOK, Exclusive, Process, Find;
    var m := s.mounts[c];
    var n, k, t := s.node, Enqueue(s.node, c, mode), Queued(s, c, mode);
    assert t.mounts.Keys == s.mounts.Keys;
    assert AgreesAt(s, c);
    if c in s.recovering { EnqueueRecovering(n, c, m, mode); } else { EnqueueMount(n, c, m, mode); }
    EnqueueNode(n, c, mode);
    EnqueueLog(n, c, mode, s.log, s.version);
    forall d | d in s.mounts && d != c ensures SameEntries(n, k, d) { EnqueueViews(n, c, mode, d); }
    OneClient(s, t, c);
  }

  lemma ServeRequestKeeps(s: Sys, c: nat, mode: Mode)
    requires Inv(s) && Enabled(s, ServeRequestStep(c, mode))
    ensures Inv(Apply(s, ServeRequestStep(c, mode)))
  {
    hide Inv, Core, Queued, Processed;
    QueuedKeeps(s, c, mode);
    ProcessKeeps(Queued(s, c, mode));
  }

  lemma FinishNode(n: Node, e: Entry, mode: Mode)
    requires NodeOK(n) && e in n.invalidated && Find(n.granted, e.rid).None?
    ensures NodeOK(Finish(n, e, mode))
    ensures forall x :: x in Finish(n, e, mode).invalidated <==> x in n.invalidated && x.rid != e.rid
  {
    DropView(n.invalidated, e.rid);
    FindSome(n.granted, e.rid);
  }

  lemma FinishViews(n: Node, e: Entry, mode: Mode, d: nat)
    requires NodeOK(n) && e in n.invalidated && Find(n.granted, e.rid).None?
    ensures var k := Finish(n, e, mode);
            if d == e.rid then
              Find(k.invalidated, d) == None && Find(k.granted, d) == if mode == Null then None else Some(e.(mode := mode))
            else
              Find(k.invalidated, d) == Find(n.invalidated, d) && Find(k.granted, d) == Find(n.granted, d)
  {
    var k := Finish(n, e, mode);
    FinishNode(n, e, mode);
    var added := if mode == Null then [] else [e.(mode := mode)];
    FindConcat(n.granted, added, d);
    assert Find([], d) == None;
    if d == e.rid { FindAbsent(k.invalidated, d); } else { FindSame(k.invalidated, n.invalidated, d); }
  }

  /** An answered invalidation leaves the server with exactly the mode that the mount has. */
  lemma FinishMount(n: Node, c: nat, m: Mount, a: Mode, b: Mode)
    requires NodeOK(n) && MountOK(n, c, m) && Response(a, b) in m.up
    ensures Find(n.invalidated, c).Some? && Find(n.granted, c).None?
    ensures var k := Finish(n, Find(n.invalidated, c).value, b);
            && MountOK(k, c, m.(up := m.up - multiset{Response(a, b)}))
            && Held(k, c) == b && Lowers(Held(n, c), b)
  {
    hide NodeOK, Find, Wires;
    var g, i, q, r :| MountOKWith(n, c, m, g, i, q, r);
    TakeResponse(m, g, i, q, r, a, b);
    FindSome(n.invalidated, c);
    var e := Find(n.invalidated, c).value;
    var k, m' := Finish(n, e, b), m.(up := m.up - multiset{Response(a, b)});
    FinishViews(n, e, b, c);
    assert Find(k.requested, c) == Find(n.requested, c);
    assert MountOKWith(k, c, m', g, i, q, None);
  }

  lemma FinishKnown(n: Node, e: Entry, mode: Mode, ids: set<nat>)
    requires NodeOK(n) && e in n.invalidated && Find(n.granted, e.rid).None? && Known(n, ids)
    ensures Known(Finish(n, e, mode), ids)
  {
    FinishNode(n, e, mode);
  }

  /** The invalidation is answered on the server's lists and waiting requests are not processed yet. */
  function Answered(s: Sys, c: nat, a: Mode, b: Mode): Sys
    requires c in s.mounts && Find(s.node.invalidated, c).Some?
  {
    WithMount(s, c, s.mounts[c].(up := s.mounts[c].up - multiset{Response(a, b)})).(node := Finish(s.node, Find(s.node.invalidated, c).value, b))
  }

  lemma AnsweredKeeps(s: Sys, c: nat, a: Mode, b: Mode)
    requires Inv(s) && Enabled(s, ServeResponseStep(c, a, b))
    ensures Find(s.node.invalidated, c).Some? && c !in s.recovering && NodeOK(s.node) && MountOK(s.node, c, s.mounts[c])
    ensures Core(Answered(s, c, a, b)) && Answered(s, c, a, b).mounts.Keys == s.mounts.Keys
    ensures forall d :: d in s.mounts && d != c ==> SameEntries(s.node, Answered(s, c, a, b).node, d)
    ensures Apply(s, ServeResponseStep(c, a, b)) == Processed(Answered(s, c, a, b))
  {
    hide MountOK, RecoveringOK, NodeOK, Exclusive, Known, Process, Find, InOrder;
    var m, n := s.mounts[c], s.node;
    if c in s.recovering {
      RecoveringIsIdle(s, c);
      assert false;
    }
    assert AgreesAt(s, c);
    FinishMount(n, c, m, a, b);
    FindSome(n.invalidated, c);
    var e := Find(n.invalidated, c).value;
    var k, t := Finish(n, e, b), Answered(s, c, a, b);
    assert t.mounts.Keys == s.mounts.Keys;
    FinishNode(n, e, b);
    FinishKnown(n, e, b, s.mounts.Keys);
    forall d | d in s.mounts && d != c ensures SameEntries(n, k, d) { FinishViews(n, e, b, d); }
    OneClient(s, t, c);
  }

  lemma ServeResponseKeeps(s: Sys, c: nat, a: Mode, b: Mode)
    requires Inv(s) && Enabled(s, ServeResponseStep(c, a, b))
    ensures Inv(Apply(s, ServeResponseStep(c, a, b)))
  {
    hide Inv, Core, Answered, Processed;
    AnsweredKeeps(s, c, a, b);
    ProcessKeeps(Answered(s, c, a, b));
  }

  lemma RecoverViews(n: Node, c: nat, m: Mount, d: nat)
    requires Find(n.granted, c).None?
    ensures Find(RecoverNode(n, c, m).granted, d) == if d == c && Present(m) then Some(Entry(c, n.next, m.mode)) else Find(n.granted, d)
  {
    FindConcat(n.granted, [Entry(c, n.next, m.mode)], d);
    assert Find([], d) == None;
  }

  lemma RecoverMount(n: Node, c: nat, m: Mount)
    requires NodeOK(n) && RecoveringOK(n, c, m)
    ensures MountOK(RecoverNode(n, c, m), c, m) && Held(RecoverNode(n, c, m), c) == m.mode
    ensures NodeOK(RecoverNode(n, c, m)) && Find(n.granted, c).None?
  {
    var q :| RecoveringOKWith(n, c, m, q);
    FindSome(n.granted, c);
    RecoverViews(n, c, m, c);
    assert MountOKWith(RecoverNode(n, c, m), c, m, None, None, q, None);
  }

  function Recovered(s: Sys, c: nat): Sys
    requires c in s.mounts
  {
    s.(node := RecoverNode(s.node, c, s.mounts[c]), recovering := s.recovering - {c})
  }

  lemma RecoveredKeeps(s: Sys, c: nat)
    requires Inv(s) && Enabled(s, RecoverStep(c))
    ensures Core(Recovered(s, c)) && RecoveringOK(s.node, c, s.mounts[c])
    ensures forall d :: d in s.mounts && d != c ==> SameEntries(s.node, Recovered(s, c).node, d)
  {
    hide MountOK, RecoveringOK, NodeOK, Exclusive, Find, InOrder, Process;
    var m, n, t := s.mounts[c], s.node, Recovered(s, c);
    assert AgreesAt(s, c);
    RecoverMount(n, c, m);
    forall d | d in s.mounts && d != c ensures SameEntries(n, t.node, d) { RecoverViews(n, c, m, d); }
    OneClient(s, t, c);
  }

  lemma RecoverKeeps(s: Sys, c: nat)
    requires Inv(s) && Enabled(s, RecoverStep(c))
    ensures Inv(Apply(s, RecoverStep(c)))
  {
    hide Inv, Core, Processed;
    RecoveredKeeps(s, c);
    ProcessKeeps(Recovered(s, c));
  }

  lemma ForgetViews(n: Node, c: nat, d: nat)
    requires NodeOK(n)
    ensures NodeOK(Forget(n, c))
    ensures var k := Forget(n, c);
            if d == c then Find(k.granted, d) == None && Find(k.requested, d) == None && Find(k.invalidated, d) == None
            else
              && Find(k.granted, d) == Find(n.granted, d) && Find(k.requested, d) == Find(n.requested, d)
              && Find(k.invalidated, d) == Find(n.invalidated, d)
  {
    var k := Forget(n, c);
    PurgeView(n.granted, c); PurgeView(n.requested, c); PurgeView(n.invalidated, c);
    PurgeRising(n.requested, c);
    if d == c {
      FindAbsent(k.granted, d); FindAbsent(k.requested, d); FindAbsent(k.invalidated, d);
    } else {
      FindSame(k.granted, n.granted, d); FindSame(k.requested, n.requested, d); FindSame(k.invalidated, n.invalidated, d);
    }
  }

  lemma ForgetNode(n: Node, c: nat, ids: set<nat>, log: seq<Out>, version: nat)
    requires NodeOK(n) && Known(n, ids) && LogOK(log, n, version)
    ensures Known(Forget(n, c), ids) && LogOK(log, Forget(n, c), version)
    ensures n.invalidated == [] ==> Forget(n, c).invalidated == []
  {
    PurgeView(n.granted, c); PurgeView(n.requested, c); PurgeView(n.invalidated, c);
  }

  lemma FreshAgrees(n: Node, c: nat)
    requires Find(n.granted, c).None? && Find(n.requested, c).None? && Find(n.invalidated, c).None?
    ensures MountOK(n, c, FreshMount) && Held(n, c) == Null
  {
    assert MountOKWith(n, c, FreshMount, None, None, None, None);
  }

  lemma FarewellKeeps(s: Sys, c: nat)
    requires Inv(s) && Enabled(s, FarewellStep(c))
    ensures Inv(Apply(s, FarewellStep(c)))
  {
    hide MountOK, Purge, NodeOK, Exclusive, Mounts, Known, Find, LogOK, Process;
    var n, k := s.node, Forget(s.node, c);
    var t := WithMount(s, c, FreshMount).(node := k);
    assert t.mounts.Keys == s.mounts.Keys;
    ForgetViews(n, c, c);
    ForgetNode(n, c, s.mounts.Keys, s.log, s.version);
    forall d | d in s.mounts && d != c ensures SameEntries(n, k, d) { ForgetViews(n, c, d); }
    FreshAgrees(k, c);
    OneClient(s, t, c);
    if k == n { InstallNothing(t); } else { ProcessKeeps(t); }
  }

  // ---- whole runs

  lemma VersionKeeps(s: Sys, c: nat)
    requires Inv(s)
    ensures Inv(s.(version := s.version + 1))
  {
    hide MountOK, RecoveringOK, NodeOK, InOrder, Held;
    var t := s.(version := s.version + 1);
    forall d | d in t.mounts ensures AgreesAt(t, d) { assert AgreesAt(s, d); }
    forall a, b | a in t.mounts && b in t.mounts && a != b ensures Coexist(HeldBy(t, a), HeldBy(t, b)) {
      assert Coexist(HeldBy(s, a), HeldBy(s, b));
    }
  }

  lemma StepKeeps(s: Sys, t: Step)
    requires Inv(s) && Enabled(s, t)
    ensures Inv(Apply(s, t))
  {
    hide Inv;
    match t {
      case ServeRequestStep(c, mode) => ServeRequestKeeps(s, c, mode);
      case ServeResponseStep(c, a, b) => ServeResponseKeeps(s, c, a, b);
      case RecoverStep(c) => RecoverKeeps(s, c);
      case FarewellStep(c) => FarewellKeeps(s, c);
      case OtherLockVersionStep(c) => VersionKeeps(s, c);
      case _ => if ClientWork(t) { ClientWorkKeeps(s, t); } else { UserStepKeeps(s, t); }
    }
  }

  lemma StartingWith(c: nat, m: Mount, q: Option<ToServer>)
    requires Outstanding(m, None, None, q, None) && RequestOK(m, None, None, q) && UsersMatch(m) && !m.ready && m.grant.None? && m.inv.None?
    ensures RecoveringOK(EmptyNode, c, m)
    ensures m.mode == Null ==> MountOK(EmptyNode, c, m)
  {
    hide Outstanding, RequestOK, UsersMatch;
    assert RecoveringOKWith(EmptyNode, c, m, q);
    assert m.mode == Null ==> MountOKWith(EmptyNode, c, m, None, None, q, None);
  }

  lemma StartingMount(c: nat, m: Mount)
    requires Starting(m)
    ensures RecoveringOK(EmptyNode, c, m)
    ensures m.mode == Null ==> MountOK(EmptyNode, c, m)
  {
    var q: Option<ToServer> := None;
    if m.pending {
      var mode: Mode :| m.up == multiset{Request(mode)} && WaitsOn(m, mode);
      q := Some(Request(mode));
    }
    assert Outstanding(m, None, None, q, None);
    assert RequestOK(m, None, None, q);
    StartingWith(c, m, q);
  }

  lemma InitHolds(s: Sys)
    requires Init(s)
    ensures Inv(s)
  {
    hide MountOK, RecoveringOK, Starting;
    forall c | c in s.mounts ensures AgreesAt(s, c) && HeldBy(s, c) == s.mounts[c].mode { StartingMount(c, s.mounts[c]); }
    assert Exclusive(s) by {
      forall c, d | c in s.mounts && d in s.mounts && c != d ensures Coexist(HeldBy(s, c), HeldBy(s, d)) {}
    }
  }

  lemma {:induction false} RunKeeps(s: Sys, steps: seq<Step>)
    requires Inv(s) && ValidRun(s, steps)
    ensures Inv(Run(s, steps))
    decreases |steps|
  {
    if steps != [] {
      StepKeeps(s, steps[0]);
      RunKeeps(Apply(s, steps[0]), steps[1..]);
    }
  }
}
