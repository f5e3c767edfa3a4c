/** Server processing keeps every mount in agreement with the server and every pair of mounts exclusive. */
module LockServerProofs {
  import opened Wrappers
  import opened LockModes
  import opened LockServer
  import opened LockProtocol

  /** A mount only depends on the server's entries for that mount. */
  lemma SameView(n: Node, k: Node, c: nat, m: Mount)
    requires Find(n.granted, c) == Find(k.granted, c)
    requires Find(n.requested, c) == Find(k.requested, c)
    requires Find(n.invalidated, c) == Find(k.invalidated, c)
    ensures Held(n, c) == Held(k, c)
    ensures MountOK(n, c, m) ==> MountOK(k, c, m)
    ensures RecoveringOK(n, c, m) ==> RecoveringOK(k, c, m)
  {
    hide Wires, Find;
    if MountOK(n, c, m) {
      var g, i, q, r :| MountOKWith(n, c, m, g, i, q, r);
      assert MountOKWith(k, c, m, g, i, q, r);
    }
    if RecoveringOK(n, c, m) {
      var q :| RecoveringOKWith(n, c, m, q);
      assert RecoveringOKWith(k, c, m, q);
    }
  }

  // ---- granting the first request

  ghost predicate CanGrant(n: Node) {
    NodeOK(n) && n.requested != [] && n.invalidated == [] && Keep(n.granted, n.requested[0], false) == []
  }

  lemma AllCompatible(n: Node)
    requires CanGrant(n)
    ensures forall e :: e in n.granted ==> Compatible(e, n.requested[0])
  {
    KeepView(n.granted, n.requested[0], false);
    forall e | e in n.granted ensures Compatible(e, n.requested[0]) {
      assert e !in Keep(n.granted, n.requested[0], false);
    }
  }

  lemma GrantNode(n: Node, version: nat)
    requires CanGrant(n)
    ensures NodeOK(GrantFirst(n, version).node)
    ensures forall e :: e in GrantFirst(n, version).node.granted <==>
                        (e in n.granted && e.rid != n.requested[0].rid) || (e == n.requested[0] && e.mode != Null)
  {
    var req := n.requested[0];
    DropView(n.granted, req.rid);
    var d := Drop(n.granted, req.rid);
    assert forall j :: 0 <= j < |d| ==> d[j] in d;
  }

  lemma GrantViews(n: Node, version: nat, d: nat)
    requires CanGrant(n)
    ensures var k, req := GrantFirst(n, version).node, n.requested[0];
            if d == req.rid then
              && Find(k.granted, d) == (if req.mode == Null then None else Some(req))
              && Find(k.requested, d) == None && Find(n.requested, d) == Some(req)
            else
              Find(k.granted, d) == Find(n.granted, d) && Find(k.requested, d) == Find(n.requested, d)
  {
    var k, req := GrantFirst(n, version).node, n.requested[0];
    GrantNode(n, version);
    if d == req.rid {
      if req.mode == Null {
        FindAbsent(k.granted, d);
      } else {
        var i :| 0 <= i < |k.granted| && k.granted[i] == req;
        FindIs(k.granted, i);
      }
      FindAbsent(k.requested, d);
    } else {
      FindSame(k.granted, n.granted, d);
    }
  }

  /** The granted client finds its grant outstanding, from the mode it has to the mode on record. */
  lemma GrantMount(n: Node, version: nat, m: Mount)
    requires CanGrant(n) && MountOK(n, n.requested[0].rid, m)
    ensures MountOK(GrantFirst(n, version).node, n.requested[0].rid,
                    m.(down := m.down + multiset{ToMsg(GrantFirst(n, version).sent[0])}))
  {
    var req := n.requested[0];
    var c, k, x := req.rid, GrantFirst(n, version).node, ToMsg(GrantFirst(n, version).sent[0]);
    var g, i, q, r :| MountOKWith(n, c, m, g, i, q, r);
    GrantViews(n, version, c);
    AllCompatible(n);
    FindSome(n.granted, c);
    AddGrant(m, g, i, q, r, x);
    hide Wires;
    assert MountOKWith(k, c, m.(down := m.down + multiset{x}), Some(x), i, q, r);
  }

  lemma GrantExclusive(n: Node, version: nat, c: nat, d: nat)
    requires CanGrant(n) && c != d && Coexist(Held(n, c), Held(n, d))
    ensures Coexist(Held(GrantFirst(n, version).node, c), Held(GrantFirst(n, version).node, d))
  {
    GrantViews(n, version, c);
    GrantViews(n, version, d);
    AllCompatible(n);
    FindSome(n.granted, c);
    FindSome(n.granted, d);
  }

  // ---- invalidating the conflicting grants

  lemma KeepFind(list: seq<Entry>, req: Entry, c: bool, d: nat)
    requires Unique(list)
    ensures var e := Find(list, d);
            Find(Keep(list, req, c), d) == if e.Some? && Compatible(e.value, req) == c then e else None
  {
    hide Keep, Compatible, Find;
    var e := Find(list, d);
    KeepView(list, req, c);
    FindSome(list, d);
    if e.Some? {
      var j :| 0 <= j < |list| && list[j] == e.value;
      if Compatible(e.value, req) == c {
        FindSame(Keep(list, req, c), list, d);
      } else {
        FindAbsent(Keep(list, req, c), d);
      }
    } else {
      FindAbsent(Keep(list, req, c), d);
    }
  }

  ghost predicate CanConflict(n: Node) {
    NodeOK(n) && n.requested != [] && n.invalidated == []
  }

  lemma InvalidateNode(n: Node, version: nat)
    requires CanConflict(n)
    ensures NodeOK(InvalidateFor(n, version).node)
    ensures InvalidateFor(n, version).node.invalidated == Keep(n.granted, n.requested[0], false)
  {
    KeepView(n.granted, n.requested[0], true);
    KeepView(n.granted, n.requested[0], false);
    assert n.invalidated + Keep(n.granted, n.requested[0], false) == Keep(n.granted, n.requested[0], false);
  }

  /** Each grant either stays or becomes invalidated, depending on whether it conflicts. */
  lemma InvalidateViews(n: Node, version: nat, d: nat)
    requires CanConflict(n)
    ensures var k, e := InvalidateFor(n, version).node, Find(n.granted, d);
            if e.Some? && !Compatible(e.value, n.requested[0]) then
              Find(k.granted, d) == None && Find(k.invalidated, d) == e
            else
              Find(k.granted, d) == e && Find(k.invalidated, d) == None
  {
    InvalidateNode(n, version);
    KeepFind(n.granted, n.requested[0], true, d);
    KeepFind(n.granted, n.requested[0], false, d);
  }

  lemma {:induction false} InvalidationsSentTo(list: seq<Entry>, mode: Mode, d: nat)
    requires Unique(list)
    ensures SentTo(Invalidations(list, mode), d) ==
            match Find(list, d)
            case None => multiset{}
            case Some(e) => multiset{Invalidate(e.mode, InvalidationMode(e.mode, mode))}
  {
    if list != [] {
      var front, last := list[..|list| - 1], list[|list| - 1];
      InvalidationsSentTo(front, mode, d);
      assert list == front + [last];
      FindConcat(front, [last], d);
      FindSome(front, d);
      var all := Invalidations(list, mode);
      assert all[..|all| - 1] == Invalidations(front, mode);
    }
  }

  lemma AddInvalidate(m: Mount, g: Option<ToClient>, i: Option<ToClient>, q: Option<ToServer>, r: Option<ToServer>, x: ToClient)
    requires Outstanding(m, g, i, q, r) && i.None? && !m.ready && x.Invalidate?
    ensures Outstanding(m.(down := m.down + multiset{x}), g, Some(x), q, r)
  {
    assert Bag(Some(x)) == multiset{x};
  }

  lemma AddGrant(m: Mount, g: Option<ToClient>, i: Option<ToClient>, q: Option<ToServer>, r: Option<ToServer>, x: ToClient)
    requires Outstanding(m, g, i, q, r) && g.None? && x.Grant?
    ensures Outstanding(m.(down := m.down + multiset{x}), Some(x), i, q, r)
  {
    assert Bag(Some(x)) == multiset{x};
  }

  /** A mount whose grant becomes invalidated finds the invalidation outstanding. */
  lemma InvalidatedMount(n: Node, k: Node, d: nat, m: Mount, x: ToClient)
    requires MountOK(n, d, m) && x.Invalidate?
    requires Find(n.granted, d).Some? && Find(n.invalidated, d).None?
    requires Find(k.granted, d).None? && Find(k.invalidated, d) == Find(n.granted, d)
    requires Find(k.requested, d) == Find(n.requested, d)
    requires x.old_ == Held(n, d) && Lowers(x.old_, x.new_)
    ensures MountOK(k, d, m.(down := m.down + multiset{x}))
  {
    hide Wires, Find;
    var g, i, q, r :| MountOKWith(n, d, m, g, i, q, r);
    AddInvalidate(m, g, i, q, r, x);
    assert MountOKWith(k, d, m.(down := m.down + multiset{x}), g, Some(x), q, r);
  }

  lemma InvalidateMount(n: Node, version: nat, d: nat, m: Mount)
    requires CanConflict(n) && MountOK(n, d, m)
    ensures MountOK(InvalidateFor(n, version).node, d, m.(down := m.down + SentTo(InvalidateFor(n, version).sent, d)))
    ensures Held(InvalidateFor(n, version).node, d) == Held(n, d)
  {
    var k, req := InvalidateFor(n, version).node, n.requested[0];
    InvalidateViews(n, version, d);
    InvalidateNode(n, version);
    InvalidationsSentTo(k.invalidated, req.mode, d);
    var e := Find(k.invalidated, d);
    if e.None? {
      assert m.(down := m.down + SentTo(InvalidateFor(n, version).sent, d)) == m;
      SameView(n, k, d, m);
    } else {
      InvalidatedMount(n, k, d, m, Invalidate(e.value.mode, InvalidationMode(e.value.mode, req.mode)));
    }
  }

  // ---- processing, one request at a time

  lemma {:induction false} SentToConcat(a: seq<Out>, b: seq<Out>, d: nat)
    ensures SentTo(a + b, d) == SentTo(a, d) + SentTo(b, d)
  {
    if b == [] {
      assert a + b == a;
    } else {
      assert (a + b)[..|a + b| - 1] == a + b[..|b| - 1];
      SentToConcat(a, b[..|b| - 1], d);
    }
  }

  /** Putting a batch of messages in flight is the same as putting its parts in flight one after the other. */
  lemma InstallConcat(s: Sys, a: Result, b: Result)
    ensures Install(s, Result(b.node, b.version, a.sent + b.sent)) == Install(Install(s, a), b)
  {
    var x, y := Install(s, Result(b.node, b.version, a.sent + b.sent)), Install(Install(s, a), b);
    forall c | c in s.mounts ensures x.mounts[c] == y.mounts[c] {
      SentToConcat(a.sent, b.sent, c);
      assert s.mounts[c].down + (SentTo(a.sent, c) + SentTo(b.sent, c)) == s.mounts[c].down + SentTo(a.sent, c) + SentTo(b.sent, c);
    }
    assert x.mounts == y.mounts;
    assert x.log == y.log;
  }

  lemma InstallNothing(s: Sys)
    ensures Install(s, Result(s.node, s.version, [])) == s
  {
    var x := Install(s, Result(s.node, s.version, []));
    forall c | c in s.mounts ensures x.mounts[c] == s.mounts[c] {
      assert s.mounts[c].down + multiset{} == s.mounts[c].down;
    }
    assert x.mounts == s.mounts;
  }

  lemma GrantLog(n: Node, log: seq<Out>, version: nat)
    requires CanGrant(n) && LogOK(log, n, version)
    ensures var one := GrantFirst(n, version); LogOK(log + one.sent, one.node, one.version)
  {
    var one := GrantFirst(n, version);
    var all := log + one.sent;
    assert n.requested[0] in n.requested;
    assert forall e :: e in one.node.requested ==> e in n.requested && n.requested[0].tseq < e.tseq;
    assert forall o :: o in all ==> o in log || o == one.sent[0];
    assert forall i :: 0 <= i < |log| ==> all[i] == log[i] && log[i] in log;
  }

  lemma GrantMounts(s: Sys, c: nat)
    requires CanGrant(s.node) && c in s.mounts && MountOK(s.node, c, s.mounts[c])
    ensures var t := Install(s, GrantFirst(s.node, s.version)); MountOK(t.node, c, t.mounts[c])
  {
    var n := s.node;
    var one := GrantFirst(n, s.version);
    GrantViews(n, s.version, c);
    assert one.sent[..|one.sent| - 1] == [];
    if c == n.requested[0].rid {
      GrantMount(n, s.version, s.mounts[c]);
      assert SentTo(one.sent, c) == multiset{ToMsg(one.sent[0])};
    } else {
      assert SentTo(one.sent, c) == multiset{};
      assert Install(s, one).mounts[c] == s.mounts[c];
      SameView(n, one.node, c, s.mounts[c]);
    }
  }

  lemma GrantKnown(n: Node, version: nat, ids: set<nat>)
    requires CanGrant(n) && Known(n, ids)
    ensures Known(GrantFirst(n, version).node, ids)
  {
    GrantNode(n, version);
    assert n.requested[0] in n.requested;
  }

  lemma GrantKeeps(s: Sys)
    requires Core(s) && s.recovering == {} && CanGrant(s.node)
    ensures Core(Install(s, GrantFirst(s.node, s.version)))
  {
    hide MountOK, LogOK, Held, NodeOK, Known, GrantFirst, SentTo;
    var n, t := s.node, Install(s, GrantFirst(s.node, s.version));
    assert t.mounts.Keys == s.mounts.Keys;
    assert Mounts(t) by {
      forall c | c in t.mounts ensures AgreesAt(t, c) {
        assert AgreesAt(s, c);
        GrantMounts(s, c);
      }
    }
    assert Exclusive(t) by {
      forall c, d | c in t.mounts && d in t.mounts && c != d ensures Coexist(HeldBy(t, c), HeldBy(t, d)) {
        assert Coexist(HeldBy(s, c), HeldBy(s, d));
        GrantExclusive(n, s.version, c, d);
      }
    }
    GrantNode(n, s.version);
    GrantKnown(n, s.version, s.mounts.Keys);
    GrantLog(n, s.log, s.version);
  }

  lemma {:induction false} InvalidationsAreNotGrants(list: seq<Entry>, mode: Mode)
    ensures forall o :: o in Invalidations(list, mode) ==> o.InvalidateTo?
  {
    if list != [] { InvalidationsAreNotGrants(list[..|list| - 1], mode); }
  }

  lemma InvalidateLog(n: Node, log: seq<Out>, version: nat)
    requires CanConflict(n) && LogOK(log, n, version)
    ensures var r := InvalidateFor(n, version); LogOK(log + r.sent, r.node, r.version)
  {
    var r := InvalidateFor(n, version);
    var all := log + r.sent;
    InvalidationsAreNotGrants(Keep(n.granted, n.requested[0], false), n.requested[0].mode);
    assert forall i :: |log| <= i < |all| ==> all[i] in r.sent;
    assert forall i :: 0 <= i < |log| ==> all[i] == log[i] && log[i] in log;
    assert forall o :: o in all ==> o in log || o in r.sent;
  }

  lemma InvalidateKnown(n: Node, version: nat, ids: set<nat>)
    requires CanConflict(n) && Known(n, ids)
    ensures Known(InvalidateFor(n, version).node, ids)
  {
    InvalidateNode(n, version);
    KeepView(n.granted, n.requested[0], true);
    KeepView(n.granted, n.requested[0], false);
  }

  lemma InvalidateKeeps(s: Sys)
    requires Core(s) && s.recovering == {} && CanConflict(s.node)
    ensures Core(Install(s, InvalidateFor(s.node, s.version)))
  {
    hide MountOK, LogOK, Held, NodeOK, Known, InvalidateFor, SentTo;
    var n, t := s.node, Install(s, InvalidateFor(s.node, s.version));
    assert t.mounts.Keys == s.mounts.Keys;
    forall c | c in t.mounts ensures AgreesAt(t, c) && Held(t.node, c) == Held(n, c) {
      assert AgreesAt(s, c);
      InvalidateMount(n, s.version, c, s.mounts[c]);
    }
    assert Exclusive(t) by {
      forall c, d | c in t.mounts && d in t.mounts && c != d ensures Coexist(HeldBy(t, c), HeldBy(t, d)) {
        assert Coexist(HeldBy(s, c), HeldBy(s, d));
      }
    }
    InvalidateNode(n, s.version);
    InvalidateKnown(n, s.version, s.mounts.Keys);
    InvalidateLog(n, s.log, s.version);
  }

  /** Processing stops only when nothing waits, or an invalidation or recovery is outstanding. */
  lemma {:induction false} ProcessKeeps(s: Sys)
    requires Core(s)
    ensures Inv(Processed(s))
    decreases |s.node.requested|
  {
    hide Mounts, Exclusive, LogOK, Known;
    var n := s.node;
    if s.recovering != {} || n.invalidated != [] || n.requested == [] {
      InstallNothing(s);
    } else if Keep(n.granted, n.requested[0], false) != [] {
      InvalidateNode(n, s.version);
      InvalidateKeeps(s);
    } else {
      var one := GrantFirst(n, s.version);
      GrantKeeps(s);
      ProcessKeeps(Install(s, one));
      InstallConcat(s, one, Process(one.node, false, one.version));
    }
  }
}
