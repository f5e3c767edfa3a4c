/**
  The protocol ends: every step of the lock machinery lowers the work that is left,
  so that requests are granted unless a mount's users hold up an invalidation.
*/
module LockProgress {
  import opened Wrappers
  import opened LockModes
  import opened LockServer
  import opened LockProtocol
  import opened LockClientProofs
  import opened LockServerProofs
  import opened LockTheorems
  import opened LockResults

  // ---- the work that is left for a mount

  /** A grant can only be invalidated to a lower rank, and is gone after the lowest. */
  function Rank(mode: Mode): nat {
    match mode
    case Null => 1
    case Read => 2
    case WriteOnly => 2
    case Write => 3
  }

  function Requests(up: multiset<ToServer>): nat {
    up[Request(Null)] + up[Request(Read)] + up[Request(Write)] + up[Request(WriteOnly)]
  }

  ghost predicate AnswerComes(m: Mount) {
    exists x :: x in m.up && x.Response?
  }

  ghost predicate GrantComes(m: Mount) {
    exists x :: x in m.down && x.Grant?
  }

  /** A grant that was sent has to be received and applied. */
  ghost function GrantWork(m: Mount): nat {
    if m.grant.Some? then 1 else if GrantComes(m) then 2 else 0
  }

  /** How far an invalidation has come: sent, received, under way or answered. */
  ghost function Stage(m: Mount): nat {
    if m.ready then 3 else if m.inv.Some? then 2 else if AnswerComes(m) then 4 else 1
  }

  ghost function EntryWork(gr: Option<Entry>, iv: Option<Entry>, m: Mount): nat {
    if gr.Some? then 6 * Rank(gr.value.mode)
    else if iv.Some? then 6 * Rank(iv.value.mode) - Stage(m)
    else 0
  }

  ghost function Work(n: Node, recovering: bool, c: nat, m: Mount): nat {
    (if recovering then 20 else 0) + 22 * Requests(m.up) + (if Find(n.requested, c).Some? then 21 else 0)
      + EntryWork(Find(n.granted, c), Find(n.invalidated, c), m) + GrantWork(m)
  }

  ghost function WorkAt(s: Sys, c: nat): nat
    requires c in s.mounts
  {
    Work(s.node, c in s.recovering, c, s.mounts[c])
  }

  // ---- the server's processing adds no work

  /** A mount's work after more messages to it, when the server's entries for it are the same. */
  lemma SameWork(n: Node, k: Node, rec: bool, c: nat, m: Mount)
    requires Find(n.granted, c) == Find(k.granted, c) && Find(n.requested, c) == Find(k.requested, c)
    requires Find(n.invalidated, c) == Find(k.invalidated, c)
    ensures Work(n, rec, c, m) == Work(k, rec, c, m)
  {
    hide Find;
  }

  lemma GrantedWork(n: Node, version: nat, m: Mount)
    requires CanGrant(n)
    ensures var r, c := GrantFirst(n, version), n.requested[0].rid;
            Work(r.node, false, c, m.(down := m.down + SentTo(r.sent, c))) <= Work(n, false, c, m)
  {
    var r, c := GrantFirst(n, version), n.requested[0].rid;
    GrantViews(n, version, c);
    assert r.node.invalidated == [] && Find([], c) == None;
    hide Find, SentTo;
  }

  lemma SentOne(o: Out, d: nat)
    ensures SentTo([o], d) == if o.rid == d then multiset{ToMsg(o)} else multiset{}
  {
    assert [o][..0] == [];
    assert SentTo([], d) == multiset{};
  }

  lemma GrantsLessWork(s: Sys, c: nat)
    requires s.recovering == {} && CanGrant(s.node) && c in s.mounts
    ensures WorkAt(Install(s, GrantFirst(s.node, s.version)), c) <= WorkAt(s, c)
  {
    hide Find, SentTo, Work;
    var n, m, r := s.node, s.mounts[c], GrantFirst(s.node, s.version);
    if c == n.requested[0].rid {
      GrantedWork(n, s.version, m);
    } else {
      GrantViews(n, s.version, c);
      SentOne(r.sent[0], c);
      assert r.sent == [r.sent[0]];
      assert m.(down := m.down + multiset{}) == m;
      SameWork(n, r.node, false, c, m);
    }
  }

  lemma MoreInvalidates(m: Mount, sent: multiset<ToClient>)
    requires forall x :: x in sent ==> x.Invalidate?
    ensures GrantWork(m.(down := m.down + sent)) == GrantWork(m) && Stage(m.(down := m.down + sent)) == Stage(m)
  {
    var m' := m.(down := m.down + sent);
    if GrantComes(m) {
      var x :| x in m.down && x.Grant?;
      assert x in m'.down;
    }
    if GrantComes(m') {
      var x :| x in m'.down && x.Grant?;
      assert x in m.down;
    }
  }

  lemma InvalidatesLessWork(s: Sys, c: nat)
    requires s.recovering == {} && CanConflict(s.node) && c in s.mounts
    ensures WorkAt(Install(s, InvalidateFor(s.node, s.version)), c) <= WorkAt(s, c)
  {
    hide Find, SentTo, GrantWork, Stage, Keep;
    var n, m, r := s.node, s.mounts[c], InvalidateFor(s.node, s.version);
    InvalidateViews(n, s.version, c);
    KeepView(n.granted, n.requested[0], false);
    InvalidationsSentTo(Keep(n.granted, n.requested[0], false), n.requested[0].mode, c);
    MoreInvalidates(m, SentTo(r.sent, c));
    FindNone(c);
  }

  lemma FindNone(c: nat)
    ensures Find([], c) == None
  {
  }

  lemma {:induction false} ProcessLessWork(s: Sys, c: nat)
    requires Core(s) && c in s.mounts
    ensures WorkAt(Processed(s), c) <= WorkAt(s, c)
    decreases |s.node.requested|
  {
    hide Mounts, Exclusive, LogOK, Known, Work;
    var n := s.node;
    if s.recovering != {} || n.invalidated != [] || n.requested == [] {
      InstallNothing(s);
    } else if Keep(n.granted, n.requested[0], false) != [] {
      InvalidatesLessWork(s, c);
    } else {
      var one := GrantFirst(n, s.version);
      GrantKeeps(s);
      GrantsLessWork(s, c);
      ProcessLessWork(Install(s, one), c);
      InstallConcat(s, one, Process(one.node, false, one.version));
    }
  }

  // ---- each step takes work away from its mount

  /** What is in flight to and from a mount, counted. */
  lemma Counted(m: Mount, g: Option<ToClient>, i: Option<ToClient>, q: Option<ToServer>, r: Option<ToServer>)
    requires Outstanding(m, g, i, q, r)
    ensures AnswerComes(m) <==> r.Some?
    ensures GrantComes(m) <==> g.Some? && m.grant.None?
  {
    if g.Some? && m.grant.None? { assert g.value in m.down; }
    if r.Some? { assert r.value in m.up; }
  }

  lemma ReceiveGrantWork(n: Node, c: nat, m: Mount, x: ToClient)
    requires MountOK(n, c, m) && x.Grant? && x in m.down
    ensures Work(n, false, c, ReceiveGrant(m, x)) < Work(n, false, c, m)
  {
    hide Find, Held, UsersMatch, RequestOK, InvalidateOK, Outstanding, Requests;
    var g, i, q, r :| MountOKWith(n, c, m, g, i, q, r);
    GrantArrives(m, x, g, i, q, r);
    assert GrantComes(m);
  }

  lemma ReceiveInvalidateWork(n: Node, c: nat, m: Mount, x: ToClient)
    requires MountOK(n, c, m) && x.Invalidate? && x in m.down
    ensures Work(n, false, c, ReceiveInvalidate(m, x)) < Work(n, false, c, m)
  {
    hide Find, Held, UsersMatch, RequestOK, Outstanding, Requests;
    var g, i, q, r :| MountOKWith(n, c, m, g, i, q, r);
    InvalidateArrives(m, x, g, i, q, r);
    Counted(m, g, i, q, r);
    ReceiveInvalidateKeeps(n, c, m, x);
    LessDown(m, x);
  }

  lemma LessDown(m: Mount, x: ToClient)
    requires x.Invalidate? && x in m.down
    ensures GrantComes(ReceiveInvalidate(m, x)) <==> GrantComes(m)
  {
    var m' := ReceiveInvalidate(m, x);
    if GrantComes(m) {
      var y :| y in m.down && y.Grant?;
      assert y in m'.down;
    }
    if GrantComes(m') {
      var y :| y in m'.down && y.Grant?;
      assert y in m.down;
    }
  }

  lemma ApplyGrantWork(n: Node, c: nat, m: Mount)
    requires MountOK(n, c, m) && CanApplyGrant(m)
    ensures Work(n, false, c, ApplyGrant(m)) < Work(n, false, c, m)
  {
    hide Find, Held, UsersMatch, RequestOK, InvalidateOK, Requests, Outstanding;
    var g, i, q, r :| MountOKWith(n, c, m, g, i, q, r);
    Counted(m, g, i, q, r);
  }

  lemma StartInvalidateWork(n: Node, c: nat, m: Mount)
    requires MountOK(n, c, m) && CanInvalidate(m)
    ensures Work(n, false, c, StartInvalidate(m)) < Work(n, false, c, m)
  {
    hide Find, Held, UsersMatch, RequestOK, Requests;
    var g, i, q, r :| MountOKWith(n, c, m, g, i, q, r);
  }

  lemma FinishInvalidateWork(n: Node, c: nat, m: Mount)
    requires MountOK(n, c, m) && m.ready && m.inv.Some?
    ensures Work(n, false, c, FinishInvalidate(m)) < Work(n, false, c, m)
  {
    hide Find, Held, UsersMatch, RequestOK, Outstanding;
    var g, i, q, r :| MountOKWith(n, c, m, g, i, q, r);
    var x := Response(m.inv.value.old_, m.inv.value.new_);
    assert x in FinishInvalidate(m).up;
  }

  lemma TakenRequest(m: Mount, mode: Mode)
    requires Request(mode) in m.up
    ensures Requests(m.up) == Requests(m.up - multiset{Request(mode)}) + 1
    ensures AnswerComes(m.(up := m.up - multiset{Request(mode)})) <==> AnswerComes(m)
  {
    var m' := m.(up := m.up - multiset{Request(mode)});
    if AnswerComes(m) {
      var x :| x in m.up && x.Response?;
      assert x in m'.up;
    }
    if AnswerComes(m') {
      var x :| x in m'.up && x.Response?;
      assert x in m.up;
    }
  }

  lemma EnqueueWork(n: Node, rec: bool, c: nat, m: Mount, mode: Mode)
    requires Request(mode) in m.up && Find(n.requested, c).None?
    ensures Work(Enqueue(n, c, mode), rec, c, m.(up := m.up - multiset{Request(mode)})) < Work(n, rec, c, m)
  {
    EnqueueViews(n, c, mode, c);
    hide Find, Requests, Answered;
    TakenRequest(m, mode);
  }

  lemma FinishWork(n: Node, c: nat, m: Mount, a: Mode, b: Mode)
    requires NodeOK(n) && MountOK(n, c, m) && Response(a, b) in m.up
    ensures Find(n.invalidated, c).Some?
    ensures Work(Finish(n, Find(n.invalidated, c).value, b), false, c, m.(up := m.up - multiset{Response(a, b)})) < Work(n, false, c, m)
  {
    hide Find, NodeOK, Wires, UsersMatch, RequestOK, GrantWork, Requests;
    FinishMount(n, c, m, a, b);
    var e := Find(n.invalidated, c).value;
    FindSome(n.invalidated, c);
    FinishViews(n, e, b, c);
    TakenResponse(m, a, b);
    assert ModeOf(Some(e)) == Held(n, c);
  }

  lemma TakenResponse(m: Mount, a: Mode, b: Mode)
    requires Response(a, b) in m.up
    ensures var m' := m.(up := m.up - multiset{Response(a, b)});
            Requests(m'.up) == Requests(m.up) && GrantWork(m') == GrantWork(m) && Stage(m) <= 4
  {
    hide Answered;
    var m' := m.(up := m.up - multiset{Response(a, b)});
    assert GrantComes(m') <==> GrantComes(m);
  }

  lemma RecoverWork(n: Node, c: nat, m: Mount)
    requires Find(n.granted, c).None? && Find(n.invalidated, c).None?
    ensures Work(RecoverNode(n, c, m), false, c, m) < Work(n, true, c, m)
  {
    RecoverViews(n, c, m, c);
    hide Find, Requests, GrantWork;
  }

  // ---- the work of all mounts

  ghost function WorkOf(s: Sys): map<nat, nat> {
    map c | c in s.mounts :: WorkAt(s, c)
  }

  ghost function Sum(w: map<nat, nat>): nat
    decreases |w|
  {
    if w == map[] then 0 else
      var c :| c in w;
      w[c] + Sum(w - {c})
  }

  lemma {:induction false} SumWithout(w: map<nat, nat>, c: nat)
    requires c in w
    ensures Sum(w) == w[c] + Sum(w - {c})
    decreases |w|
  {
    var d :| d in w && Sum(w) == w[d] + Sum(w - {d});
    if d != c {
      SumWithout(w - {d}, c);
      SumWithout(w - {c}, d);
      assert w - {d} - {c} == w - {c} - {d};
    }
  }

  lemma {:induction false} SumAtMost(w: map<nat, nat>, w': map<nat, nat>)
    requires w'.Keys == w.Keys && forall c :: c in w ==> w'[c] <= w[c]
    ensures Sum(w') <= Sum(w)
    decreases |w|
  {
    if w == map[] {
      assert w' == map[];
    } else {
      var c :| c in w;
      assert c in w';
      SumWithout(w, c);
      SumWithout(w', c);
      SumAtMost(w - {c}, w' - {c});
    }
  }

  lemma {:induction false} SumLess(w: map<nat, nat>, w': map<nat, nat>, c: nat)
    requires w'.Keys == w.Keys && (forall d :: d in w ==> w'[d] <= w[d]) && c in w && w'[c] < w[c]
    ensures Sum(w') < Sum(w)
  {
    hide Sum;
    assert c in w';
    SumWithout(w, c);
    SumWithout(w', c);
    SumAtMost(w - {c}, w' - {c});
  }

  /** The work that is left, which only requests add to. */
  ghost function WorkLeft(s: Sys): nat {
    Sum(WorkOf(s))
  }

  lemma LessLeft(s: Sys, t: Sys, c: nat)
    requires t.mounts.Keys == s.mounts.Keys && c in s.mounts && WorkAt(t, c) < WorkAt(s, c)
    requires forall d :: d in s.mounts ==> WorkAt(t, d) <= WorkAt(s, d)
    ensures WorkLeft(t) < WorkLeft(s)
  {
    hide Sum, WorkAt;
    SumLess(WorkOf(s), WorkOf(t), c);
  }

  // ---- every step of the machinery lowers it

  lemma ClientWorkLowers(s: Sys, t: Step)
    requires Inv(s) && Enabled(s, t) && ClientWork(t)
    ensures WorkLeft(Apply(s, t)) < WorkLeft(s)
  {
    hide MountOK, RecoveringOK, LogOK, NodeOK, Known, Exclusive, Work, WorkLeft;
    var m := s.mounts[t.c];
    if t.c in s.recovering {
      RecoveringIsIdle(s, t.c);
      assert false;
    }
    assert AgreesAt(s, t.c);
    match t {
      case ReceiveGrantStep(c, g) => ReceiveGrantWork(s.node, c, m, g);
      case ReceiveInvalidateStep(c, i) => ReceiveInvalidateWork(s.node, c, m, i);
      case ApplyGrantStep(c) => ApplyGrantWork(s.node, c, m);
      case StartInvalidateStep(c) => StartInvalidateWork(s.node, c, m);
      case FinishInvalidateStep(c) => FinishInvalidateWork(s.node, c, m);
    }
    var s' := Apply(s, t);
    assert s'.mounts.Keys == s.mounts.Keys;
    LessLeft(s, s', t.c);
  }

  /** A message taken by the server, and the processing that follows. */
  lemma ServerLowers(s: Sys, k: Sys, c: nat)
    requires Core(k) && k.mounts.Keys == s.mounts.Keys && c in s.mounts && WorkAt(k, c) < WorkAt(s, c)
    requires forall d :: d in s.mounts && d != c ==> k.mounts[d] == s.mounts[d] && SameEntries(s.node, k.node, d)
    requires forall d :: d in s.mounts && d != c ==> (d in k.recovering <==> d in s.recovering)
    ensures WorkLeft(Processed(k)) < WorkLeft(s)
  {
    hide Core, Work, WorkLeft, Find, Process;
    var t := Processed(k);
    assert t.mounts.Keys == s.mounts.Keys;
    forall d | d in s.mounts ensures WorkAt(t, d) <= WorkAt(k, d) <= WorkAt(s, d) {
      ProcessLessWork(k, d);
      if d != c {
        assert SameEntries(s.node, k.node, d);
        SameWork(s.node, k.node, d in s.recovering, d, s.mounts[d]);
      }
    }
    LessLeft(s, t, c);
  }

  lemma ServeRequestLowers(s: Sys, c: nat, mode: Mode)
    requires Inv(s) && Enabled(s, ServeRequestStep(c, mode))
    ensures WorkLeft(Apply(s, ServeRequestStep(c, mode))) < WorkLeft(s)
  {
    hide Inv, Core, Work, WorkLeft, Processed, Find;
    QueuedKeeps(s, c, mode);
    EnqueueWork(s.node, c in s.recovering, c, s.mounts[c], mode);
    ServerLowers(s, Queued(s, c, mode), c);
  }

  lemma ServeResponseLowers(s: Sys, c: nat, a: Mode, b: Mode)
    requires Inv(s) && Enabled(s, ServeResponseStep(c, a, b))
    ensures WorkLeft(Apply(s, ServeResponseStep(c, a, b))) < WorkLeft(s)
  {
    hide Inv, Core, Work, WorkLeft, Processed, Find, MountOK, NodeOK;
    AnsweredKeeps(s, c, a, b);
    FinishWork(s.node, c, s.mounts[c], a, b);
    ServerLowers(s, Answered(s, c, a, b), c);
  }

  lemma RecoverLowers(s: Sys, c: nat)
    requires Inv(s) && Enabled(s, RecoverStep(c))
    ensures WorkLeft(Apply(s, RecoverStep(c))) < WorkLeft(s)
  {
    hide Inv, Core, Work, WorkLeft, Processed, Find;
    RecoveredKeeps(s, c);
    var q :| RecoveringOKWith(s.node, c, s.mounts[c], q);
    RecoverWork(s.node, c, s.mounts[c]);
    ServerLowers(s, Recovered(s, c), c);
  }

  lemma StepLowers(s: Sys, t: Step)
    requires Inv(s) && Enabled(s, t) && ProtocolStep(t)
    ensures WorkLeft(Apply(s, t)) < WorkLeft(s)
  {
    hide Inv, WorkLeft;
    match t {
      case ServeRequestStep(c, mode) => ServeRequestLowers(s, c, mode);
      case ServeResponseStep(c, a, b) => ServeResponseLowers(s, c, a, b);
      case RecoverStep(c) => RecoverLowers(s, c);
      case _ => ClientWorkLowers(s, t);
    }
  }

  // ---- runs of the machinery alone

  ghost predicate ProtocolRun(s: Sys, steps: seq<Step>) {
    ValidRun(s, steps) && forall i :: 0 <= i < |steps| ==> ProtocolStep(steps[i])
  }

  /** Nothing is left to do but for users to act. */
  ghost predicate Still(t: Sys) {
    forall step :: ProtocolStep(step) ==> !Enabled(t, step)
  }

  ghost predicate NobodyBlocks(t: Sys) {
    forall c :: c in t.mounts ==> !UsersBlock(t.mounts[c])
  }

  lemma {:induction false} RunConcat(s: Sys, a: seq<Step>, b: seq<Step>)
    requires ValidRun(s, a) && ValidRun(Run(s, a), b)
    ensures ValidRun(s, a + b) && Run(s, a + b) == Run(Run(s, a), b)
    decreases |a|
  {
    hide Enabled, Apply;
    if a == [] {
      assert a + b == b;
    } else {
      RunConcat(Apply(s, a[0]), a[1..], b);
      assert (a + b)[0] == a[0] && (a + b)[1..] == a[1..] + b;
    }
  }

  lemma StaysReachable(s: Sys, steps: seq<Step>)
    requires Reachable(s) && ValidRun(s, steps)
    ensures Reachable(Run(s, steps))
  {
    hide Init, Run, ValidRun;
    var s0, a :| Init(s0) && ValidRun(s0, a) && Run(s0, a) == s;
    RunConcat(s0, a, steps);
  }

  /** However its steps are ordered, the machinery runs out of work. */
  lemma {:induction false} RunsEnd(s: Sys, steps: seq<Step>)
    requires Inv(s) && ProtocolRun(s, steps)
    ensures |steps| + WorkLeft(Run(s, steps)) <= WorkLeft(s)
    decreases |steps|
  {
    hide Inv, WorkLeft, Enabled, Apply;
    if steps != [] {
      StepKeeps(s, steps[0]);
      StepLowers(s, steps[0]);
      RunsEnd(Apply(s, steps[0]), steps[1..]);
    }
  }

  /** From every state the machinery can go on until nothing is left for it to do. */
  lemma {:induction false} SomeRunEnds(s: Sys) returns (steps: seq<Step>)
    requires Inv(s)
    ensures ProtocolRun(s, steps) && Still(Run(s, steps))
    decreases WorkLeft(s)
  {
    hide Inv, WorkLeft, Apply;
    if Still(s) {
      steps := [];
    } else {
      hide Enabled;
      var t :| ProtocolStep(t) && Enabled(s, t);
      StepKeeps(s, t);
      StepLowers(s, t);
      var rest := SomeRunEnds(Apply(s, t));
      steps := [t] + rest;
      assert steps[1..] == rest;
    }
  }

  // ---- what is granted

  /** The request was granted. */
  ghost predicate IsGranted(log: seq<Out>, e: Entry) {
    exists i :: 0 <= i < |log| && log[i].GrantTo? && log[i].rid == e.rid && log[i].tseq == e.tseq && log[i].new_ == e.mode
  }

  lemma GrantedMore(log: seq<Out>, sent: seq<Out>, e: Entry)
    ensures IsGranted(log, e) || IsGranted(sent, e) ==> IsGranted(log + sent, e)
  {
    var all := log + sent;
    if IsGranted(log, e) {
      var i :| 0 <= i < |log| && log[i].GrantTo? && log[i].rid == e.rid && log[i].tseq == e.tseq && log[i].new_ == e.mode;
      assert all[i] == log[i];
    } else if IsGranted(sent, e) {
      var i :| 0 <= i < |sent| && sent[i].GrantTo? && sent[i].rid == e.rid && sent[i].tseq == e.tseq && sent[i].new_ == e.mode;
      assert all[|log| + i] == sent[i];
    }
  }

  lemma {:induction false} ProcessAnswers(n: Node, recovering: bool, version: nat, e: Entry)
    requires e in n.requested
    ensures e in Process(n, recovering, version).node.requested || IsGranted(Process(n, recovering, version).sent, e)
    decreases |n.requested|
  {
    hide IsGranted;
    if !(recovering || n.invalidated != [] || n.requested == [] || Keep(n.granted, n.requested[0], false) != []) {
      var one := GrantFirst(n, version);
      var rest := Process(one.node, recovering, one.version);
      GrantedMore(one.sent, rest.sent, e);
      if e == n.requested[0] {
        FirstIsGranted(n, version);
      } else {
        assert n.requested == [n.requested[0]] + n.requested[1..];
        ProcessAnswers(one.node, recovering, one.version, e);
      }
    }
  }

  lemma FirstIsGranted(n: Node, version: nat)
    requires n.requested != []
    ensures IsGranted(GrantFirst(n, version).sent, n.requested[0])
  {
    assert GrantFirst(n, version).sent[0].GrantTo?;
  }

  /** A request that waits keeps waiting until it is granted, and users stay as they are. */
  lemma StepAnswers(s: Sys, t: Step, e: Entry)
    requires Enabled(s, t) && ProtocolStep(t)
    ensures e in s.node.requested ==> e in Apply(s, t).node.requested || IsGranted(Apply(s, t).log, e)
    ensures IsGranted(s.log, e) ==> IsGranted(Apply(s, t).log, e)
  {
    hide IsGranted, Process, Find, Deliver;
    var n, rec := s.node, s.recovering != {};
    match t
    case ServeRequestStep(c, mode) =>
      if e in n.requested { ProcessAnswers(Enqueue(n, c, mode), rec, s.version, e); }
      GrantedMore(s.log, HandleRequest(n, rec, s.version, c, mode).sent, e);
    case ServeResponseStep(c, a, b) =>
      if Find(n.invalidated, c).Some? && e in n.requested {
        ProcessAnswers(Finish(n, Find(n.invalidated, c).value, b), rec, s.version, e);
      }
      GrantedMore(s.log, HandleResponse(n, rec, s.version, c, b).sent, e);
    case RecoverStep(c) =>
      var k, rec' := RecoverNode(n, c, s.mounts[c]), s.recovering - {c} != {};
      if e in n.requested { ProcessAnswers(k, rec', s.version, e); }
      GrantedMore(s.log, Process(k, rec', s.version).sent, e);
    case _ =>
  }

  lemma {:induction false} RunAnswers(s: Sys, steps: seq<Step>, e: Entry)
    requires ProtocolRun(s, steps)
    ensures e in s.node.requested ==> e in Run(s, steps).node.requested || IsGranted(Run(s, steps).log, e)
    ensures IsGranted(s.log, e) ==> IsGranted(Run(s, steps).log, e)
    decreases |steps|
  {
    hide IsGranted, Enabled, Apply;
    if steps != [] {
      StepAnswers(s, steps[0], e);
      RunAnswers(Apply(s, steps[0]), steps[1..], e);
    }
  }

  ghost predicate SameUsers(s: Sys, t: Sys) {
    t.mounts.Keys == s.mounts.Keys && forall c :: c in s.mounts ==> t.mounts[c].users == s.mounts[c].users
  }

  lemma MountUsers(s: Sys, c: nat, m: Mount)
    requires c in s.mounts && m.users == s.mounts[c].users
    ensures SameUsers(s, WithMount(s, c, m))
  {
  }

  lemma InstallUsers(s: Sys, t: Sys, r: Result)
    requires SameUsers(s, t)
    ensures SameUsers(s, Install(t, r))
  {
    hide SentTo;
  }

  lemma StepKeepsUsers(s: Sys, t: Step)
    requires Enabled(s, t) && ProtocolStep(t)
    ensures SameUsers(s, Apply(s, t))
  {
    hide Process, Find, Install, SameUsers, WithMount;
    var m, n, rec := s.mounts[t.c], s.node, s.recovering != {};
    match t
    case ServeRequestStep(c, mode) =>
      var m' := m.(up := m.up - multiset{Request(mode)});
      MountUsers(s, c, m');
      InstallUsers(s, WithMount(s, c, m'), HandleRequest(n, rec, s.version, c, mode));
    case ServeResponseStep(c, a, b) =>
      var m' := m.(up := m.up - multiset{Response(a, b)});
      MountUsers(s, c, m');
      InstallUsers(s, WithMount(s, c, m'), HandleResponse(n, rec, s.version, c, b));
    case RecoverStep(c) =>
      var s1 := s.(node := RecoverNode(n, c, m), recovering := s.recovering - {c});
      SameMountsUsers(s, s1);
      InstallUsers(s, s1, Process(s1.node, s1.recovering != {}, s1.version));
    case ReceiveGrantStep(c, g) => MountUsers(s, c, ReceiveGrant(m, g));
    case ReceiveInvalidateStep(c, i) => MountUsers(s, c, ReceiveInvalidate(m, i));
    case ApplyGrantStep(c) => MountUsers(s, c, ApplyGrant(m));
    case StartInvalidateStep(c) => MountUsers(s, c, StartInvalidate(m));
    case FinishInvalidateStep(c) => MountUsers(s, c, FinishInvalidate(m));
    case _ =>
  }

  lemma SameMountsUsers(s: Sys, t: Sys)
    requires t.mounts == s.mounts
    ensures SameUsers(s, t)
  {
  }

  lemma {:induction false} RunKeepsUsers(s: Sys, steps: seq<Step>)
    requires ProtocolRun(s, steps)
    ensures SameUsers(s, Run(s, steps))
    decreases |steps|
  {
    hide Enabled, Apply;
    if steps != [] {
      StepKeepsUsers(s, steps[0]);
      RunKeepsUsers(Apply(s, steps[0]), steps[1..]);
    }
  }

  // ---- where the machinery ends

  /** The mount waits for nothing and has the mode that the server recorded. */
  ghost predicate Settled(t: Sys, c: nat)
    requires c in t.mounts
  {
    var m := t.mounts[c];
    !m.pending && m.grant.None? && m.inv.None? && m.down == multiset{} && m.up == multiset{} && m.mode == Held(t.node, c)
  }

  lemma StillServer(t: Sys)
    requires Reachable(t) && Still(t) && NobodyBlocks(t)
    ensures t.recovering == {} && t.node.requested == [] && t.node.invalidated == []
  {
    hide Reachable, Find, MountOK, RecoveringOK, UsersBlock, Enabled;
    if t.recovering != {} {
      var c :| c in t.recovering;
      RecoveringAreMounts(t);
      CanRecover(t, c);
    } else if t.node.invalidated != [] {
      var c := t.node.invalidated[0].rid;
      FirstInvalidated(t);
      Agrees(t, c);
      InvalidationMoves(t, c);
    } else if t.node.requested != [] {
      NoDeadlock(t);
    }
  }

  lemma CanRecover(t: Sys, c: nat)
    requires c in t.recovering && c in t.mounts
    ensures Enabled(t, RecoverStep(c))
  {
  }

  lemma StillMount(t: Sys, c: nat)
    requires Still(t) && c in t.mounts && MountOK(t.node, c, t.mounts[c])
    requires t.node.requested == [] && t.node.invalidated == []
    ensures Settled(t, c)
  {
    hide Held, UsersMatch, CountsMatch, Find, Enabled, Outstanding;
    var g, i, q, r :| MountOKWith(t.node, c, t.mounts[c], g, i, q, r);
    FindNone(c);
    MountMoves(t, c, g, i, q, r);
    QuietMount(t.mounts[c], g, i, q, r);
  }

  lemma QuietMount(m: Mount, g: Option<ToClient>, i: Option<ToClient>, q: Option<ToServer>, r: Option<ToServer>)
    requires Outstanding(m, g, i, q, r) && i.None? && q.None? && r.None? && !m.ready && m.grant.None? && g.None?
    ensures m.inv.None? && m.down == multiset{} && m.up == multiset{}
  {
  }

  lemma MountMoves(t: Sys, c: nat, g: Option<ToClient>, i: Option<ToClient>, q: Option<ToServer>, r: Option<ToServer>)
    requires c in t.mounts && MountOKWith(t.node, c, t.mounts[c], g, i, q, r)
    ensures q.Some? ==> q.value.Request? && Enabled(t, ServeRequestStep(c, q.value.mode))
    ensures g.Some? && t.mounts[c].grant.None? ==> Enabled(t, ReceiveGrantStep(c, g.value))
    ensures t.mounts[c].grant.Some? ==> Enabled(t, ApplyGrantStep(c))
  {
    hide Held, UsersMatch, CountsMatch, Find;
    var m := t.mounts[c];
    OutstandingIsSomewhere(m, g, i, q, r);
    if q.Some? { assert q.value in m.up; }
  }

  /**
    The machinery left to itself ends after a bounded number of steps.  Unless users
    of a mount hold up an invalidation by then, every request that was waiting has
    been granted, and every mount has what the server recorded for it.
  */
  lemma RequestsAreGranted(s: Sys, steps: seq<Step>)
    requires Reachable(s) && ProtocolRun(s, steps)
    ensures |steps| <= WorkLeft(s)
    ensures Still(Run(s, steps)) && NobodyBlocks(Run(s, steps)) ==>
              && (forall e :: e in s.node.requested ==> IsGranted(Run(s, steps).log, e))
              && (forall c :: c in s.mounts ==> c in Run(s, steps).mounts && Settled(Run(s, steps), c))
  {
    hide Reachable, Inv, WorkLeft, IsGranted, Settled, Still, NobodyBlocks, Run, ValidRun, MountOK, RecoveringOK;
    var t := Run(s, steps);
    ReachableInv(s);
    RunsEnd(s, steps);
    RunKeepsUsers(s, steps);
    if Still(t) && NobodyBlocks(t) {
      StaysReachable(s, steps);
      StillServer(t);
      forall e | e in s.node.requested ensures IsGranted(t.log, e) { RunAnswers(s, steps, e); }
      forall c | c in s.mounts ensures Settled(t, c) {
        Agrees(t, c);
        StillMount(t, c);
      }
    }
  }

  /** Mounts whose users are gone never hold anything up: then all that waits is granted. */
  lemma IdleUsersBlockNothing(s: Sys, steps: seq<Step>)
    requires ProtocolRun(s, steps) && forall c :: c in s.mounts ==> s.mounts[c].users == multiset{}
    ensures NobodyBlocks(Run(s, steps))
  {
    hide Run, ValidRun;
    RunKeepsUsers(s, steps);
  }
}
