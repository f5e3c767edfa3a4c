/**
  The cluster lock protocol for one lock: the server's record of the lock, any
  number of client mounts, and the messages in flight between them.  Messages
  are delivered exactly once and in any order.
*/
module LockProtocol {
  import opened Wrappers
  import opened LockModes
  import opened LockServer

  datatype ToClient =
    | Grant(old_: Mode, new_: Mode, version: Option<nat>)
    | Invalidate(old_: Mode, new_: Mode)

  datatype ToServer =
    | Request(mode: Mode)
    | Response(old_: Mode, new_: Mode)

  /**
    One mount's state for the lock, with the bags of messages in flight to and
    from it.  `ready` is set from the time the mode was reduced until the
    invalidation response has been sent.
  */
  datatype Mount = Mount(
    mode: Mode, users: multiset<Mode>, pending: bool,
    grant: Option<ToClient>, inv: Option<ToClient>, ready: bool,
    down: multiset<ToClient>, up: multiset<ToServer>)

  const FreshMount := Mount(Null, multiset{}, false, None, None, false, multiset{}, multiset{})

  // ---- client transitions

  /** The fast path of a lock attempt; nobody asks to use the null mode. */
  predicate CanLock(m: Mount, mode: Mode) {
    mode != Null && ModesMatch(m.mode, mode)
  }

  function Lock(m: Mount, mode: Mode): Mount {
    m.(users := m.users + multiset{mode})
  }

  /** A lock attempt or the shrinker asks for a mode that the current mode doesn't satisfy. */
  predicate CanRequest(m: Mount, mode: Mode) {
    !m.pending && !ModesMatch(m.mode, mode)
  }

  function SendRequest(m: Mount, mode: Mode): Mount {
    m.(pending := true, up := m.up + multiset{Request(mode)})
  }

  function Unlock(m: Mount, mode: Mode): Mount {
    m.(users := m.users - multiset{mode})
  }

  function ReceiveGrant(m: Mount, g: ToClient): Mount {
    m.(grant := Some(g), down := m.down - multiset{g})
  }

  function ReceiveInvalidate(m: Mount, i: ToClient): Mount {
    m.(inv := Some(i), down := m.down - multiset{i})
  }

  predicate CanApplyGrant(m: Mount) {
    m.grant.Some? && m.mode == m.grant.value.old_
  }

  function ApplyGrant(m: Mount): Mount
    requires m.grant.Some?
  {
    m.(mode := m.grant.value.new_, pending := false, grant := None)
  }

  ghost predicate CanInvalidate(m: Mount) {
    && m.inv.Some? && !m.ready
    && m.mode == m.inv.value.old_ && CountsMatch(m.inv.value.new_, m.users)
  }

  function StartInvalidate(m: Mount): Mount
    requires m.inv.Some?
  {
    m.(mode := m.inv.value.new_, ready := true)
  }

  /** The cache has been invalidated: send the response and clear the pending invalidation. */
  function FinishInvalidate(m: Mount): Mount
    requires m.inv.Some?
  {
    m.(inv := None, ready := false,
       up := m.up + multiset{Response(m.inv.value.old_, m.inv.value.new_)})
  }

  /** The mount certainly still has a lock structure: put_lock only frees an idle lock with a null mode. */
  predicate Present(m: Mount) {
    m.mode != Null || m.pending || m.inv.Some?
  }

  // ---- the system

  datatype Sys = Sys(node: Node, version: nat, recovering: set<nat>, mounts: map<nat, Mount>, log: seq<Out>)

  function ToMsg(o: Out): ToClient {
    match o
    case GrantTo(_, _, a, b, v) => Grant(a, b, v)
    case InvalidateTo(_, a, b) => Invalidate(a, b)
  }

  /** The messages of a batch that are addressed to one client. */
  function SentTo(sent: seq<Out>, rid: nat): multiset<ToClient> {
    if sent == [] then multiset{}
    else SentTo(sent[..|sent| - 1], rid) +
         (if sent[|sent| - 1].rid == rid then multiset{ToMsg(sent[|sent| - 1])} else multiset{})
  }

  function Deliver(mounts: map<nat, Mount>, sent: seq<Out>): map<nat, Mount> {
    map c | c in mounts :: mounts[c].(down := mounts[c].down + SentTo(sent, c))
  }

  /** Install the outcome of server processing and put its messages in flight. */
  function Install(s: Sys, r: Result): Sys {
    s.(node := r.node, version := r.version, mounts := Deliver(s.mounts, r.sent), log := s.log + r.sent)
  }

  function Processed(s: Sys): Sys {
    Install(s, Process(s.node, s.recovering != {}, s.version))
  }

  datatype Step =
    | LockStep(c: nat, mode: Mode)
    | RequestStep(c: nat, mode: Mode)
    | UnlockStep(c: nat, mode: Mode)
    | ReceiveGrantStep(c: nat, g: ToClient)
    | ReceiveInvalidateStep(c: nat, i: ToClient)
    | ApplyGrantStep(c: nat)
    | StartInvalidateStep(c: nat)
    | FinishInvalidateStep(c: nat)
    | ServeRequestStep(c: nat, mode: Mode)
    | ServeResponseStep(c: nat, old_: Mode, new_: Mode)
    | RecoverStep(c: nat)
    | FarewellStep(c: nat)
    | OtherLockVersionStep(c: nat)

  ghost predicate Enabled(s: Sys, t: Step) {
    && t.c in s.mounts
    && var m := s.mounts[t.c];
       match t
       case LockStep(_, mode) => CanLock(m, mode)
       case RequestStep(_, mode) => CanRequest(m, mode)
       case UnlockStep(_, mode) => m.users[mode] > 0
       case ReceiveGrantStep(_, g) => g.Grant? && g in m.down
       case ReceiveInvalidateStep(_, i) => i.Invalidate? && i in m.down
       case ApplyGrantStep(_) => CanApplyGrant(m)
       case StartInvalidateStep(_) => CanInvalidate(m)
       case FinishInvalidateStep(_) => m.ready && m.inv.Some?
       case ServeRequestStep(_, mode) => Request(mode) in m.up
       case ServeResponseStep(_, a, b) => Response(a, b) in m.up
       case RecoverStep(c) => c in s.recovering
       case FarewellStep(c) => m.users == multiset{} && m.up == multiset{} && c !in s.recovering
       case OtherLockVersionStep(_) => true
  }

  function WithMount(s: Sys, c: nat, m: Mount): Sys {
    s.(mounts := s.mounts[c := m])
  }

  function RecoverNode(n: Node, c: nat, m: Mount): Node {
    if Present(m) then Recover(n, c, m.mode) else n
  }

  ghost function Apply(s: Sys, t: Step): Sys
    requires Enabled(s, t)
  {
    var m := s.mounts[t.c];
    match t
    case LockStep(c, mode) => WithMount(s, c, Lock(m, mode))
    case RequestStep(c, mode) => WithMount(s, c, SendRequest(m, mode))
    case UnlockStep(c, mode) => WithMount(s, c, Unlock(m, mode))
    case ReceiveGrantStep(c, g) => WithMount(s, c, ReceiveGrant(m, g))
    case ReceiveInvalidateStep(c, i) => WithMount(s, c, ReceiveInvalidate(m, i))
    case ApplyGrantStep(c) => WithMount(s, c, ApplyGrant(m))
    case StartInvalidateStep(c) => WithMount(s, c, StartInvalidate(m))
    case FinishInvalidateStep(c) => WithMount(s, c, FinishInvalidate(m))
    case ServeRequestStep(c, mode) =>
      var s1 := WithMount(s, c, m.(up := m.up - multiset{Request(mode)}));
      Install(s1, HandleRequest(s.node, s.recovering != {}, s.version, c, mode))
    case ServeResponseStep(c, a, b) =>
      var s1 := WithMount(s, c, m.(up := m.up - multiset{Response(a, b)}));
      Install(s1, HandleResponse(s.node, s.recovering != {}, s.version, c, b))
    case RecoverStep(c) =>
      Processed(s.(node := RecoverNode(s.node, c, m), recovering := s.recovering - {c}))
    case FarewellStep(c) =>
      Install(WithMount(s, c, FreshMount), HandleFarewell(s.node, s.recovering != {}, s.version, c))
    case OtherLockVersionStep(_) => s.(version := s.version + 1)
  }

  /** A mount with nothing outstanding but, at most, the one request that it sent. */
  ghost predicate Starting(m: Mount) {
    && m.grant == None && m.inv == None && !m.ready && m.down == multiset{} && UsersMatch(m)
    && if m.pending then exists mode: Mode :: m.up == multiset{Request(mode)} && WaitsOn(m, mode) else m.up == multiset{}
  }

  /**
    A server starts with nothing recorded.  The mounts whose locks it has to
    recover hold modes that can coexist; any mount may have a request waiting.
  */
  ghost predicate Init(s: Sys) {
    && s.node == EmptyNode && s.log == []
    && s.recovering <= s.mounts.Keys
    && (forall c :: c in s.mounts ==> Starting(s.mounts[c]) && (c !in s.recovering ==> s.mounts[c].mode == Null))
    && (forall c, d :: c in s.mounts && d in s.mounts && c != d ==> Coexist(s.mounts[c].mode, s.mounts[d].mode))
  }

  ghost predicate ValidRun(s: Sys, steps: seq<Step>)
    decreases |steps|
  {
    steps == [] || (Enabled(s, steps[0]) && ValidRun(Apply(s, steps[0]), steps[1..]))
  }

  ghost function Run(s: Sys, steps: seq<Step>): Sys
    requires ValidRun(s, steps)
    decreases |steps|
  {
    if steps == [] then s else Run(Apply(s, steps[0]), steps[1..])
  }

  // ---- the invariant

  /** Active users of the lock are covered by the mount's current mode. */
  ghost predicate UsersMatch(m: Mount) {
    forall mode: Mode :: m.users[mode] > 0 ==> mode != Null && ModesMatch(m.mode, mode)
  }

  /** The mode that the server has on record for a client, even while it is being invalidated. */
  function Held(n: Node, c: nat): Mode {
    if Find(n.granted, c).Some? then Find(n.granted, c).value.mode else ModeOf(Find(n.invalidated, c))
  }

  ghost predicate WaitsOn(m: Mount, mode: Mode) {
    mode != Null ==> !ModesMatch(m.mode, mode)
  }

  /** The messages outstanding for a mount: grant `g`, invalidation `i`, request `q`, response `r`. */
  ghost predicate Outstanding(m: Mount, g: Option<ToClient>, i: Option<ToClient>, q: Option<ToServer>, r: Option<ToServer>) {
    Wires(m.grant, m.inv, m.ready, m.down, m.up, g, i, q, r)
  }

  ghost predicate Wires(grant: Option<ToClient>, inv: Option<ToClient>, ready: bool, down: multiset<ToClient>, up: multiset<ToServer>,
                        g: Option<ToClient>, i: Option<ToClient>, q: Option<ToServer>, r: Option<ToServer>) {
    && (g.Some? ==> g.value.Grant?) && (i.Some? ==> i.value.Invalidate?)
    && (q.Some? ==> q.value.Request?) && (r.Some? ==> r.value.Response?)
    && (grant.Some? ==> grant == g) && (inv.Some? ==> inv.value.Invalidate?)
    && (inv.Some? && !ready ==> inv == i) && (ready ==> inv.Some?)
    && down == (if grant.Some? then multiset{} else Bag(g)) + (if inv.Some? && !ready then multiset{} else Bag(i))
    && up == Bag(q) + Bag(r)
  }

  /** At most one request is anywhere between being sent and its grant being applied. */
  ghost predicate RequestOK(m: Mount, rq: Option<Entry>, g: Option<ToClient>, q: Option<ToServer>) {
    && m.pending == (q.Some? || rq.Some? || g.Some?)
    && !(q.Some? && rq.Some?) && !(q.Some? && g.Some?) && !(rq.Some? && g.Some?)
    && (q.Some? && q.value.Request? ==> WaitsOn(m, q.value.mode))
    && (rq.Some? ==> WaitsOn(m, rq.value.mode))
  }

  /** An outstanding grant starts at the mount's mode and ends at the server's record. */
  ghost predicate GrantOK(m: Mount, held: Mode, g: Option<ToClient>, r: Option<ToServer>) {
    g.Some? ==>
      && m.mode == g.value.old_ && g.value.new_ == held && WaitsOn(m, held)
      && (m.mode == Null || (m.mode == Read && held == Write))
      && !m.ready && r.None?
  }

  /** An invalidated entry corresponds to one invalidation, in flight, under way or answered. */
  ghost predicate InvalidateOK(m: Mount, iv: Option<Entry>, held: Mode, i: Option<ToClient>, r: Option<ToServer>) {
    && (iv.Some? <==> i.Some? || m.ready || r.Some?)
    && !(i.Some? && m.ready) && !(i.Some? && r.Some?) && !(m.ready && r.Some?)
    && (i.Some? ==> i.value.old_ == held && Lowers(held, i.value.new_))
    && (m.ready && m.inv.Some? ==> m.inv.value.old_ == held && m.inv.value.new_ == m.mode && Lowers(held, m.mode))
    && (r.Some? && r.value.Response? ==> r.value.old_ == held && r.value.new_ == m.mode && Lowers(held, m.mode))
  }

  ghost predicate MountOKWith(n: Node, c: nat, m: Mount, g: Option<ToClient>, i: Option<ToClient>, q: Option<ToServer>, r: Option<ToServer>) {
    var gr, iv, rq := Find(n.granted, c), Find(n.invalidated, c), Find(n.requested, c);
    && Outstanding(m, g, i, q, r)
    && !(gr.Some? && iv.Some?)
    && RequestOK(m, rq, g, q)
    && GrantOK(m, Held(n, c), g, r)
    && InvalidateOK(m, iv, Held(n, c), i, r)
    && (g.None? && !m.ready && r.None? ==> m.mode == Held(n, c))
    && ((gr.Some? || iv.Some?) && Held(n, c) == Null ==> q.Some? || rq.Some?)
    && UsersMatch(m)
  }

  ghost predicate MountOK(n: Node, c: nat, m: Mount) {
    exists g, i, q, r :: MountOKWith(n, c, m, g, i, q, r)
  }

  /** A mount that the server hasn't heard from since it started. */
  ghost predicate RecoveringOKWith(n: Node, c: nat, m: Mount, q: Option<ToServer>) {
    && Find(n.granted, c).None? && Find(n.invalidated, c).None?
    && Outstanding(m, None, None, q, None) && m.grant.None? && m.inv.None?
    && RequestOK(m, Find(n.requested, c), None, q)
    && UsersMatch(m)
  }

  ghost predicate RecoveringOK(n: Node, c: nat, m: Mount) {
    exists q :: RecoveringOKWith(n, c, m, q)
  }

  ghost function HeldBy(s: Sys, c: nat): Mode
    requires c in s.mounts
  {
    if c in s.recovering then s.mounts[c].mode else Held(s.node, c)
  }

  ghost predicate AgreesAt(s: Sys, c: nat)
    requires c in s.mounts
  {
    if c in s.recovering then RecoveringOK(s.node, c, s.mounts[c]) else MountOK(s.node, c, s.mounts[c])
  }

  ghost predicate NodeOK(n: Node) {
    && Unique(n.granted) && Unique(n.requested) && Unique(n.invalidated)
    && Rising(n.requested) && (forall e :: e in n.requested ==> e.tseq < n.next)
  }

  ghost predicate Known(n: Node, ids: set<nat>) {
    forall e :: e in n.granted || e in n.requested || e in n.invalidated ==> e.rid in ids
  }

  ghost predicate Mounts(s: Sys) {
    forall c :: c in s.mounts ==> AgreesAt(s, c)
  }

  ghost predicate Exclusive(s: Sys) {
    forall c, d :: c in s.mounts && d in s.mounts && c != d ==> Coexist(HeldBy(s, c), HeldBy(s, d))
  }

  /** Grants answer requests in arrival order and write versions never repeat. */
  ghost predicate LogOK(log: seq<Out>, n: Node, version: nat) {
    && InOrder(log)
    && (forall o :: o in log && o.GrantTo? ==>
          && o.tseq < n.next && (forall e :: e in n.requested ==> o.tseq < e.tseq)
          && (o.version.Some? ==> o.version.value <= version))
  }

  /** Grants in a log of sent messages have rising arrival numbers, and write grants rising versions. */
  ghost predicate InOrder(log: seq<Out>) {
    && (forall i, j :: 0 <= i < j < |log| && log[i].GrantTo? && log[j].GrantTo? ==>
          && log[i].tseq < log[j].tseq
          && (log[i].version.Some? && log[j].version.Some? ==> log[i].version.value < log[j].version.value))
    && (forall o :: o in log && o.GrantTo? ==> (CanWrite(o.new_) <==> o.version.Some?))
  }

  /** What holds between the parts of processing one message. */
  ghost predicate Core(s: Sys) {
    && NodeOK(s.node) && Known(s.node, s.mounts.Keys)
    && s.recovering <= s.mounts.Keys && (s.recovering != {} ==> s.node.invalidated == [] && s.log == [])
    && Mounts(s) && Exclusive(s) && LogOK(s.log, s.node, s.version)
  }

  ghost predicate Inv(s: Sys) {
    && Core(s)
    && (s.node.requested != [] ==> s.node.invalidated != [] || s.recovering != {})
  }
}
