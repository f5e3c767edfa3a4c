/**
  The lock server's record of one lock: lists of granted, requested and
  invalidated client entries, and the request processing that moves entries
  between the lists and sends grant responses and invalidation requests.
*/
module LockServer {
  import opened Wrappers
  import opened LockModes

  /** A client's entry on one of the lists; `tseq` numbers entries in arrival order. */
  datatype Entry = Entry(rid: nat, tseq: nat, mode: Mode)

  /** A message that the server sends to the client `rid`. */
  datatype Out =
    | GrantTo(rid: nat, tseq: nat, old_: Mode, new_: Mode, version: Option<nat>)
    | InvalidateTo(rid: nat, old_: Mode, new_: Mode)

  datatype Node = Node(granted: seq<Entry>, requested: seq<Entry>, invalidated: seq<Entry>, next: nat)

  const EmptyNode := Node([], [], [], 0)

  predicate Compatible(granted: Entry, requested: Entry) {
    || (granted.mode == requested.mode && (granted.mode == Read || granted.mode == WriteOnly))
    || (granted.rid == requested.rid && granted.mode == Read && requested.mode == Write)
  }

  /** The first entry of the client on a list. */
  function Find(list: seq<Entry>, rid: nat): Option<Entry> {
    if list == [] then None
    else if list[0].rid == rid then Some(list[0])
    else Find(list[1..], rid)
  }

  /** The list without the client's first entry. */
  function Drop(list: seq<Entry>, rid: nat): seq<Entry> {
    if list == [] then []
    else if list[0].rid == rid then list[1..]
    else [list[0]] + Drop(list[1..], rid)
  }

  /** The list without any entry of the client. */
  function Purge(list: seq<Entry>, rid: nat): seq<Entry> {
    if list == [] then []
    else Purge(list[..|list| - 1], rid) +
         (if list[|list| - 1].rid == rid then [] else [list[|list| - 1]])
  }

  /** The entries that are, or are not, compatible with a request, in list order. */
  function Keep(list: seq<Entry>, req: Entry, compatible: bool): seq<Entry> {
    if list == [] then []
    else Keep(list[..|list| - 1], req, compatible) +
         (if Compatible(list[|list| - 1], req) == compatible then [list[|list| - 1]] else [])
  }

  function Invalidations(list: seq<Entry>, mode: Mode): seq<Out> {
    if list == [] then []
    else Invalidations(list[..|list| - 1], mode) +
         [InvalidateTo(list[|list| - 1].rid, list[|list| - 1].mode,
                       InvalidationMode(list[|list| - 1].mode, mode))]
  }

  function ModeOf(e: Option<Entry>): Mode {
    if e.Some? then e.value.mode else Null
  }

  datatype Result = Result(node: Node, version: nat, sent: seq<Out>)

  /** Send invalidations to every grant that conflicts with the first request. */
  function InvalidateFor(n: Node, version: nat): Result
    requires n.requested != []
  {
    var req := n.requested[0];
    var conflicts := Keep(n.granted, req, false);
    Result(n.(granted := Keep(n.granted, req, true), invalidated := n.invalidated + conflicts),
           version, Invalidations(conflicts, req.mode))
  }

  /** Grant the first request, replacing any grant that its client already has. */
  function GrantFirst(n: Node, version: nat): Result
    requires n.requested != []
  {
    var req := n.requested[0];
    var v := if CanWrite(req.mode) then version + 1 else version;
    Result(n.(granted := Drop(n.granted, req.rid) + (if req.mode == Null then [] else [req]),
              requested := n.requested[1..]),
           v,
           [GrantTo(req.rid, req.tseq, ModeOf(Find(n.granted, req.rid)), req.mode,
                    if CanWrite(req.mode) then Some(v) else None)])
  }

  /** Walk the waiting requests in order until one has to wait for invalidations. */
  function Process(n: Node, recovering: bool, version: nat): Result
    decreases |n.requested|
  {
    if recovering || n.invalidated != [] || n.requested == [] then
      Result(n, version, [])
    else if Keep(n.granted, n.requested[0], false) != [] then
      InvalidateFor(n, version)
    else
      var one := GrantFirst(n, version);
      var rest := Process(one.node, recovering, one.version);
      Result(rest.node, rest.version, one.sent + rest.sent)
  }

  function Enqueue(n: Node, rid: nat, mode: Mode): Node {
    n.(requested := n.requested + [Entry(rid, n.next, mode)], next := n.next + 1)
  }

  function HandleRequest(n: Node, recovering: bool, version: nat, rid: nat, mode: Mode): Result {
    Process(Enqueue(n, rid, mode), recovering, version)
  }

  /** Drop the invalidated entry, or return it to the granted list with its reduced mode. */
  function Finish(n: Node, e: Entry, mode: Mode): Node {
    n.(invalidated := Drop(n.invalidated, e.rid),
       granted := n.granted + (if mode == Null then [] else [e.(mode := mode)]))
  }

  /** A response from a client with no invalidated entry changes nothing. */
  function HandleResponse(n: Node, recovering: bool, version: nat, rid: nat, mode: Mode): Result {
    match Find(n.invalidated, rid)
    case None => Result(n, version, [])
    case Some(e) => Process(Finish(n, e, mode), recovering, version)
  }

  /** Record the mode that a reconnecting client told us it holds. */
  function Recover(n: Node, rid: nat, mode: Mode): Node {
    if Find(n.granted, rid).Some? then n
    else n.(granted := n.granted + [Entry(rid, n.next, mode)], next := n.next + 1)
  }

  function Forget(n: Node, rid: nat): Node {
    n.(granted := Purge(n.granted, rid), requested := Purge(n.requested, rid),
       invalidated := Purge(n.invalidated, rid))
  }

  /** A departing client's entries are torn down and the lock makes progress if that freed any. */
  function HandleFarewell(n: Node, recovering: bool, version: nat, rid: nat): Result {
    var f := Forget(n, rid);
    if f == n then Result(n, version, []) else Process(f, recovering, version)
  }

  // ---- the lists as client-indexed views

  ghost predicate Unique(list: seq<Entry>) {
    forall i, j :: 0 <= i < j < |list| ==> list[i].rid != list[j].rid
  }

  ghost predicate Rising(list: seq<Entry>) {
    forall i, j :: 0 <= i < j < |list| ==> list[i].tseq < list[j].tseq
  }

  lemma {:induction false} FindSome(list: seq<Entry>, rid: nat)
    ensures Find(list, rid).Some? ==> Find(list, rid).value in list && Find(list, rid).value.rid == rid
    ensures Find(list, rid).None? ==> forall i :: 0 <= i < |list| ==> list[i].rid != rid
  {
    if list != [] {
      FindSome(list[1..], rid);
      if list[0].rid != rid && Find(list, rid).None? {
        forall i | 0 <= i < |list| ensures list[i].rid != rid {
          if i > 0 { assert list[i] == list[1..][i - 1]; }
        }
      }
    }
  }

  lemma FindIs(list: seq<Entry>, i: nat)
    requires i < |list| && Unique(list)
    ensures Find(list, list[i].rid) == Some(list[i])
  {
    FindSome(list, list[i].rid);
  }

  lemma {:induction false} FindConcat(a: seq<Entry>, b: seq<Entry>, rid: nat)
    ensures Find(a + b, rid) == if Find(a, rid).Some? then Find(a, rid) else Find(b, rid)
  {
    if a == [] {
      assert a + b == b;
    } else {
      assert (a + b)[1..] == a[1..] + b;
      FindConcat(a[1..], b, rid);
    }
  }

  lemma {:induction false} DropView(list: seq<Entry>, rid: nat)
    requires Unique(list)
    ensures Unique(Drop(list, rid))
    ensures forall e :: e in Drop(list, rid) <==> e in list && e.rid != rid
  {
    if list != [] {
      DropView(list[1..], rid);
      if list[0].rid != rid {
        var d := Drop(list[1..], rid);
        assert forall j :: 0 <= j < |d| ==> d[j] in list[1..];
      } else {
        assert forall e :: e in list[1..] ==> e.rid != rid;
      }
    }
  }

  lemma {:induction false} KeepView(list: seq<Entry>, req: Entry, c: bool)
    requires Unique(list)
    ensures Unique(Keep(list, req, c))
    ensures forall e :: e in Keep(list, req, c) <==> e in list && Compatible(e, req) == c
  {
    if list != [] {
      var front, last := list[..|list| - 1], list[|list| - 1];
      KeepView(front, req, c);
      assert list == front + [last];
      var k := Keep(front, req, c);
      assert forall j :: 0 <= j < |k| ==> k[j] in front;
      assert forall e :: e in front ==> e.rid != last.rid;
    }
  }

  lemma {:induction false} PurgeView(list: seq<Entry>, rid: nat)
    requires Unique(list)
    ensures Unique(Purge(list, rid))
    ensures forall e :: e in Purge(list, rid) <==> e in list && e.rid != rid
  {
    if list != [] {
      var front, last := list[..|list| - 1], list[|list| - 1];
      PurgeView(front, rid);
      assert list == front + [last];
      var k := Purge(front, rid);
      assert forall j :: 0 <= j < |k| ==> k[j] in front;
      assert forall e :: e in front ==> e.rid != last.rid;
    }
  }

  lemma {:induction false} PurgeRising(list: seq<Entry>, rid: nat)
    requires Unique(list) && Rising(list)
    ensures Rising(Purge(list, rid))
  {
    if list != [] {
      var front, last := list[..|list| - 1], list[|list| - 1];
      PurgeRising(front, rid);
      PurgeView(front, rid);
      var k := Purge(front, rid);
      assert forall j :: 0 <= j < |k| ==> k[j] in front;
      assert forall e :: e in front ==> e.tseq < last.tseq;
    }
  }

  /** Lists with the same members for a client give the same view of that client. */
  lemma FindSame(a: seq<Entry>, b: seq<Entry>, rid: nat)
    requires Unique(a) && Unique(b)
    requires forall e: Entry :: e.rid == rid ==> (e in a <==> e in b)
    ensures Find(a, rid) == Find(b, rid)
  {
    FindSome(a, rid);
    FindSome(b, rid);
    if Find(a, rid).Some? {
      var e := Find(a, rid).value;
      var i :| 0 <= i < |b| && b[i] == e;
      FindIs(b, i);
    }
  }

  /** A list with no member for a client gives it no entry. */
  lemma FindAbsent(a: seq<Entry>, rid: nat)
    requires forall e: Entry :: e in a ==> e.rid != rid
    ensures Find(a, rid) == None
  {
    FindSome(a, rid);
  }
}
