/**
  Runs of the RPC layer: any number of requests, each advancing one section at a time, with
  responses and their callbacks interleaved at will.
 */
module SifRpcProofs {
  import opened SifRpcState

  /** Where a request stands.  `Ending` and `Ended` carry the packet the handler read from the client. */
  datatype Phase =
    | Got | Refused | Claimed | SendFailed | Sent
    | Ending(pkt: Option<nat>, read: Option<End>)
    | Ended(pkt: Option<nat>)

  /** A request in progress, under a serial number of its own. */
  datatype Request = Request(serial: nat, phase: Phase, client: nat, end: Option<End>)

  datatype Call = Call(serial: nat, end: End)

  /** `own` records, for the packet a request got, the request itself. */
  datatype Sys = Sys(rpc: Rpc, own: map<nat, Request>, issued: nat,
                     accepted: map<nat, Option<End>>, calls: seq<Call>)

  datatype Event =
    | Allocate
    | Take(s: nat, c: nat, end: Option<End>, bind: bool)
    | Send(s: nat, ok: bool)
    | Respond(s: nat, cmd: Command)
    | CallBack(s: nat)
    | Release(s: nat)

  predicate Enabled(y: Sys, e: Event) {
    match e
    case Allocate => true
    case Take(s, c, _, _) => s in y.own && y.own[s].phase == Got && c in y.rpc.clients && s < |y.rpc.pkts|
    case Send(s, _) => s in y.own && y.own[s].phase == Claimed
    // the IOP answers a request it has received, and answers it once
    case Respond(s, _) => s in y.own && y.own[s].phase == Sent && y.own[s].client in y.rpc.clients
    case CallBack(s) => s in y.own && y.own[s].phase.Ending?
    case Release(s) => s in y.own && ReleaseSlot(s, y.own[s].phase) < |y.rpc.pkts| && Releasing(y.own[s].phase)
  }

  predicate Releasing(p: Phase) {
    p == Refused || p == SendFailed || p.Ended?
  }

  /** The packet a request hands to rpc_packet_free. */
  function ReleaseSlot(s: nat, p: Phase): nat {
    if p.Ended? && p.pkt.Some? then p.pkt.value else s
  }

  function Step(y: Sys, e: Event): Sys
    requires Enabled(y, e)
  {
    match e
    case Allocate =>
      var (r, slot) := GetPacket(y.rpc);
      if slot == None then y
      else y.(rpc := r, own := y.own[slot.value := Request(y.issued, Got, 0, None)], issued := y.issued + 1)
    case Take(s, c, end, bind) =>
      var (r, ok) := Claim(y.rpc, c, s, end, bind);
      y.(rpc := r, own := y.own[s := y.own[s].(phase := if ok then Claimed else Refused, client := c, end := end)])
    case Send(s, ok) =>
      var q := y.own[s];
      y.(own := y.own[s := q.(phase := if ok then Sent else SendFailed)],
         accepted := if ok then y.accepted[q.serial := q.end] else y.accepted)
    case Respond(s, cmd) =>
      var (r, pkt, end) := EndRequest(y.rpc, y.own[s].client, cmd);
      y.(rpc := r, own := y.own[s := y.own[s].(phase := Ending(pkt, end))])
    case CallBack(s) =>
      var q := y.own[s];
      y.(own := y.own[s := q.(phase := Ended(q.phase.pkt))],
         calls := if q.phase.read.Some? then y.calls + [Call(q.serial, q.phase.read.value)] else y.calls)
    case Release(s) =>
      y.(rpc := FreePacket(y.rpc, ReleaseSlot(s, y.own[s].phase)), own := y.own - {s})
  }

  // ---------------------------------------------------------------- invariant

  /** The client's header names this request. */
  predicate Holds(p: Phase) {
    p == Claimed || p == SendFailed || p == Sent
  }

  /** Allocated packets and requests in progress are in one-to-one correspondence. */
  ghost predicate Allocated(y: Sys) {
    && (forall s :: s in y.own ==> s < |y.rpc.pkts|)
    && (forall s :: 0 <= s < |y.rpc.pkts| ==> (y.rpc.pkts[s].alloc <==> s in y.own))
    && (forall s, t :: s in y.own && t in y.own && s != t ==> y.own[s].serial != y.own[t].serial)
  }

  ghost predicate OwnerOk(y: Sys, s: nat)
    requires s in y.own && s < |y.rpc.pkts|
  {
    var q := y.own[s];
    && q.serial < y.issued
    && (Holds(q.phase) ==>
          q.client in y.rpc.clients
          && var cd := y.rpc.clients[q.client]; cd.pkt == Some(s) && cd.end == q.end && cd.rpcId == y.rpc.pkts[s].rpcId)
    && (q.phase.Ending? ==> q.phase.pkt == Some(s) && q.phase.read == q.end)
    && (q.phase.Ended? ==> q.phase.pkt == Some(s))
    && (q.serial in y.accepted <==> q.phase == Sent || q.phase.Ending? || q.phase.Ended?)
    && (q.serial in y.accepted ==> y.accepted[q.serial] == q.end)
  }

  ghost predicate Owners(y: Sys)
    requires Allocated(y)
  {
    && (forall n :: n in y.accepted ==> n < y.issued)
    && (forall s :: s in y.own ==> OwnerOk(y, s))
  }

  function CallsFor(calls: seq<Call>, n: nat): nat {
    if calls == [] then 0
    else CallsFor(calls[..|calls| - 1], n) + if calls[|calls| - 1].serial == n then 1 else 0
  }

  predicate WaitsAt(y: Sys, s: nat, n: nat) {
    s in y.own && y.own[s].serial == n && (y.own[s].phase == Sent || y.own[s].phase.Ending?)
  }

  /** A request whose end function has still to be called. */
  ghost predicate Waiting(y: Sys, n: nat) {
    exists s :: WaitsAt(y, s, n)
  }

  /** Every accepted request has its end function called once its response has been handled,
      and no request more than that. */
  ghost predicate CalledOnce(y: Sys) {
    && (forall n: nat :: CallsFor(y.calls, n) ==
          if n in y.accepted && y.accepted[n].Some? && !Waiting(y, n) then 1 else 0)
    && (forall i :: 0 <= i < |y.calls| ==> y.calls[i].serial in y.accepted && y.accepted[y.calls[i].serial] == Some(y.calls[i].end))
  }

  ghost predicate Inv(y: Sys) {
    Allocated(y) && Owners(y) && CalledOnce(y)
  }

  lemma AllocateOther(y: Sys, s: nat)
    requires Allocated(y) && Owners(y) && s in y.own
    ensures var y' := Step(y, Allocate);
            s in y'.own && s < |y'.rpc.pkts| && y'.own[s] == y.own[s] && OwnerOk(y', s)
  {
    assert OwnerOk(y, s);
  }

  lemma AllocateKeeps(y: Sys)
    requires Allocated(y) && Owners(y)
    ensures Allocated(Step(y, Allocate)) && Owners(Step(y, Allocate))
  {
    var y', n := Step(y, Allocate), FreeSlot(y.rpc.pkts, 0);
    if n < |y.rpc.pkts| {
      assert y'.own == y.own[n := Request(y.issued, Got, 0, None)];
      forall s | s in y'.own ensures s < |y'.rpc.pkts| && OwnerOk(y', s) {
        if s != n { AllocateOther(y, s); } else { AllocateNew(y, n); }
      }
      AllocateTable(y, n);
    }
  }

  lemma AllocateNew(y: Sys, n: nat)
    requires Allocated(y) && Owners(y) && n == FreeSlot(y.rpc.pkts, 0) < |y.rpc.pkts|
    ensures n in Step(y, Allocate).own && OwnerOk(Step(y, Allocate), n)
  {
  }

  lemma AllocateTable(y: Sys, n: nat)
    requires Allocated(y) && Owners(y) && n == FreeSlot(y.rpc.pkts, 0) < |y.rpc.pkts|
    ensures Allocated(Step(y, Allocate))
  {
    forall s | s in y.own ensures OwnerOk(y, s) {}
  }

  lemma TakeKeeps(y: Sys, s: nat, c: nat, end: Option<End>, bind: bool)
    requires Allocated(y) && Owners(y) && Enabled(y, Take(s, c, end, bind))
    ensures Allocated(Step(y, Take(s, c, end, bind))) && Owners(Step(y, Take(s, c, end, bind)))
  {
    var y' := Step(y, Take(s, c, end, bind));
    forall t | t in y'.own ensures OwnerOk(y', t) { assert OwnerOk(y, t); }
  }

  lemma SendKeeps(y: Sys, s: nat, ok: bool)
    requires Allocated(y) && Owners(y) && Enabled(y, Send(s, ok))
    ensures Allocated(Step(y, Send(s, ok))) && Owners(Step(y, Send(s, ok)))
  {
    var y' := Step(y, Send(s, ok));
    assert OwnerOk(y, s);
    forall t | t in y'.own ensures OwnerOk(y', t) { assert OwnerOk(y, t); }
  }

  lemma RespondKeeps(y: Sys, s: nat, cmd: Command)
    requires Allocated(y) && Owners(y) && Enabled(y, Respond(s, cmd))
    ensures Allocated(Step(y, Respond(s, cmd))) && Owners(Step(y, Respond(s, cmd)))
  {
    var y' := Step(y, Respond(s, cmd));
    assert OwnerOk(y, s);
    forall t | t in y'.own ensures OwnerOk(y', t) { assert OwnerOk(y, t); }
  }

  lemma CallBackKeeps(y: Sys, s: nat)
    requires Allocated(y) && Owners(y) && Enabled(y, CallBack(s))
    ensures Allocated(Step(y, CallBack(s))) && Owners(Step(y, CallBack(s)))
  {
    var y' := Step(y, CallBack(s));
    assert OwnerOk(y, s);
    forall t | t in y'.own ensures OwnerOk(y', t) { assert OwnerOk(y, t); }
  }

  /** The packet a request frees is its own and is allocated at that moment. */
  lemma ReleaseKeeps(y: Sys, s: nat)
    requires Allocated(y) && Owners(y) && Enabled(y, Release(s))
    ensures ReleaseSlot(s, y.own[s].phase) == s && y.rpc.pkts[s].alloc
    ensures Allocated(Step(y, Release(s))) && Owners(Step(y, Release(s)))
  {
    var y' := Step(y, Release(s));
    assert OwnerOk(y, s);
    forall t | t in y'.own ensures OwnerOk(y', t) { assert OwnerOk(y, t); }
  }

  lemma StepKeepsOwners(y: Sys, e: Event)
    requires Allocated(y) && Owners(y) && Enabled(y, e)
    ensures Allocated(Step(y, e)) && Owners(Step(y, e))
  {
    match e
    case Allocate => AllocateKeeps(y);
    case Take(s, c, end, bind) => TakeKeeps(y, s, c, end, bind);
    case Send(s, ok) => SendKeeps(y, s, ok);
    case Respond(s, cmd) => RespondKeeps(y, s, cmd);
    case CallBack(s) => CallBackKeeps(y, s);
    case Release(s) => ReleaseKeeps(y, s);
  }

  // --------------------------------------------------------------- callbacks

  lemma CallsForAppend(calls: seq<Call>, x: Call, n: nat)
    ensures CallsFor(calls + [x], n) == CallsFor(calls, n) + if x.serial == n then 1 else 0
  {
    assert (calls + [x])[..|calls|] == calls;
  }

  lemma WaitsAtStep(y: Sys, e: Event, s: nat, n: nat)
    requires Allocated(y) && Owners(y) && Enabled(y, e) && n in y.accepted
    ensures WaitsAt(Step(y, e), s, n) <==> WaitsAt(y, s, n) && e != CallBack(s)
  {
    if s in y.own { assert OwnerOk(y, s); }
    if e.Release? { ReleaseKeeps(y, e.s); }
  }

  /** Only a callback changes which requests are waiting among those already accepted. */
  lemma WaitingStep(y: Sys, e: Event, n: nat)
    requires Allocated(y) && Owners(y) && Enabled(y, e) && n in y.accepted
    ensures Waiting(Step(y, e), n) <==> Waiting(y, n) && !(e.CallBack? && y.own[e.s].serial == n)
  {
    var y' := Step(y, e);
    forall s { WaitsAtStep(y, e, s, n); }
    if e.CallBack? && y.own[e.s].serial == n {
      forall s ensures !WaitsAt(y', s, n) { assert WaitsAt(y, s, n) ==> s == e.s; }
    } else if Waiting(y, n) {
      var s :| WaitsAt(y, s, n);
      assert WaitsAt(y', s, n);
    }
  }

  lemma CallBackOnce(y: Sys, s: nat)
    requires Inv(y) && Enabled(y, CallBack(s))
    ensures CalledOnce(Step(y, CallBack(s)))
  {
    var y', q := Step(y, CallBack(s)), y.own[s];
    assert OwnerOk(y, s) && WaitsAt(y, s, q.serial);
    forall n: nat ensures CallsFor(y'.calls, n) ==
      if n in y'.accepted && y'.accepted[n].Some? && !Waiting(y', n) then 1 else 0
    {
      if q.phase.read.Some? { CallsForAppend(y.calls, Call(q.serial, q.phase.read.value), n); }
      if n in y.accepted { WaitingStep(y, CallBack(s), n); }
    }
  }

  lemma SendWaits(y: Sys, s: nat)
    requires Inv(y) && Enabled(y, Send(s, true))
    ensures var n := y.own[s].serial; n !in y.accepted && Waiting(Step(y, Send(s, true)), n)
  {
    assert OwnerOk(y, s);
    var y' := Step(y, Send(s, true));
    assert WaitsAt(y', s, y.own[s].serial);
  }

  lemma StepCalledOnce(y: Sys, e: Event)
    requires Inv(y) && Enabled(y, e)
    ensures CalledOnce(Step(y, e))
  {
    var y' := Step(y, e);
    if e.CallBack? {
      CallBackOnce(y, e.s);
    } else {
      assert y'.calls == y.calls;
      if e.Send? && e.ok { SendWaits(y, e.s); }
      forall n: nat ensures CallsFor(y'.calls, n) ==
        if n in y'.accepted && y'.accepted[n].Some? && !Waiting(y', n) then 1 else 0
      {
        if n in y.accepted { WaitingStep(y, e, n); }
      }
    }
  }

  lemma StepInv(y: Sys, e: Event)
    requires Inv(y) && Enabled(y, e)
    ensures Inv(Step(y, e))
  {
    StepKeepsOwners(y, e);
    StepCalledOnce(y, e);
  }

  // ------------------------------------------------------------- status query

  /** A client header that names a packet either names its own request in progress, or an id no
      packet carries any more. */
  ghost predicate HeaderOk(y: Sys, c: nat)
    requires c in y.rpc.clients
  {
    var cd := y.rpc.clients[c];
    cd.pkt.Some? ==>
      && 2 <= cd.rpcId < y.issued + 2
      && forall s :: s in y.own && y.own[s].serial + 2 == cd.rpcId ==> y.own[s].client == c && Holds(y.own[s].phase)
  }

  /** While the 32-bit counter has not wrapped, ids are serial numbers. */
  ghost predicate Ids(y: Sys)
    requires Allocated(y)
  {
    y.issued + 2 < U32 ==>
      && y.rpc.pid == y.issued + 1
      && (forall s :: s in y.own ==> y.rpc.pkts[s].rpcId == y.own[s].serial + 2)
      && (forall c :: c in y.rpc.clients ==> HeaderOk(y, c))
  }

  lemma AllocateIds(y: Sys, s: nat)
    requires Allocated(y) && Owners(y) && Ids(y) && Step(y, Allocate).issued + 2 < U32
    requires s in Step(y, Allocate).own && s < |Step(y, Allocate).rpc.pkts|
    ensures Step(y, Allocate).rpc.pkts[s].rpcId == Step(y, Allocate).own[s].serial + 2
  {
  }

  lemma OtherIds(y: Sys, e: Event, s: nat)
    requires Allocated(y) && Owners(y) && Enabled(y, e) && !e.Allocate? && s in Step(y, e).own
    ensures s in y.own && s < |y.rpc.pkts| == |Step(y, e).rpc.pkts|
    ensures Step(y, e).own[s].serial == y.own[s].serial && Step(y, e).rpc.pkts[s].rpcId == y.rpc.pkts[s].rpcId
  {
    if e.Release? { ReleaseKeeps(y, e.s); }
  }

  lemma PidStep(y: Sys, e: Event)
    requires Allocated(y) && Ids(y) && Enabled(y, e) && Step(y, e).issued + 2 < U32
    ensures Step(y, e).rpc.pid == Step(y, e).issued + 1
  {
  }

  lemma PacketIdStep(y: Sys, e: Event, s: nat)
    requires Allocated(y) && Owners(y) && Ids(y) && Enabled(y, e) && Step(y, e).issued + 2 < U32
    requires s in Step(y, e).own && s < |Step(y, e).rpc.pkts|
    ensures Step(y, e).rpc.pkts[s].rpcId == Step(y, e).own[s].serial + 2
  {
    if e.Allocate? {
      AllocateIds(y, s);
    } else {
      OtherIds(y, e, s);
    }
  }

  lemma PacketIdsStep(y: Sys, e: Event)
    requires Allocated(y) && Owners(y) && Ids(y) && Enabled(y, e) && Step(y, e).issued + 2 < U32
    requires Allocated(Step(y, e))
    ensures var y' := Step(y, e);
            && y'.rpc.pid == y'.issued + 1
            && forall s :: s in y'.own ==> y'.rpc.pkts[s].rpcId == y'.own[s].serial + 2
  {
    PidStep(y, e);
    var y' := Step(y, e);
    forall s | s in y'.own ensures y'.rpc.pkts[s].rpcId == y'.own[s].serial + 2 { PacketIdStep(y, e, s); }
  }

  lemma HeaderTake(y: Sys, e: Event, c: nat)
    requires Allocated(y) && Owners(y) && Enabled(y, e) && e.Take? && c in y.rpc.clients && HeaderOk(y, c)
    requires y.rpc.pkts[e.s].rpcId == y.own[e.s].serial + 2
    ensures HeaderOk(Step(y, e), c)
  {
    var y' := Step(y, e);
    assert OwnerOk(y, e.s);
    if y'.rpc.clients[c] != y.rpc.clients[c] {
      assert c == e.c && y'.own[e.s].client == c && y'.own[e.s].phase == Claimed;
    }
  }

  lemma HeaderStep(y: Sys, e: Event, c: nat)
    requires Allocated(y) && Owners(y) && Enabled(y, e) && c in y.rpc.clients && HeaderOk(y, c)
    requires e.Take? ==> y.rpc.pkts[e.s].rpcId == y.own[e.s].serial + 2
    ensures c in Step(y, e).rpc.clients && HeaderOk(Step(y, e), c)
  {
    if e.Take? {
      HeaderTake(y, e, c);
    } else if !e.Allocate? {
      assert OwnerOk(y, e.s);
    }
  }

  lemma StepIds(y: Sys, e: Event)
    requires Allocated(y) && Owners(y) && Ids(y) && Enabled(y, e) && Allocated(Step(y, e))
    ensures Ids(Step(y, e))
  {
    var y' := Step(y, e);
    if y'.issued + 2 < U32 {
      PacketIdsStep(y, e);
      forall c | c in y'.rpc.clients ensures HeaderOk(y', c) { HeaderStep(y, e, c); }
    }
  }

  /** The client has a request of its own that it claimed and that is not answered. */
  ghost predicate Busy(y: Sys, c: nat) {
    exists s :: s in y.own && y.own[s].client == c && Holds(y.own[s].phase)
  }

  /** SifCheckStatRpc reports 1 exactly while the client's own request is claimed and unanswered,
      also after failed sends and when another client reuses the old packet. */
  lemma CheckStatExact(y: Sys, c: nat)
    requires Allocated(y) && Owners(y) && Ids(y) && y.issued + 2 < U32 && c in y.rpc.clients
    ensures CheckStat(y.rpc, c) <==> Busy(y, c)
  {
    assert HeaderOk(y, c);
    if Busy(y, c) {
      var s :| s in y.own && y.own[s].client == c && Holds(y.own[s].phase);
      assert OwnerOk(y, s);
    }
  }

  // ------------------------------------------------------------ failed sends

  /** The header still names a packet, but no request of this client can be answered any more. */
  ghost predicate Wedged(y: Sys, c: nat) {
    && c in y.rpc.clients && y.rpc.clients[c].pkt.Some?
    && forall s :: s in y.own && y.own[s].client == c ==> y.own[s].phase != Claimed && y.own[s].phase != Sent
  }

  /** A send leaves its client wedged exactly when it fails. */
  lemma FailedSendWedges(y: Sys, s: nat, ok: bool)
    requires Inv(y) && Enabled(y, Send(s, ok))
    ensures Wedged(Step(y, Send(s, ok)), y.own[s].client) <==> !ok
  {
    var c, y' := y.own[s].client, Step(y, Send(s, ok));
    assert OwnerOk(y, s);
    if ok {
      assert s in y'.own && y'.own[s].client == c && y'.own[s].phase == Sent;
    } else {
      forall t | t in y'.own && y'.own[t].client == c ensures y'.own[t].phase != Claimed && y'.own[t].phase != Sent {
        assert OwnerOk(y, t);
      }
    }
  }

  /** A wedged client stays wedged, and every further request for it is refused. */
  lemma WedgedStep(y: Sys, e: Event, c: nat)
    requires Inv(y) && Wedged(y, c) && Enabled(y, e)
    ensures Wedged(Step(y, e), c)
    ensures e.Take? && e.c == c ==> Step(y, e).own[e.s].phase == Refused
  {
    var y' := Step(y, e);
    if e.Respond? { assert OwnerOk(y, e.s) && y.own[e.s].client != c; }
  }

  /** The event is a failed send of client `c`. */
  predicate FailsFor(y: Sys, e: Event, c: nat)
    requires Enabled(y, e)
  {
    e.Send? && !e.ok && y.own[e.s].client == c
  }

  /** A request of client `c` that can still be answered. */
  predicate Pending(y: Sys, s: nat, c: nat) {
    s in y.own && y.own[s].client == c && (y.own[s].phase == Claimed || y.own[s].phase == Sent)
  }

  /** A client that names a packet and is not wedged has a pending request. */
  lemma PendingOf(y: Sys, c: nat) returns (s: nat)
    requires c in y.rpc.clients && y.rpc.clients[c].pkt.Some? && !Wedged(y, c)
    ensures Pending(y, s, c)
  {
    s :| s in y.own && y.own[s].client == c && (y.own[s].phase == Claimed || y.own[s].phase == Sent);
  }

  /** A pending request stays pending except by its own failed send or its own response. */
  lemma PendingStep(y: Sys, e: Event, s: nat, c: nat)
    requires Inv(y) && Enabled(y, e) && Pending(y, s, c)
    requires !FailsFor(y, e, c) && !(e.Respond? && e.s == s)
    ensures Pending(Step(y, e), s, c)
  {
    if e.Allocate? { assert y.rpc.pkts[s].alloc; }
  }

  /** No event but a failed send wedges a client. */
  lemma NotWedgedStep(y: Sys, e: Event, c: nat)
    requires Inv(y) && Enabled(y, e) && !Wedged(y, c) && !FailsFor(y, e, c)
    ensures !Wedged(Step(y, e), c)
  {
    if c in y.rpc.clients && y.rpc.clients[c].pkt.Some? {
      var s := PendingOf(y, c);
      if e.Respond? && e.s == s {
        assert Step(y, e).rpc.clients[c].pkt == None;
      } else {
        PendingStep(y, e, s, c);
      }
    } else if e.Take? && e.c == c {
      assert Pending(Step(y, e), e.s, c);
    } else if c in y.rpc.clients {
      assert Step(y, e).rpc.clients[c].pkt == None;
    }
  }

  /** A step leaves a client wedged if and only if it was, or the step is a failed send of it. */
  lemma WedgedStepExact(y: Sys, e: Event, c: nat)
    requires Inv(y) && Enabled(y, e)
    ensures Wedged(Step(y, e), c) <==> Wedged(y, c) || FailsFor(y, e, c)
  {
    if FailsFor(y, e, c) {
      FailedSendWedges(y, e.s, false);
    } else if Wedged(y, c) {
      WedgedStep(y, e, c);
    } else {
      NotWedgedStep(y, e, c);
    }
  }

  /** An answered request releases its client: the next one is taken. */
  lemma AnswerReleases(y: Sys, s: nat, cmd: Command)
    requires Inv(y) && Enabled(y, Respond(s, cmd))
    ensures var y' := Step(y, Respond(s, cmd)); var c := y.own[s].client;
            y'.rpc.clients[c].pkt == None && !Busy(y', c)
  {
    var y', c := Step(y, Respond(s, cmd)), y.own[s].client;
    RespondKeeps(y, s, cmd);
    forall t | t in y'.own && y'.own[t].client == c ensures !Holds(y'.own[t].phase) {
      assert OwnerOk(y', t);
    }
  }

  // --------------------------------------------------------------------- runs

  ghost predicate Runnable(y: Sys, es: seq<Event>)
    decreases |es|
  {
    es == [] || (Enabled(y, es[0]) && Runnable(Step(y, es[0]), es[1..]))
  }

  ghost function After(y: Sys, es: seq<Event>): Sys
    requires Runnable(y, es)
    decreases |es|
  {
    if es == [] then y else After(Step(y, es[0]), es[1..])
  }

  ghost predicate Start(y: Sys) {
    Initial(y.rpc) && y.own == map[] && y.issued == 0 && y.accepted == map[] && y.calls == []
  }

  lemma {:induction false} RunInv(y: Sys, es: seq<Event>)
    requires Inv(y) && Ids(y) && Runnable(y, es)
    ensures Inv(After(y, es)) && Ids(After(y, es))
    decreases |es|
  {
    if es != [] {
      StepInv(y, es[0]);
      StepIds(y, es[0]);
      RunInv(Step(y, es[0]), es[1..]);
    }
  }

  /** In every run from the initial table: packets correspond to requests, end functions are
      called once per response with their own argument, and the status query is exact. */
  lemma EveryRun(y: Sys, es: seq<Event>)
    requires Start(y) && Runnable(y, es)
    ensures var z := After(y, es);
            && Allocated(z) && Owners(z) && CalledOnce(z)
            && (z.issued + 2 < U32 ==> forall c :: c in z.rpc.clients ==> (CheckStat(z.rpc, c) <==> Busy(z, c)))
  {
    assert forall n: nat :: CallsFor(y.calls, n) == 0;
    RunInv(y, es);
    var z := After(y, es);
    if z.issued + 2 < U32 {
      forall c | c in z.rpc.clients ensures CheckStat(z.rpc, c) <==> Busy(z, c) { CheckStatExact(z, c); }
    }
  }

  lemma {:induction false} WedgedForever(y: Sys, es: seq<Event>, c: nat)
    requires Inv(y) && Wedged(y, c) && Runnable(y, es)
    ensures Inv(After(y, es)) && Wedged(After(y, es), c)
    decreases |es|
  {
    if es != [] {
      StepInv(y, es[0]);
      WedgedStep(y, es[0], c);
      WedgedForever(Step(y, es[0]), es[1..], c);
    }
  }

  /** Some send of client `c` failed in the run. */
  ghost predicate SendFailedIn(y: Sys, es: seq<Event>, c: nat)
    requires Runnable(y, es)
    decreases |es|
  {
    es != [] && (FailsFor(y, es[0], c) || SendFailedIn(Step(y, es[0]), es[1..], c))
  }

  /** Over a run: wedged at the end if and only if wedged before or one of its sends failed. */
  lemma {:induction false} WedgedRunExact(y: Sys, es: seq<Event>, c: nat)
    requires Inv(y) && Runnable(y, es)
    ensures Wedged(After(y, es), c) <==> Wedged(y, c) || SendFailedIn(y, es, c)
    decreases |es|
  {
    if es != [] {
      StepInv(y, es[0]);
      WedgedStepExact(y, es[0], c);
      WedgedRunExact(Step(y, es[0]), es[1..], c);
    }
  }

  /** From the initial table a client is refused for good if and only if one of its sends failed. */
  lemma WedgedExactly(y: Sys, es: seq<Event>, c: nat)
    requires Start(y) && Runnable(y, es)
    ensures Wedged(After(y, es), c) <==> SendFailedIn(y, es, c)
  {
    assert forall n: nat :: CallsFor(y.calls, n) == 0;
    WedgedRunExact(y, es, c);
  }

  /** "Retry later" never helps: after one failed send, whatever happens in between and however
      often it is tried, every further request of that client is refused. */
  lemma RetryNeverHelps(y: Sys, s: nat, es: seq<Event>, t: nat, end: Option<End>, bind: bool)
    requires Inv(y) && Enabled(y, Send(s, false)) && Runnable(Step(y, Send(s, false)), es)
    requires Enabled(After(Step(y, Send(s, false)), es), Take(t, y.own[s].client, end, bind))
    ensures Step(After(Step(y, Send(s, false)), es), Take(t, y.own[s].client, end, bind)).own[t].phase == Refused
  {
    var c, z := y.own[s].client, Step(y, Send(s, false));
    FailedSendWedges(y, s, false);
    StepInv(y, Send(s, false));
    WedgedForever(z, es, c);
    WedgedStep(After(z, es), Take(t, c, end, bind), c);
  }

  // ------------------------------------------------- calls and answers as sections

  /** The sections of an undisturbed SifBindRpc or SifCallRpc past the alignment test. */
  function Sections(r: Rpc, c: nat, end: Option<End>, bind: bool, sent: bool): seq<Event>
    requires c in r.clients
  {
    var s := FreeSlot(r.pkts, 0);
    if s == |r.pkts| then [Allocate]
    else if r.clients[c].pkt != None then [Allocate, Take(s, c, end, bind), Release(s)]
    else if sent then [Allocate, Take(s, c, end, bind), Send(s, true)]
    else [Allocate, Take(s, c, end, bind), Send(s, false), Release(s)]
  }

  lemma RunOne(y: Sys, e: Event, es: seq<Event>, z: Sys)
    requires Enabled(y, e) && Runnable(Step(y, e), es) && After(Step(y, e), es) == z
    ensures Runnable(y, [e] + es) && After(y, [e] + es) == z
  {
    assert ([e] + es)[0] == e && ([e] + es)[1..] == es;
  }

  /** The routine as a whole is its sections one after the other. */
  lemma RequestIsSections(y: Sys, c: nat, end: Option<End>, bind: bool, sent: bool)
    requires c in y.rpc.clients
    ensures var es := Sections(y.rpc, c, end, bind, sent);
            Runnable(y, es) && After(y, es).rpc == Requested(y.rpc, c, end, bind, true, sent).0
  {
    var s := FreeSlot(y.rpc.pkts, 0);
    var y1 := Step(y, Allocate);
    if s == |y.rpc.pkts| {
      assert Runnable(y1, []) && After(y1, []) == y1;
      RunOne(y, Allocate, [], y1);
      assert [Allocate] + [] == [Allocate];
    } else {
      var es, z := PacketTail(y1, s, c, end, bind, sent);
      RunOne(y, Allocate, es, z);
      assert [Allocate] + es == Sections(y.rpc, c, end, bind, sent);
    }
  }

  /** What follows once there is a packet. */
  lemma PacketTail(y: Sys, s: nat, c: nat, end: Option<End>, bind: bool, sent: bool) returns (es: seq<Event>, z: Sys)
    requires s in y.own && s < |y.rpc.pkts| && y.own[s].phase == Got && c in y.rpc.clients
    ensures Runnable(y, es) && After(y, es) == z
    ensures var take := Take(s, c, end, bind); var (r, ok) := Claim(y.rpc, c, s, end, bind);
            if !ok then es == [take, Release(s)] && z.rpc == FreePacket(r, s)
            else if sent then es == [take, Send(s, true)] && z.rpc == r
            else es == [take, Send(s, false), Release(s)] && z.rpc == FreePacket(r, s)
  {
    var take := Take(s, c, end, bind);
    var tail;
    tail, z := ClaimedTail(Step(y, take), s, sent);
    RunOne(y, take, tail, z);
    es := [take] + tail;
  }

  /** What follows once the client has been asked for. */
  lemma ClaimedTail(y: Sys, s: nat, sent: bool) returns (es: seq<Event>, z: Sys)
    requires s in y.own && s < |y.rpc.pkts| && (y.own[s].phase == Claimed || y.own[s].phase == Refused)
    ensures Runnable(y, es) && After(y, es) == z
    ensures if y.own[s].phase == Refused then es == [Release(s)] && z.rpc == FreePacket(y.rpc, s)
            else if sent then es == [Send(s, true)] && z.rpc == y.rpc
            else es == [Send(s, false), Release(s)] && z.rpc == FreePacket(y.rpc, s)
  {
    if y.own[s].phase == Refused {
      z := Step(y, Release(s));
      RunOne(y, Release(s), [], z);
      es := [Release(s)] + [];
    } else {
      var y1 := Step(y, Send(s, sent));
      if sent {
        z := y1;
        RunOne(y, Send(s, true), [], z);
        es := [Send(s, true)] + [];
      } else {
        z := Step(y1, Release(s));
        RunOne(y1, Release(s), [], z);
        RunOne(y, Send(s, false), [Release(s)] + [], z);
        es := [Send(s, false)] + ([Release(s)] + []);
      }
    }
  }

  /** The answer count of a client with a request that it claimed and that is not answered is 0. */
  ghost predicate Unanswered(y: Sys) {
    forall s :: s in y.own && Holds(y.own[s].phase) && y.own[s].client in y.rpc.clients ==> y.rpc.clients[y.own[s].client].sema == 0
  }

  /** A waiting caller, which polls the answer count, goes on exactly when its own answer has come:
      the count stays 0 until then, and the answer makes it 1. */
  lemma AnswerCounted(y: Sys, e: Event)
    requires Inv(y) && Unanswered(y) && Enabled(y, e)
    ensures Unanswered(Step(y, e))
    ensures e.Respond? ==> y.own[e.s].client in Step(y, e).rpc.clients && Step(y, e).rpc.clients[y.own[e.s].client].sema == 1
  {
    var y' := Step(y, e);
    forall s | s in y.own ensures OwnerOk(y, s) {}
    forall s | s in y'.own && Holds(y'.own[s].phase) && y'.own[s].client in y'.rpc.clients
      ensures y'.rpc.clients[y'.own[s].client].sema == 0
    {
      AnswerOne(y, e, s);
    }
  }

  lemma AnswerOne(y: Sys, e: Event, s: nat)
    requires Inv(y) && Unanswered(y) && Enabled(y, e)
    requires s in Step(y, e).own && Holds(Step(y, e).own[s].phase) && Step(y, e).own[s].client in Step(y, e).rpc.clients
    ensures Step(y, e).rpc.clients[Step(y, e).own[s].client].sema == 0
  {
    if s in y.own { assert OwnerOk(y, s); }
    if !e.Allocate? && e.s in y.own { assert OwnerOk(y, e.s); }
  }

  /** Over every run from the initial table. */
  lemma {:induction false} AnswersCounted(y: Sys, es: seq<Event>)
    requires Inv(y) && Unanswered(y) && Runnable(y, es)
    ensures Inv(After(y, es)) && Unanswered(After(y, es))
    decreases |es|
  {
    if es != [] {
      StepInv(y, es[0]);
      AnswerCounted(y, es[0]);
      AnswersCounted(Step(y, es[0]), es[1..]);
    }
  }

  // ------------------------------------------------------------------ packet ids

  /** The id counter after `n` packets, from its initial value. */
  function PidAfter(n: nat): nat {
    if n == 0 then 1 else NextId(PidAfter(n - 1)).1
  }

  /** The id of packet `n`. */
  function IdOf(n: nat): nat {
    NextId(PidAfter(n)).0
  }

  /** The ids go 2, 3, ..., 2^32 - 1, 0, 1 and then round 3, ..., 2^32 - 1, 0, 1 for ever. */
  function Cycle(n: nat): nat {
    if n == 0 then 2
    else
      var k := (n - 1) % (U32 - 1);
      if k < U32 - 3 then k + 3 else k - (U32 - 3)
  }

  lemma NextInCycle(n: nat)
    requires n > 0
    ensures var k, j := (n - 1) % (U32 - 1), n % (U32 - 1); j == if k == U32 - 2 then 0 else k + 1
  {
  }

  lemma {:induction false} PidInCycle(n: nat)
    ensures IdOf(n) == Cycle(n)
    ensures PidAfter(n + 1) == if IdOf(n) == 1 then 2 else IdOf(n)
  {
    if n > 0 {
      PidInCycle(n - 1);
      if n > 1 { NextInCycle(n - 1); }
    }
  }

  lemma OtherResidue(a: nat, b: nat)
    requires a < b < a + (U32 - 1)
    ensures a % (U32 - 1) != b % (U32 - 1)
  {
  }

  /** No id comes back within 2^32 - 2 packets. */
  lemma IdsDiffer(a: nat, b: nat)
    requires a < b < a + (U32 - 1)
    ensures IdOf(a) != IdOf(b)
  {
    PidInCycle(a);
    PidInCycle(b);
    if a > 0 { OtherResidue(a - 1, b - 1); }
  }
}
