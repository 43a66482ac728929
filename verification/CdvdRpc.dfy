/**
  The CD/DVD model treats a request of the RPC layer as one step on an abstract client.  Here
  that step, and the response, are proved to be what the RPC layer does: a simulation between
  `SifRpcProofs` and `CdvdProofs`.  A thread is the argument of the end function it passed.
 */
module CdvdRpc {
  import Rpc = SifRpcProofs
  import Cdvd = CdvdProofs
  import opened SifRpcState
  import opened CdvdState

  /** The request of thread `t` on client `c` is with the IOP. */
  predicate SentBy(y: Rpc.Sys, s: nat, c: nat, t: nat) {
    && s in y.own && y.own[s].client == c && y.own[s].phase == Rpc.Sent
    && y.own[s].end.Some? && y.own[s].end.value.arg == t
  }

  ghost predicate Shows(y: Rpc.Sys, c: nat, st: Cdvd.ClientState) {
    && c in y.rpc.clients
    && match st
       case Idle => y.rpc.clients[c].pkt == None
       case InUse(t) => exists s :: SentBy(y, s, c, t)
       case Stuck => Rpc.Wedged(y, c)
  }

  /** The state of a client and whether it has a server. */
  ghost predicate Agrees(y: Rpc.Sys, c: nat, st: Cdvd.ClientState, server: bool) {
    Shows(y, c, st) && (server <==> y.rpc.clients[c].server != 0)
  }

  /** The RPC clients behind the names are distinct and in the abstract states. */
  ghost predicate Simulates(y: Rpc.Sys, x: Cdvd.Sys, num: Name -> nat) {
    && Rpc.Inv(y) && Cdvd.Full(x)
    && (forall a: Name, b: Name :: num(a) == num(b) ==> a == b)
    && (forall a: Name :: Agrees(y, num(a), x.clients[a], x.servers[a]))
  }

  lemma Together(y: Rpc.Sys, x: Cdvd.Sys, num: Name -> nat, z: Rpc.Sys, x': Cdvd.Sys)
    requires Simulates(y, x, num) && Rpc.Inv(z) && Cdvd.Full(x')
    requires forall a: Name :: Agrees(z, num(a), x'.clients[a], x'.servers[a])
    ensures Simulates(z, x', num)
  {
  }

  lemma BusyRefused(y: Rpc.Sys, c: nat, st: Cdvd.ClientState)
    requires Rpc.Inv(y) && Shows(y, c, st)
    ensures y.rpc.clients[c].pkt == None <==> st == Cdvd.Idle
  {
    if st.InUse? {
      var s :| SentBy(y, s, c, st.owner);
      assert Rpc.OwnerOk(y, s);
    }
  }

  /** A step on one client leaves what is shown of another one alone. */
  lemma OthersShown(y: Rpc.Sys, e: Rpc.Event, d: nat, st: Cdvd.ClientState)
    requires Rpc.Inv(y) && Rpc.Enabled(y, e) && Shows(y, d, st)
    requires e.Take? ==> e.c != d
    requires e.Send? || e.Respond? ==> y.own[e.s].client != d
    requires e.Take? || e.Send? || e.Respond? || e.Release?
    ensures Shows(Rpc.Step(y, e), d, st)
    ensures Rpc.Step(y, e).rpc.clients[d] == y.rpc.clients[d]
  {
    if st.InUse? {
      var s :| SentBy(y, s, d, st.owner);
      assert SentBy(Rpc.Step(y, e), s, d, st.owner);
    } else if st == Cdvd.Stuck {
      Rpc.WedgedStep(y, e, d);
    }
  }

  /** The sections of one call of SifBindRpc or SifCallRpc, from its packet on. */
  function Call(y: Rpc.Sys, s: nat, c: nat, end: Option<End>, bind: bool, ok: bool): (es: seq<Rpc.Event>)
    requires c in y.rpc.clients
  {
    var take := Rpc.Take(s, c, end, bind);
    if y.rpc.clients[c].pkt != None then [take, Rpc.Release(s)]
    else if ok then [take, Rpc.Send(s, true)]
    else [take, Rpc.Send(s, false), Rpc.Release(s)]
  }

  /** A packet and the client it will be used for. */
  predicate HasPacket(y: Rpc.Sys, s: nat) {
    s in y.own && y.own[s].phase == Rpc.Got
  }

  lemma RunTwo(y: Rpc.Sys, a: Rpc.Event, b: Rpc.Event)
    requires Rpc.Enabled(y, a) && Rpc.Enabled(Rpc.Step(y, a), b)
    ensures Rpc.Runnable(y, [a, b]) && Rpc.After(y, [a, b]) == Rpc.Step(Rpc.Step(y, a), b)
  {
    var z := Rpc.Step(y, a);
    assert [a, b][1..] == [b] && [b][1..] == [];
    assert Rpc.Runnable(Rpc.Step(z, b), []) && Rpc.After(Rpc.Step(z, b), []) == Rpc.Step(z, b);
    assert Rpc.Runnable(z, [b]) && Rpc.After(z, [b]) == Rpc.Step(z, b);
  }

  lemma RunThree(y: Rpc.Sys, a: Rpc.Event, b: Rpc.Event, c: Rpc.Event)
    requires Rpc.Enabled(y, a) && Rpc.Enabled(Rpc.Step(y, a), b) && Rpc.Enabled(Rpc.Step(Rpc.Step(y, a), b), c)
    ensures Rpc.Runnable(y, [a, b, c]) && Rpc.After(y, [a, b, c]) == Rpc.Step(Rpc.Step(Rpc.Step(y, a), b), c)
  {
    assert [a, b, c][1..] == [b, c];
    RunTwo(Rpc.Step(y, a), b, c);
  }

  /** The state of the client after a call by thread `t`. */
  function Outcome(st: Cdvd.ClientState, t: nat, ok: bool): Cdvd.ClientState {
    if st != Cdvd.Idle then st else if ok then Cdvd.InUse(t) else Cdvd.Stuck
  }

  lemma CallRefused(y: Rpc.Sys, s: nat, c: nat, end: Option<End>, bind: bool, ok: bool, st: Cdvd.ClientState)
    requires Rpc.Inv(y) && HasPacket(y, s) && Shows(y, c, st) && st != Cdvd.Idle
    ensures var es := Call(y, s, c, end, bind, ok);
            Rpc.Runnable(y, es) && Shows(Rpc.After(y, es), c, st) && Rpc.After(y, es).rpc.clients == y.rpc.clients
  {
    BusyRefused(y, c, st);
    var y1, z := RefusedSteps(y, s, c, end, bind);
    if st.InUse? {
      var u :| SentBy(y, u, c, st.owner);
      assert SentBy(z, u, c, st.owner);
    } else {
      Rpc.WedgedStep(y, Rpc.Take(s, c, end, bind), c);
      Rpc.WedgedStep(y1, Rpc.Release(s), c);
    }
  }

  /** A refused call gives its packet back and changes nothing else. */
  lemma RefusedSteps(y: Rpc.Sys, s: nat, c: nat, end: Option<End>, bind: bool) returns (y1: Rpc.Sys, z: Rpc.Sys)
    requires Rpc.Inv(y) && HasPacket(y, s) && c in y.rpc.clients && y.rpc.clients[c].pkt != None
    ensures var take := Rpc.Take(s, c, end, bind);
            && Rpc.Enabled(y, take) && y1 == Rpc.Step(y, take) && Rpc.Inv(y1)
            && Rpc.Enabled(y1, Rpc.Release(s)) && z == Rpc.Step(y1, Rpc.Release(s)) && Rpc.Inv(z)
            && Rpc.Runnable(y, [take, Rpc.Release(s)]) && Rpc.After(y, [take, Rpc.Release(s)]) == z
    ensures z.rpc.clients == y.rpc.clients
    ensures forall u :: u in y.own && u != s ==> u in z.own && z.own[u] == y.own[u]
  {
    var take := Rpc.Take(s, c, end, bind);
    y1 := Rpc.Step(y, take);
    Rpc.StepInv(y, take);
    z := Rpc.Step(y1, Rpc.Release(s));
    Rpc.StepInv(y1, Rpc.Release(s));
    RunTwo(y, take, Rpc.Release(s));
  }

  lemma CallTaken(y: Rpc.Sys, s: nat, c: nat, f: nat, t: nat, bind: bool, ok: bool)
    requires Rpc.Inv(y) && HasPacket(y, s) && Shows(y, c, Cdvd.Idle)
    ensures var es := Call(y, s, c, Some(End(f, t)), bind, ok);
            && Rpc.Runnable(y, es) && Shows(Rpc.After(y, es), c, Outcome(Cdvd.Idle, t, ok))
            && Rpc.After(y, es).rpc.clients[c].server == if bind then 0 else y.rpc.clients[c].server
  {
    var take, send := Rpc.Take(s, c, Some(End(f, t)), bind), Rpc.Send(s, ok);
    var y1 := Rpc.Step(y, take);
    Rpc.StepInv(y, take);
    var y2 := Rpc.Step(y1, send);
    Rpc.StepInv(y1, send);
    if ok {
      RunTwo(y, take, send);
      assert SentBy(y2, s, c, t);
    } else {
      Rpc.FailedSendWedges(y1, s, false);
      RunThree(y, take, send, Rpc.Release(s));
      Rpc.WedgedStep(y2, Rpc.Release(s), c);
    }
  }

  /** Every client but `c` is shown as before. */
  lemma CallOthers(y: Rpc.Sys, s: nat, c: nat, end: Option<End>, bind: bool, ok: bool, d: nat, st: Cdvd.ClientState)
    requires Rpc.Inv(y) && HasPacket(y, s) && c in y.rpc.clients && Shows(y, d, st) && d != c
    ensures var es := Call(y, s, c, end, bind, ok);
            && Rpc.Runnable(y, es)
            && Shows(Rpc.After(y, es), d, st) && Rpc.After(y, es).rpc.clients[d] == y.rpc.clients[d]
  {
    if y.rpc.clients[c].pkt != None {
      var y1, z := RefusedSteps(y, s, c, end, bind);
      OthersShown(y, Rpc.Take(s, c, end, bind), d, st);
      OthersShown(y1, Rpc.Release(s), d, st);
    } else {
      OthersTaken(y, s, c, end, bind, ok, d, st);
    }
  }

  lemma OthersTaken(y: Rpc.Sys, s: nat, c: nat, end: Option<End>, bind: bool, ok: bool, d: nat, st: Cdvd.ClientState)
    requires Rpc.Inv(y) && HasPacket(y, s) && c in y.rpc.clients && Shows(y, d, st) && d != c && y.rpc.clients[c].pkt == None
    ensures var es := Call(y, s, c, end, bind, ok);
            && Rpc.Runnable(y, es)
            && Shows(Rpc.After(y, es), d, st) && Rpc.After(y, es).rpc.clients[d] == y.rpc.clients[d]
  {
    var take, send, release := Rpc.Take(s, c, end, bind), Rpc.Send(s, ok), Rpc.Release(s);
    var y1 := Rpc.Step(y, take);
    Rpc.StepInv(y, take);
    OthersShown(y, take, d, st);
    OthersShown(y1, send, d, st);
    if ok {
      RunTwo(y, take, send);
    } else {
      Rpc.StepInv(y1, send);
      OthersShown(Rpc.Step(y1, send), release, d, st);
      RunThree(y, take, send, release);
    }
  }

  /** What `CdvdProofs.Request` does, in terms of one client. */
  lemma RequestEffect(x: Cdvd.Sys, t: nat, ok: bool)
    requires Cdvd.Full(x) && t in x.threads
    ensures var x' := Cdvd.Request(x, t, if ok then Cdvd.Accepted else Cdvd.SendFailed).0;
            var cmd := x.threads[t].cmd; var n := ClientOf(cmd);
            && Cdvd.Full(x')
            && x'.clients == x.clients[n := Outcome(x.clients[n], t, ok)]
            && x'.servers == (if x.clients[n] == Cdvd.Idle && Binds(cmd) then x.servers[n := false] else x.servers)
  {
  }

  /** What a call does to one client. */
  lemma CallAgrees(y: Rpc.Sys, s: nat, c: nat, f: nat, t: nat, bind: bool, ok: bool, d: nat, st: Cdvd.ClientState, server: bool)
    requires Rpc.Inv(y) && HasPacket(y, s) && c in y.rpc.clients && Agrees(y, d, st, server)
    ensures var es := Call(y, s, c, Some(End(f, t)), bind, ok);
            && Rpc.Runnable(y, es)
            && if d == c then Agrees(Rpc.After(y, es), c, Outcome(st, t, ok), server && !(st == Cdvd.Idle && bind))
               else Agrees(Rpc.After(y, es), d, st, server)
  {
    if d != c {
      CallOthers(y, s, c, Some(End(f, t)), bind, ok, d, st);
    } else if st == Cdvd.Idle {
      CallTaken(y, s, c, f, t, bind, ok);
    } else {
      CallRefused(y, s, c, Some(End(f, t)), bind, ok, st);
    }
  }

  lemma {:induction false} RunKeepsInv(y: Rpc.Sys, es: seq<Rpc.Event>)
    requires Rpc.Inv(y) && Rpc.Runnable(y, es)
    ensures Rpc.Inv(Rpc.After(y, es))
    decreases |es|
  {
    if es != [] {
      Rpc.StepInv(y, es[0]);
      RunKeepsInv(Rpc.Step(y, es[0]), es[1..]);
    }
  }

  /** One client in an abstract step that changes client `n` only. */
  lemma RequestOne(y: Rpc.Sys, x: Cdvd.Sys, num: Name -> nat, s: nat, f: nat, t: nat, ok: bool, n: Name, a: Name)
    requires Simulates(y, x, num) && HasPacket(y, s) && t in x.threads && n == ClientOf(x.threads[t].cmd)
    ensures num(n) in y.rpc.clients
    ensures var bind := Binds(x.threads[t].cmd); var es := Call(y, s, num(n), Some(End(f, t)), bind, ok);
            && Rpc.Runnable(y, es)
            && if a == n then Agrees(Rpc.After(y, es), num(a), Outcome(x.clients[n], t, ok), x.servers[n] && !(x.clients[n] == Cdvd.Idle && bind))
               else Agrees(Rpc.After(y, es), num(a), x.clients[a], x.servers[a])
  {
    assert Agrees(y, num(n), x.clients[n], x.servers[n]) && Agrees(y, num(a), x.clients[a], x.servers[a]);
    CallAgrees(y, s, num(n), f, t, Binds(x.threads[t].cmd), ok, num(a), x.clients[a], x.servers[a]);
  }

  /** `CdvdProofs.Request` is what a call of the RPC layer does to all clients. */
  lemma RequestSimulates(y: Rpc.Sys, x: Cdvd.Sys, num: Name -> nat, s: nat, f: nat, t: nat, ok: bool, n: Name)
    requires Simulates(y, x, num) && HasPacket(y, s) && t in x.threads && n == ClientOf(x.threads[t].cmd)
    ensures num(n) in y.rpc.clients
    ensures var es := Call(y, s, num(n), Some(End(f, t)), Binds(x.threads[t].cmd), ok);
            && Rpc.Runnable(y, es)
            && Simulates(Rpc.After(y, es), Cdvd.Request(x, t, if ok then Cdvd.Accepted else Cdvd.SendFailed).0, num)
  {
    var z, x' := RequestParts(y, x, num, s, f, t, ok, n);
    RequestAll(y, x, num, s, f, t, ok, n, z, x');
    Together(y, x, num, z, x');
  }

  lemma RequestAll(y: Rpc.Sys, x: Cdvd.Sys, num: Name -> nat, s: nat, f: nat, t: nat, ok: bool, n: Name, z: Rpc.Sys, x': Cdvd.Sys)
    requires Simulates(y, x, num) && HasPacket(y, s) && t in x.threads && n == ClientOf(x.threads[t].cmd)
    requires num(n) in y.rpc.clients
    requires var es := Call(y, s, num(n), Some(End(f, t)), Binds(x.threads[t].cmd), ok); Rpc.Runnable(y, es) && z == Rpc.After(y, es)
    requires Cdvd.Full(x') && x'.clients == x.clients[n := Outcome(x.clients[n], t, ok)]
    requires x'.servers == if x.clients[n] == Cdvd.Idle && Binds(x.threads[t].cmd) then x.servers[n := false] else x.servers
    ensures forall a: Name :: Agrees(z, num(a), x'.clients[a], x'.servers[a])
  {
    forall a: Name ensures Agrees(z, num(a), x'.clients[a], x'.servers[a]) {
      RequestOne(y, x, num, s, f, t, ok, n, a);
    }
  }

  lemma RequestParts(y: Rpc.Sys, x: Cdvd.Sys, num: Name -> nat, s: nat, f: nat, t: nat, ok: bool, n: Name)
    returns (z: Rpc.Sys, x': Cdvd.Sys)
    requires Simulates(y, x, num) && HasPacket(y, s) && t in x.threads && n == ClientOf(x.threads[t].cmd)
    ensures num(n) in y.rpc.clients
    ensures var es := Call(y, s, num(n), Some(End(f, t)), Binds(x.threads[t].cmd), ok);
            Rpc.Runnable(y, es) && z == Rpc.After(y, es) && Rpc.Inv(z)
    ensures x' == Cdvd.Request(x, t, if ok then Cdvd.Accepted else Cdvd.SendFailed).0 && Cdvd.Full(x')
    ensures x'.clients == x.clients[n := Outcome(x.clients[n], t, ok)]
    ensures x'.servers == if x.clients[n] == Cdvd.Idle && Binds(x.threads[t].cmd) then x.servers[n := false] else x.servers
  {
    RequestOne(y, x, num, s, f, t, ok, n, n);
    var es := Call(y, s, num(n), Some(End(f, t)), Binds(x.threads[t].cmd), ok);
    RunKeepsInv(y, es);
    RequestEffect(x, t, ok);
    z := Rpc.After(y, es);
    x' := Cdvd.Request(x, t, if ok then Cdvd.Accepted else Cdvd.SendFailed).0;
  }

  /** Without a free packet nothing happens on either side. */
  lemma NoPacketSimulates(y: Rpc.Sys, x: Cdvd.Sys, num: Name -> nat, t: nat)
    requires Simulates(y, x, num) && t in x.threads && FreeSlot(y.rpc.pkts, 0) == |y.rpc.pkts|
    ensures Rpc.Step(y, Rpc.Allocate) == y && Cdvd.Request(x, t, Cdvd.NoPacket) == (x, false)
  {
  }

  /** What `CdvdProofs.StepRespond` does, in terms of one client. */
  lemma RespondEffect(x: Cdvd.Sys, t: nat, server: bool)
    requires Cdvd.Full(x) && t in x.threads
    ensures var x' := Cdvd.StepRespond(x, t, server); var cmd := x.threads[t].cmd; var n := ClientOf(cmd);
            && Cdvd.Full(x') && x'.clients == x.clients[n := Cdvd.Idle]
            && x'.servers == if Binds(cmd) then x.servers[n := server] else x.servers
  {
  }

  /** What a response does to one client. */
  lemma ResponseAgrees(y: Rpc.Sys, s: nat, c: nat, t: nat, reply: SifRpcState.Command, d: nat, st: Cdvd.ClientState, server: bool)
    requires Rpc.Inv(y) && SentBy(y, s, c, t) && Agrees(y, d, st, server)
    ensures var e := Rpc.Respond(s, reply);
            && Rpc.Enabled(y, e)
            && if d == c then Agrees(Rpc.Step(y, e), c, Cdvd.Idle, if reply.BindReply? then reply.server != 0 else server)
               else Agrees(Rpc.Step(y, e), d, st, server)
  {
    assert Rpc.OwnerOk(y, s);
    if d != c { OthersShown(y, Rpc.Respond(s, reply), d, st); }
  }

  lemma ResponseOne(y: Rpc.Sys, x: Cdvd.Sys, num: Name -> nat, s: nat, t: nat, n: Name, reply: SifRpcState.Command, a: Name)
    requires Simulates(y, x, num) && SentBy(y, s, num(n), t)
    ensures var e := Rpc.Respond(s, reply);
            && Rpc.Enabled(y, e)
            && if a == n then Agrees(Rpc.Step(y, e), num(a), Cdvd.Idle, if reply.BindReply? then reply.server != 0 else x.servers[n])
               else Agrees(Rpc.Step(y, e), num(a), x.clients[a], x.servers[a])
  {
    assert Agrees(y, num(a), x.clients[a], x.servers[a]);
    ResponseAgrees(y, s, num(n), t, reply, num(a), x.clients[a], x.servers[a]);
  }

  /** `CdvdProofs.StepRespond` is what a response does: the client is free again. */
  lemma ResponseSimulates(y: Rpc.Sys, x: Cdvd.Sys, num: Name -> nat, s: nat, t: nat, n: Name, server: nat, reply: SifRpcState.Command)
    requires Simulates(y, x, num) && t in x.threads && n == ClientOf(x.threads[t].cmd) && SentBy(y, s, num(n), t)
    requires reply == if Binds(x.threads[t].cmd) then BindReply(server) else CallReply
    ensures Rpc.Enabled(y, Rpc.Respond(s, reply))
    ensures Simulates(Rpc.Step(y, Rpc.Respond(s, reply)), Cdvd.StepRespond(x, t, server != 0), num)
  {
    var z, x' := ResponseParts(y, x, num, s, t, n, server, reply);
    ResponseAll(y, x, num, s, t, n, server, reply, z, x');
    Together(y, x, num, z, x');
  }

  lemma ResponseAll(y: Rpc.Sys, x: Cdvd.Sys, num: Name -> nat, s: nat, t: nat, n: Name, server: nat, reply: SifRpcState.Command,
                    z: Rpc.Sys, x': Cdvd.Sys)
    requires Simulates(y, x, num) && SentBy(y, s, num(n), t) && Rpc.Enabled(y, Rpc.Respond(s, reply))
    requires z == Rpc.Step(y, Rpc.Respond(s, reply)) && Cdvd.Full(x') && x'.clients == x.clients[n := Cdvd.Idle]
    requires x'.servers == if reply.BindReply? then x.servers[n := reply.server != 0] else x.servers
    ensures forall a: Name :: Agrees(z, num(a), x'.clients[a], x'.servers[a])
  {
    forall a: Name { ResponsePoint(y, x, num, s, t, n, reply, a, z, x'); }
  }

  lemma ResponsePoint(y: Rpc.Sys, x: Cdvd.Sys, num: Name -> nat, s: nat, t: nat, n: Name, reply: SifRpcState.Command, a: Name,
                      z: Rpc.Sys, x': Cdvd.Sys)
    requires Simulates(y, x, num) && SentBy(y, s, num(n), t) && Rpc.Enabled(y, Rpc.Respond(s, reply))
    requires z == Rpc.Step(y, Rpc.Respond(s, reply)) && Cdvd.Full(x') && x'.clients == x.clients[n := Cdvd.Idle]
    requires x'.servers == if reply.BindReply? then x.servers[n := reply.server != 0] else x.servers
    ensures Agrees(z, num(a), x'.clients[a], x'.servers[a])
  {
    ResponseOne(y, x, num, s, t, n, reply, a);
  }

  lemma ResponseParts(y: Rpc.Sys, x: Cdvd.Sys, num: Name -> nat, s: nat, t: nat, n: Name, server: nat, reply: SifRpcState.Command)
    returns (z: Rpc.Sys, x': Cdvd.Sys)
    requires Simulates(y, x, num) && t in x.threads && n == ClientOf(x.threads[t].cmd) && SentBy(y, s, num(n), t)
    ensures Rpc.Enabled(y, Rpc.Respond(s, reply)) && z == Rpc.Step(y, Rpc.Respond(s, reply)) && Rpc.Inv(z)
    ensures x' == Cdvd.StepRespond(x, t, server != 0) && Cdvd.Full(x') && x'.clients == x.clients[n := Cdvd.Idle]
    ensures x'.servers == if Binds(x.threads[t].cmd) then x.servers[n := server != 0] else x.servers
  {
    ResponseOne(y, x, num, s, t, n, reply, n);
    Rpc.StepInv(y, Rpc.Respond(s, reply));
    RespondEffect(x, t, server != 0);
    z := Rpc.Step(y, Rpc.Respond(s, reply));
    x' := Cdvd.StepRespond(x, t, server != 0);
  }

  /** The callback that is about to run is that of the thread that made the request. */
  lemma ResponseIsOwn(y: Rpc.Sys, s: nat, c: nat, t: nat, reply: SifRpcState.Command)
    requires Rpc.Inv(y) && SentBy(y, s, c, t) && Rpc.Enabled(y, Rpc.Respond(s, reply))
    ensures var p := Rpc.Step(y, Rpc.Respond(s, reply)).own[s].phase; p.Ending? && p.read.Some? && p.read.value.arg == t
  {
    assert Rpc.OwnerOk(y, s);
  }

  /** Power-on states of the two models simulate each other. */
  lemma StartSimulates(y: Rpc.Sys, x: Cdvd.Sys, num: Name -> nat)
    requires Rpc.Start(y) && Cdvd.Start(x)
    requires forall a: Name, b: Name :: num(a) == num(b) ==> a == b
    requires forall a: Name :: num(a) in y.rpc.clients && (x.servers[a] <==> y.rpc.clients[num(a)].server != 0)
    ensures Simulates(y, x, num)
  {
    forall a: Name ensures Agrees(y, num(a), x.clients[a], x.servers[a]) {
      assert num(a) in y.rpc.clients;
    }
  }

  /** A failed send of client `c` has not given its packet back yet. */
  ghost predicate GivingUp(y: Rpc.Sys, c: nat) {
    exists s :: s in y.own && y.own[s].client == c && y.own[s].phase == Rpc.SendFailed
  }

  /** The test of cdvdLockN and cdvdLockS: while ids have not wrapped, SifCheckStatRpc reports a
      pending request if and only if the abstract client is in use, or a failed send is just giving
      its packet back. */
  lemma StatIsCheck(y: Rpc.Sys, x: Cdvd.Sys, num: Name -> nat, a: Name)
    requires Simulates(y, x, num) && Rpc.Ids(y) && y.issued + 2 < U32
    ensures num(a) in y.rpc.clients
    ensures CheckStat(y.rpc, num(a)) <==> x.clients[a].InUse? || GivingUp(y, num(a))
  {
    assert Agrees(y, num(a), x.clients[a], x.servers[a]);
    Rpc.CheckStatExact(y, num(a));
    if Rpc.Busy(y, num(a)) {
      var s :| s in y.own && y.own[s].client == num(a) && Rpc.Holds(y.own[s].phase);
      assert Rpc.OwnerOk(y, s);
    }
  }
}
