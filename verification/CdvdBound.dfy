/**
  Initialisation that does its job: with init calls issued one at a time, which commands are let
  through at which stage, and that whatever is sent goes to a client that has a server.
 */
module CdvdBound {
  import opened CdvdState
  import opened CdvdProofs
  import opened CdvdRuns

  /** The stages that must be over before a command is let through. */
  function Needed(c: Command): nat {
    match c
    case DiskReady => 3
    case NCmd(_) => 5
    case SCmd(_) => 6
    case _ => 0
  }

  /** The bind variables say which stages are over. */
  predicate BoundOk(g: Globals) {
    && g.counter <= 6
    && (g.boundReady <==> g.counter >= 3) && (g.boundN <==> g.counter >= 5) && (g.boundS <==> g.counter >= 6)
  }

  /** The client that a stage was for has a server once the stage is over. */
  ghost predicate ServersOk(y: Sys)
    requires Full(y)
  {
    && (y.g.counter >= 1 ==> y.servers[ClientInit]) && (y.g.counter >= 2 ==> y.servers[ClientSearchFile])
    && (y.g.counter >= 3 ==> y.servers[ClientDiskReady]) && (y.g.counter >= 5 ==> y.servers[ClientNCmd])
    && (y.g.counter >= 6 ==> y.servers[ClientSCmd])
  }

  /** An init call uses the current stage, and a command that is past its test has what it needs. */
  predicate CallOk(counter: nat, th: Thread) {
    && (th.cmd.Init? && Underway(th.pc) ==> th.cmd.stage == counter <= 5)
    && (th.cmd.Init? && th.pc == AtLock ==> th.cmd.stage <= 5)
    && (UsesBuffers(th.cmd) && Filled(th.pc) ==> Needed(th.cmd) <= counter)
  }

  ghost predicate InitInv(y: Sys) {
    && Full(y) && OneActive(y) && BoundOk(y.g) && ServersOk(y)
    && forall t :: t in y.threads ==> CallOk(y.g.counter, y.threads[t])
  }

  /** Steps that leave the stage, the bind variables and the servers alone. */
  lemma StillOk(y: Sys, e: Event)
    requires InitInv(y) && Enabled(y, e) && Serial(y, e)
    requires var y' := Step(y, e);
             && y'.g.counter == y.g.counter && y'.g.boundReady == y.g.boundReady && y'.g.boundN == y.g.boundN
             && y'.g.boundS == y.g.boundS && y'.servers == y.servers && CallOk(y.g.counter, y'.threads[e.t])
    ensures InitInv(Step(y, e))
  {
    SerialStep(y, e);
  }

  lemma BeginOk(y: Sys, e: Event)
    requires InitInv(y) && Enabled(y, e) && Serial(y, e) && !e.Go?
    ensures InitInv(Step(y, e))
  {
    StillOk(y, e);
  }

  lemma LockOk(y: Sys, e: Event)
    requires InitInv(y) && Enabled(y, e) && e.Go? && y.threads[e.t].pc == AtLock
    ensures InitInv(Step(y, e))
  {
    assert CallOk(y.g.counter, y.threads[e.t]) && Reads(y, y.threads[e.t]);
    StillOk(y, e);
  }

  lemma StatOk(y: Sys, e: Event)
    requires InitInv(y) && Enabled(y, e) && e.Go? && y.threads[e.t].pc == AtStat
    ensures InitInv(Step(y, e))
  {
    assert CallOk(y.g.counter, y.threads[e.t]);
    StillOk(y, e);
  }

  lemma BindOk(y: Sys, e: Event)
    requires InitInv(y) && Enabled(y, e) && e.Go? && y.threads[e.t].pc == AtBind
    ensures InitInv(Step(y, e))
  {
    assert CallOk(y.g.counter, y.threads[e.t]);
    StillOk(y, e);
  }

  /** What a request and its answer do to the servers: at most that of the current stage changes. */
  lemma ServerEffect(y: Sys, e: Event)
    requires InitInv(y) && Enabled(y, e) && e.Go? && (y.threads[e.t].pc == AtCall || y.threads[e.t].pc == InFlight)
    ensures var y', cmd := Step(y, e), y.threads[e.t].cmd;
            && y'.g == y.g && y'.threads[e.t].cmd == cmd && ServersOk(y')
            && (Filled(y'.threads[e.t].pc) || y'.threads[e.t].pc == AtUnlock || y'.threads[e.t].pc == Failed)
  {
    assert CallOk(y.g.counter, y.threads[e.t]);
  }

  lemma CallOkStep(y: Sys, e: Event)
    requires InitInv(y) && Enabled(y, e) && e.Go? && (y.threads[e.t].pc == AtCall || y.threads[e.t].pc == InFlight)
    ensures InitInv(Step(y, e))
  {
    assert CallOk(y.g.counter, y.threads[e.t]);
    ServerEffect(y, e);
    SerialStep(y, e);
  }

  lemma RestOk(y: Sys, e: Event)
    requires InitInv(y) && Enabled(y, e) && e.Go?
    requires var pc := y.threads[e.t].pc; pc == AtStage || pc == AtUnlock || pc.Unlocking? || pc == Notify
    ensures InitInv(Step(y, e))
  {
    assert CallOk(y.g.counter, y.threads[e.t]);
    StillOk(y, e);
  }

  lemma AnswerGlobals(g: Globals, bound: bool)
    requires BoundOk(g)
    ensures var h := InitCallback(g, bound);
            BoundOk(h) && g.counter <= h.counter <= g.counter + 1 && (h.counter > g.counter ==> bound || g.counter == 3)
  {
  }

  lemma PlainAnswerOk(y: Sys, e: Event)
    requires InitInv(y) && Enabled(y, e) && e.Go? && y.threads[e.t].pc == InCallback && !y.threads[e.t].cmd.Init?
    ensures InitInv(Step(y, e))
  {
    assert CallOk(y.g.counter, y.threads[e.t]);
    StillOk(y, e);
  }

  /** No other call is affected when the stage moves on. */
  lemma OtherCallOk(y: Sys, t: nat, u: nat, counter: nat)
    requires InitInv(y) && t in y.threads && u in y.threads && u != t && Active(y.threads[t]) && y.g.counter <= counter
    ensures CallOk(counter, y.threads[u])
  {
    assert CallOk(y.g.counter, y.threads[u]);
  }

  lemma AnswerServers(y: Sys, e: Event)
    requires InitInv(y) && Enabled(y, e) && InitAnswer(y, e)
    ensures var y' := Step(y, e);
            && y'.servers == y.servers && BoundOk(y'.g) && ServersOk(y') && y.g.counter <= y'.g.counter
            && CallOk(y'.g.counter, y'.threads[e.t])
  {
    assert CallOk(y.g.counter, y.threads[e.t]);
    AnswerGlobals(y.g, y.servers[StageClient(y.g.counter)]);
  }

  lemma AnswerOk(y: Sys, e: Event)
    requires InitInv(y) && Enabled(y, e) && InitAnswer(y, e)
    ensures InitInv(Step(y, e))
  {
    var y' := Step(y, e);
    AnswerServers(y, e);
    SerialStep(y, e);
    forall u | u in y'.threads ensures CallOk(y'.g.counter, y'.threads[u]) {
      if u != e.t { OtherCallOk(y, e.t, u, y'.g.counter); }
    }
  }

  lemma InitStep(y: Sys, e: Event)
    requires InitInv(y) && Enabled(y, e) && Serial(y, e)
    ensures InitInv(Step(y, e))
  {
    if !e.Go? {
      BeginOk(y, e);
    } else {
      match y.threads[e.t].pc {
        case AtLock => LockOk(y, e);
        case AtStat => StatOk(y, e);
        case AtBind => BindOk(y, e);
        case AtCall => CallOkStep(y, e);
        case InFlight => CallOkStep(y, e);
        case InCallback => if InitAnswer(y, e) { AnswerOk(y, e); } else { PlainAnswerOk(y, e); }
        case _ => RestOk(y, e);
      }
    }
  }

  lemma {:induction false} InitRun(y: Sys, es: seq<Event>)
    requires InitInv(y) && Runnable(y, es) && SerialRun(y, es)
    ensures InitInv(After(y, es))
    decreases |es|
  {
    if es != [] {
      InitStep(y, es[0]);
      InitRun(Step(y, es[0]), es[1..]);
    }
  }

  /** Over every run from power on with init calls one at a time: the bind variables are set exactly
      when their stages are over; a command that has its lock goes on to its request if and only if
      its stages are over; and a command that is sent has a server to go to. */
  lemma EveryInit(y: Sys, es: seq<Event>)
    requires Start(y) && Runnable(y, es) && SerialRun(y, es)
    ensures Full(After(y, es))
    ensures var z := After(y, es);
            && BoundOk(z.g) && ServersOk(z)
            && (forall t, outcome, server :: t in z.threads && z.threads[t].pc == AtBind ==>
                  Step(z, Go(t, outcome, server)).threads[t].pc ==
                    if UsesBuffers(z.threads[t].cmd) && z.g.counter < Needed(z.threads[t].cmd) then AtUnlock else AtCall)
            && (forall t :: t in z.threads && UsesBuffers(z.threads[t].cmd) && Filled(z.threads[t].pc) ==>
                  z.servers[ClientOf(z.threads[t].cmd)])
  {
    InitRun(y, es);
    var z := After(y, es);
    forall t | t in z.threads && UsesBuffers(z.threads[t].cmd) && Filled(z.threads[t].pc)
      ensures z.servers[ClientOf(z.threads[t].cmd)]
    {
      assert CallOk(z.g.counter, z.threads[t]);
    }
    forall t, outcome, server | t in z.threads && z.threads[t].pc == AtBind { BindOutcome(z, t, outcome, server); }
  }

  lemma BindOutcome(z: Sys, t: nat, outcome: Outcome, server: bool)
    requires Full(z) && BoundOk(z.g) && t in z.threads && z.threads[t].pc == AtBind
    ensures Step(z, Go(t, outcome, server)).threads[t].pc ==
              if UsesBuffers(z.threads[t].cmd) && z.g.counter < Needed(z.threads[t].cmd) then AtUnlock else AtCall
  {
  }

  /** The look at the client behind a lock never finds a request pending: its call would hold the lock. */
  lemma NeverPending(y: Sys, t: nat, outcome: Outcome, server: bool)
    requires Inv(y) && t in y.threads && y.threads[t].pc == AtStat
    ensures var pc := Step(y, Go(t, outcome, server)).threads[t].pc; pc == AtBind || pc == AtCall
  {
    var l := LockOf(y.threads[t].cmd);
    assert ThreadOk(y, t) && HoldsLock(y.threads[t], l);
    var c := StatClient(l);
    if y.clients[c].InUse? {
      var u := y.clients[c].owner;
      assert ThreadOk(y, u) && HoldsLock(y.threads[u], l);
    }
  }

  // ------------------------------------------------------------ a run that gets there

  /** Six init calls one after the other, each answered with a server. */
  lemma AllStages(y: Sys) returns (es: seq<Event>, z: Sys)
    requires Start(y)
    ensures Arrived(y, es, z) && Quiet(z) && z.g.counter == 6 && z.g.boundReady && z.g.boundN && z.g.boundS
    ensures z.threads.Keys == {1, 2, 3, 4, 5, 6}
  {
    es, z := FirstStages(y);
    es, z := OneStage(y, es, z, 4);
    es, z := OneStage(y, es, z, 5);
    es, z := OneStage(y, es, z, 6);
  }

  /** A command is issued. */
  lemma IssueCommand(y: Sys, es: seq<Event>, x: Sys, t: nat, cmd: Command) returns (es': seq<Event>, z: Sys)
    requires Arrived(y, es, x) && t !in x.threads && UsesBuffers(cmd) && !Locked(x.g, LockOf(cmd)) && Bound(x.g, cmd)
    requires !x.clients[StatClient(LockOf(cmd))].InUse? && x.clients[ClientOf(cmd)] == Idle
    ensures Arrived(y, es', z) && z.g == SetLock(x.g, LockOf(cmd), true) && z.clients == x.clients[ClientOf(cmd) := InUse(t)]
    ensures z.threads == x.threads[t := Calling(cmd, InFlight)]
  {
    es', z := FillBuffers(y, es, x, t, cmd);
    es', z := Move(y, es', z, Go(t, Accepted, true));
    Twice(x.threads, t, Calling(cmd, AtCall), Calling(cmd, InFlight));
  }

  /** After initialisation an N-command and an S-command of any kind are with the IOP together, while
      a disk ready call is turned away at the lock it shares with the S-command. */
  lemma CommandsTogether(y: Sys, n: NKind, k: SKind) returns (es: seq<Event>, z: Sys)
    requires Start(y)
    ensures Arrived(y, es, z) && {7, 8, 9} <= z.threads.Keys
    ensures z.threads[7] == Calling(NCmd(n), InFlight) && z.threads[8] == Calling(SCmd(k), InFlight)
    ensures z.threads[9] == Calling(DiskReady, Failed)
    ensures z.clients[ClientNCmd] == InUse(7) && z.clients[ClientSCmd] == InUse(8) && z.clients[ClientDiskReady] == Idle
  {
    es, z := AllStages(y);
    es, z := BothIssued(y, es, z, n, k);
    es, z := TurnedAway(y, es, z, 9);
  }

  lemma BothIssued(y: Sys, es: seq<Event>, x: Sys, n: NKind, k: SKind) returns (es': seq<Event>, z: Sys)
    requires Arrived(y, es, x) && Quiet(x) && x.g.boundN && x.g.boundS && 7 !in x.threads && 8 !in x.threads
    ensures Arrived(y, es', z) && z.g.s && z.threads == x.threads[7 := Calling(NCmd(n), InFlight)][8 := Calling(SCmd(k), InFlight)]
    ensures z.clients == x.clients[ClientNCmd := InUse(7)][ClientSCmd := InUse(8)]
  {
    es', z := IssueCommand(y, es, x, 7, NCmd(n));
    es', z := IssueCommand(y, es', z, 8, SCmd(k));
  }

  lemma TurnedAway(y: Sys, es: seq<Event>, x: Sys, t: nat) returns (es': seq<Event>, z: Sys)
    requires Arrived(y, es, x) && x.g.s && t !in x.threads
    ensures Arrived(y, es', z) && z.clients == x.clients && z.threads == x.threads[t := Calling(DiskReady, Failed)]
  {
    es', z := Move(y, es, x, Begin(t, DiskReady));
    es', z := Move(y, es', z, Go(t, Accepted, true));
    Twice(x.threads, t, Calling(DiskReady, AtLock), Calling(DiskReady, Failed));
  }

  /** And a disk ready call is issued on its own client when the S-lock is free. */
  lemma ReadyIssued(y: Sys) returns (es: seq<Event>, z: Sys)
    requires Start(y)
    ensures Arrived(y, es, z) && 7 in z.threads && z.threads[7] == Calling(DiskReady, InFlight)
    ensures z.clients[ClientDiskReady] == InUse(7) && z.g.s && !z.g.n
  {
    es, z := AllStages(y);
    es, z := IssueCommand(y, es, z, 7, DiskReady);
  }

  // ------------------------------------------------------------ bindings forgotten

  /** An init call for stage 0 has found its client idle and is about to bind it: it forgets all bindings. */
  predicate Forgets(y: Sys, e: Event)
    requires Full(y) && Enabled(y, e)
  {
    && e.Go? && y.threads[e.t].pc == AtStat && y.threads[e.t].cmd == Init(0) && !y.clients[StatClient(LockS)].InUse?
  }

  predicate SameBinds(g: Globals, h: Globals) {
    h.counter == g.counter && h.boundReady == g.boundReady && h.boundN == g.boundN && h.boundS == g.boundS
  }

  lemma LockBinds(g: Globals, l: Lock)
    ensures SameBinds(g, TryLock(g, l).0) && SameBinds(g, Unlock(g, l))
  {
  }

  lemma QuietSame(y: Sys, e: Event)
    requires Full(y) && Enabled(y, e)
    requires e.Go? ==> var pc := y.threads[e.t].pc; pc == AtStage || pc == AtBind || pc == AtCall || pc == InFlight || pc == Notify
    ensures Step(y, e).g == y.g
  {
  }

  /** Steps other than an init callback and the look at the client leave the bind variables alone. */
  lemma BoundSame(y: Sys, e: Event)
    requires Full(y) && Enabled(y, e) && !InitAnswer(y, e) && (e.Go? ==> y.threads[e.t].pc != AtStat)
    ensures SameBinds(y.g, Step(y, e).g)
  {
    if e.Go? && (y.threads[e.t].pc == AtLock || y.threads[e.t].pc == AtUnlock || y.threads[e.t].pc.Unlocking?) {
      LockBinds(y.g, if y.threads[e.t].pc.Unlocking? then y.threads[e.t].pc.l else LockOf(y.threads[e.t].cmd));
    } else if !(e.Go? && y.threads[e.t].pc == InCallback) {
      QuietSame(y, e);
    }
  }

  lemma BoundStat(y: Sys, e: Event)
    requires Full(y) && Enabled(y, e) && e.Go? && y.threads[e.t].pc == AtStat
    ensures Step(y, e).g == if Forgets(y, e) then y.g.(boundN := false, boundS := false, boundReady := false) else y.g
  {
  }

  /** A step keeps the bind variables in step with the stage if and only if it does not forget bindings
      that there are. */
  lemma BoundStepExact(y: Sys, e: Event)
    requires Full(y) && BoundOk(y.g) && Enabled(y, e)
    ensures BoundOk(Step(y, e).g) <==> !(Forgets(y, e) && y.g.counter >= 3)
  {
    if InitAnswer(y, e) {
      AnswerGlobals(y.g, y.servers[StageClient(y.g.counter)]);
    } else if e.Go? && y.threads[e.t].pc == AtStat {
      BoundStat(y, e);
    } else {
      BoundSame(y, e);
    }
  }

  ghost predicate BoundThroughout(y: Sys, es: seq<Event>)
    requires Full(y) && Runnable(y, es)
    decreases |es|
  {
    BoundOk(y.g) && (es != [] ==> BoundThroughout(Step(y, es[0]), es[1..]))
  }

  /** No init call for stage 0 gets that far when bindings have been made. */
  ghost predicate KeepsBindings(y: Sys, es: seq<Event>)
    requires Full(y) && Runnable(y, es)
    decreases |es|
  {
    es != [] ==> !(Forgets(y, es[0]) && y.g.counter >= 3) && KeepsBindings(Step(y, es[0]), es[1..])
  }

  lemma {:induction false} BoundRun(y: Sys, es: seq<Event>)
    requires Full(y) && BoundOk(y.g) && Runnable(y, es)
    ensures BoundThroughout(y, es) <==> KeepsBindings(y, es)
    decreases |es|
  {
    if es != [] {
      BoundStepExact(y, es[0]);
      if BoundOk(Step(y, es[0]).g) { BoundRun(Step(y, es[0]), es[1..]); }
    }
  }

  /** The exact condition for the bind variables, over every run from power on. */
  lemma BoundExact(y: Sys, es: seq<Event>)
    requires Start(y) && Runnable(y, es)
    ensures BoundThroughout(y, es) <==> KeepsBindings(y, es)
  {
    BoundRun(y, es);
  }

  /** All stages are over and nothing is bound. */
  predicate Lost(g: Globals) {
    g.counter == 6 && !g.boundReady && !g.boundN && !g.boundS
  }

  lemma LostStep(y: Sys, e: Event)
    requires Full(y) && Enabled(y, e) && Lost(y.g)
    ensures Lost(Step(y, e).g)
  {
    if e.Go? && y.threads[e.t].pc == AtStat { BoundStat(y, e); } else if !InitAnswer(y, e) { BoundSame(y, e); }
  }

  /** Then nothing ever is: whatever happens, no command gets past its test any more. */
  lemma {:induction false} LostForever(y: Sys, es: seq<Event>, t: nat, outcome: Outcome, server: bool)
    requires Full(y) && Runnable(y, es) && Lost(y.g)
    ensures Full(After(y, es)) && Lost(After(y, es).g)
    ensures var z := After(y, es);
            t in z.threads && z.threads[t].pc == AtBind && UsesBuffers(z.threads[t].cmd) ==>
              Step(z, Go(t, outcome, server)).threads[t].pc == AtUnlock
    decreases |es|
  {
    if es != [] {
      LostStep(y, es[0]);
      LostForever(Step(y, es[0]), es[1..], t, outcome, server);
    }
  }

  lemma StageKept(y: Sys, es: seq<Event>, x: Sys, t: nat) returns (es': seq<Event>, z: Sys)
    requires Arrived(y, es, x) && Quiet(x) && x.g.counter <= 5 && t !in x.threads && Ready(x.g) && t != 0
    requires InitAt(x, 0, 0, AtLock)
    ensures Arrived(y, es', z) && Quiet(z) && z.g.counter == x.g.counter + 1 && Ready(z.g)
    ensures InitAt(z, 0, 0, AtLock) && z.threads.Keys == x.threads.Keys + {t}
  {
    var k := x.g.counter;
    es', z := StageRun(y, es, x, t, k);
    StageGlobals(x.g, k);
    QuietAgain(x, z, t, k);
  }

  /** The remaining stages go by while call 0 waits with the stage it read at first. */
  lemma {:induction false} StagesGoBy(y: Sys, es: seq<Event>, x: Sys, t: nat) returns (es': seq<Event>, z: Sys)
    requires Arrived(y, es, x) && Quiet(x) && x.g.counter <= 6 && Ready(x.g) && InitAt(x, 0, 0, AtLock)
    requires t > 0 && forall u :: u in x.threads ==> u < t
    ensures Arrived(y, es', z) && Quiet(z) && z.g.counter == 6 && Ready(z.g) && InitAt(z, 0, 0, AtLock)
    decreases 6 - x.g.counter
  {
    es', z := es, x;
    if x.g.counter < 6 {
      es', z := StageKept(y, es, x, t);
      es', z := StagesGoBy(y, es', z, t + 1);
    }
  }

  /** The failure from power on: call 0 reads stage 0 and is interrupted; six other calls complete the
      initialisation; then call 0 takes its lock and forgets all bindings, for good. */
  lemma LateInitForgets(y: Sys) returns (es: seq<Event>, x: Sys, z: Sys)
    requires Start(y)
    ensures Arrived(y, es, x) && x.g.counter == 6 && x.g.boundReady && x.g.boundN && x.g.boundS
    ensures Enabled(x, Go(0, Accepted, true)) && Enabled(Step(x, Go(0, Accepted, true)), Go(0, Accepted, true))
    ensures z == Step(Step(x, Go(0, Accepted, true)), Go(0, Accepted, true)) && Lost(z.g)
  {
    es, x := StartInit(y, [], y, 0);
    es, x := StagesGoBy(y, es, x, 1);
    TakeLock(x, 0, 0);
    var x1 := Step(x, Go(0, Accepted, true));
    LookAtClient(x1, 0, 0);
    z := Step(x1, Go(0, Accepted, true));
  }

  // ------------------------------------------------------------ who keeps whom out

  /** While an init call has its request with the IOP, S-commands and disk ready calls are turned away
      at the lock if it is at any stage but 4, and N-commands if it is at stage 4. */
  lemma InitTurnsAway(y: Sys, t: nat, u: nat, outcome: Outcome, server: bool)
    requires Inv(y) && t in y.threads && y.threads[t].cmd.Init? && y.threads[t].pc == InFlight
    requires u in y.threads && UsesBuffers(y.threads[u].cmd) && y.threads[u].pc == AtLock
    requires y.threads[u].cmd.NCmd? <==> y.threads[t].cmd.stage == 4
    ensures Step(y, Go(u, outcome, server)).threads[u].pc == Failed
  {
    var l := LockOf(y.threads[t].cmd);
    assert ThreadOk(y, t) && HoldsLock(y.threads[t], l);
  }
}
