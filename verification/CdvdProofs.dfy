/**
  Every run of CD/DVD calls, failed sends and callbacks: which locks are held by whom, which
  stage an init callback finds, and how often an end function is called.
 */
module CdvdProofs {
  import opened CdvdState

  /** What the RPC layer shows of a client (see `CdvdRpc.Shows`). */
  datatype ClientState = Idle | InUse(owner: nat) | Stuck

  /** Where a call, or later its callback, stands. */
  datatype Pc =
    | AtStage              // sbcall_cdvdinit, about to read the counter
    | AtLock               // about to try its lock
    | AtStat               // lock taken, about to look at the client
    | AtBind               // about to test the bind variable and fill the shared buffers
    | AtCall               // about to issue the RPC request
    | AtUnlock             // giving up with the lock held
    | Failed               // returned an error
    | InFlight             // returned 0, waiting for the response
    | InCallback           // response received, callback running
    | Unlocking(l: Lock)   // callback about to release a lock
    | Notify               // about to call the end function
    | Done

  datatype Thread = Thread(cmd: Command, pc: Pc, seen: int, ends: nat)

  /** Which call wrote last to the buffers behind each lock, or for which the IOP did. */
  datatype Writers = Writers(n: int, s: int)

  function WriterOf(w: Writers, l: Lock): int {
    if l == LockN then w.n else w.s
  }

  function SetWriter(w: Writers, l: Lock, t: nat): Writers {
    if l == LockN then w.(n := t) else w.(s := t)
  }

  datatype Sys = Sys(g: Globals, clients: map<Name, ClientState>, servers: map<Name, bool>, threads: map<nat, Thread>, w: Writers)

  datatype Outcome = Accepted | NoPacket | SendFailed

  datatype Event =
    | Begin(t: nat, cmd: Command)
    | Direct(t: nat)                                // a call that only runs its end function
    | Go(t: nat, outcome: Outcome, server: bool)    // the next statement group of a thread

  predicate Enabled(y: Sys, e: Event) {
    match e
    case Begin(t, cmd) => t !in y.threads && (cmd.Init? ==> cmd.stage == 0)
    case Direct(t) => t !in y.threads
    case Go(t, _, _) => t in y.threads && y.threads[t].pc != Failed && y.threads[t].pc != Done
  }

  ghost predicate Full(y: Sys) {
    forall c: Name :: c in y.clients && c in y.servers
  }

  /** All clients are still there, and of the threads only `t` has changed. */
  ghost predicate Only(y: Sys, y': Sys, t: nat) {
    Full(y') && t in y'.threads && y'.threads == y.threads[t := y'.threads[t]]
  }

  function At(y: Sys, t: nat, pc: Pc): Sys
    requires t in y.threads
  {
    y.(threads := y.threads[t := y.threads[t].(pc := pc)])
  }

  /** The step of thread `t` writes buffers behind lock `l`: the command number, the send buffer,
      or, when the IOP answers, the receive buffer. */
  predicate Writes(th: Thread, l: Lock) {
    UsesBuffers(th.cmd) && LockOf(th.cmd) == l && (th.pc == AtBind || th.pc == AtCall || th.pc == InFlight)
  }

  function Written(y: Sys, t: nat): Sys
    requires t in y.threads
  {
    var cmd := y.threads[t].cmd;
    if UsesBuffers(cmd) then y.(w := SetWriter(y.w, LockOf(cmd), t)) else y
  }

  /** SifBindRpc or SifCallRpc as one step: refused unless the client is idle. */
  function Request(y: Sys, t: nat, outcome: Outcome): (Sys, bool)
    requires t in y.threads && Full(y)
  {
    var cmd := y.threads[t].cmd;
    var c := ClientOf(cmd);
    if y.clients[c] != Idle || outcome == NoPacket then (y, false)
    else
      var y1 := y.(clients := y.clients[c := if outcome == Accepted then InUse(t) else Stuck],
                   servers := if Binds(cmd) then y.servers[c := false] else y.servers);
      (y1, outcome == Accepted)
  }

  function StepBegin(y: Sys, t: nat, cmd: Command): Sys {
    var pc := if cmd.Init? then AtStage else if cmd.Reset? then AtCall else AtLock;
    y.(threads := y.threads[t := Thread(cmd, pc, -1, 0)])
  }

  function StepCall(y: Sys, t: nat, outcome: Outcome): (y': Sys)
    requires t in y.threads && Full(y)
    ensures Only(y, y', t)
  {
    var (y1, ok) := Request(Written(y, t), t, outcome);
    At(y1, t, if ok then InFlight else if y.threads[t].cmd.Reset? then Failed else AtUnlock)
  }

  /** The IOP answers: the client is free again, and a bind has found a server or not. */
  function StepRespond(y: Sys, t: nat, server: bool): (y': Sys)
    requires t in y.threads && Full(y)
    ensures Only(y, y', t)
  {
    var cmd := y.threads[t].cmd;
    var c := ClientOf(cmd);
    At(Written(y, t).(clients := y.clients[c := Idle],
          servers := if Binds(cmd) then y.servers[c := server] else y.servers), t, InCallback)
  }

  function StepCallback(y: Sys, t: nat): (y': Sys)
    requires t in y.threads && Full(y)
    ensures Only(y, y', t)
  {
    var cmd := y.threads[t].cmd;
    if cmd.Init? then
      var k := y.g.counter;
      var y1 := y.(g := InitCallback(y.g, y.servers[StageClient(k)]),
                   threads := y.threads[t := y.threads[t].(seen := k)]);
      At(y1, t, if k <= 5 then Unlocking(CallbackLock(k)) else Notify)
    else if cmd.Reset? then At(y, t, Notify)
    else At(y, t, Unlocking(LockOf(cmd)))
  }

  function StepStage(y: Sys, t: nat): (y': Sys)
    requires t in y.threads && Full(y)
    ensures Only(y, y', t)
  {
    if y.g.counter >= 6 then At(y, t, Notify)
    else y.(threads := y.threads[t := y.threads[t].(cmd := Init(y.g.counter), pc := AtLock)])
  }

  function StepLock(y: Sys, t: nat): (y': Sys)
    requires t in y.threads && Full(y)
    ensures Only(y, y', t)
  {
    var (g, r) := TryLock(y.g, LockOf(y.threads[t].cmd));
    At(y.(g := g), t, if r == 0 then AtStat else Failed)
  }

  function StepStat(y: Sys, t: nat): (y': Sys)
    requires t in y.threads && Full(y)
    ensures Only(y, y', t)
  {
    var cmd := y.threads[t].cmd;
    if y.clients[StatClient(LockOf(cmd))].InUse? then At(y, t, AtUnlock)
    else if cmd.Init? then At(y.(g := Forget(y.g, cmd.stage)), t, AtCall)
    else At(y, t, AtBind)
  }

  function StepBind(y: Sys, t: nat): (y': Sys)
    requires t in y.threads && Full(y)
    ensures Only(y, y', t)
  {
    At(Written(y, t), t, if Bound(y.g, y.threads[t].cmd) then AtCall else AtUnlock)
  }

  function StepUnlock(y: Sys, t: nat, l: Lock, pc: Pc): (y': Sys)
    requires t in y.threads && Full(y)
    ensures Only(y, y', t)
  {
    At(y.(g := Unlock(y.g, l)), t, pc)
  }

  function StepNotify(y: Sys, t: nat): (y': Sys)
    requires t in y.threads && Full(y)
    ensures Only(y, y', t)
  {
    y.(threads := y.threads[t := y.threads[t].(pc := Done, ends := y.threads[t].ends + 1)])
  }

  function StepGo(y: Sys, t: nat, outcome: Outcome, server: bool): (y': Sys)
    requires t in y.threads && y.threads[t].pc != Failed && y.threads[t].pc != Done && Full(y)
    ensures Only(y, y', t)
  {
    match y.threads[t].pc
    case AtStage => StepStage(y, t)
    case AtLock => StepLock(y, t)
    case AtStat => StepStat(y, t)
    case AtBind => StepBind(y, t)
    case AtCall => StepCall(y, t, outcome)
    case AtUnlock => StepUnlock(y, t, LockOf(y.threads[t].cmd), Failed)
    case InFlight => StepRespond(y, t, server)
    case InCallback => StepCallback(y, t)
    case Unlocking(l) => StepUnlock(y, t, l, Notify)
    case Notify => StepNotify(y, t)
  }

  function Step(y: Sys, e: Event): (y': Sys)
    requires Enabled(y, e) && Full(y)
    ensures Only(y, y', e.t)
  {
    match e
    case Begin(t, cmd) => StepBegin(y, t, cmd)
    case Direct(t) => y.(threads := y.threads[t := Thread(SCmd(Mmode), Notify, -1, 0)])
    case Go(t, outcome, server) => StepGo(y, t, outcome, server)
  }

  // ---------------------------------------------------------------- invariant

  /** The lock a thread holds at its program point. */
  predicate HoldsLock(th: Thread, l: Lock) {
    match th.pc
    case Unlocking(k) => k == l
    case AtStat => LockOf(th.cmd) == l && !th.cmd.Reset?
    case AtBind => LockOf(th.cmd) == l && !th.cmd.Reset?
    case AtCall => LockOf(th.cmd) == l && !th.cmd.Reset?
    case AtUnlock => LockOf(th.cmd) == l && !th.cmd.Reset?
    case InFlight => LockOf(th.cmd) == l && !th.cmd.Reset?
    case InCallback => LockOf(th.cmd) == l && !th.cmd.Reset?
    case _ => false
  }

  /** Between taking its lock and its callback. */
  predicate Underway(pc: Pc) {
    pc == AtStat || pc == AtBind || pc == AtCall || pc == AtUnlock || pc == InFlight || pc == InCallback
  }

  /** The buffers are filled, with the IOP, or answered and being read. */
  predicate Filled(pc: Pc) {
    pc == AtCall || pc == InFlight || pc == InCallback
  }

  /** An init call that will be refused: its client is stuck for good. */
  predicate Doomed(y: Sys, th: Thread)
    requires Full(y)
  {
    th.cmd.Init? && y.clients[StageClient(th.cmd.stage)] == Stuck && (th.pc == AtStat || th.pc == AtCall || th.pc == AtUnlock)
  }

  ghost predicate ThreadOk(y: Sys, t: nat)
    requires t in y.threads && Full(y)
  {
    var th := y.threads[t];
    && (th.cmd.Reset? ==> th.pc in {AtCall, Failed, InFlight, InCallback, Notify, Done})
    && (th.pc == InFlight ==> y.clients[ClientOf(th.cmd)] == InUse(t))
    && (th.cmd.Init? && Underway(th.pc) ==> th.cmd.stage <= 5 && (th.cmd.stage == y.g.counter || Doomed(y, th)))
    && (th.cmd.Init? && (th.pc == AtLock || Underway(th.pc)) ==> th.seen == -1)
    && (th.cmd.Init? && th.pc == AtLock ==> th.cmd.stage <= 5 && th.cmd.stage <= y.g.counter)
    && (UsesBuffers(th.cmd) && Filled(th.pc) ==> WriterOf(y.w, LockOf(th.cmd)) == t)
    && (forall l :: HoldsLock(th, l) ==> Locked(y.g, l))
    && th.ends == (if th.pc == Done then 1 else 0)
    && (th.pc.Unlocking? ==> th.pc.l == LockOf(th.cmd) && !th.cmd.Reset?)
    && (th.pc == AtStage ==> th.seen == -1)
    && (th.cmd.Init? ==> th.seen == -1 || th.seen == th.cmd.stage)
  }

  /** No two threads hold one lock. */
  ghost predicate Exclusive(y: Sys) {
    forall t, u, l :: t in y.threads && u in y.threads && HoldsLock(y.threads[t], l) && HoldsLock(y.threads[u], l) ==> t == u
  }

  ghost predicate Inv(y: Sys) {
    && Full(y) && y.g.errs == 0
    && Exclusive(y)
    && (forall t :: t in y.threads ==> ThreadOk(y, t))
    && (forall c :: c in y.clients && y.clients[c].InUse? ==>
          y.clients[c].owner in y.threads && y.threads[y.clients[c].owner].pc == InFlight
          && ClientOf(y.threads[y.clients[c].owner].cmd) == c)
  }

  /** An init call is about to take its lock. */
  predicate Locking(y: Sys, e: Event) {
    e.Go? && e.t in y.threads && y.threads[e.t].pc == AtLock && y.threads[e.t].cmd.Init?
    && !Locked(y.g, LockOf(y.threads[e.t].cmd))
  }

  /** What an init call needs when it gets its lock: the stage it read is still the current one, or
      the call will come to nothing because its client is stuck. */
  predicate Fresh(y: Sys, e: Event)
    requires Full(y)
  {
    Locking(y, e) ==>
      y.threads[e.t].cmd.stage == y.g.counter || y.clients[StageClient(y.threads[e.t].cmd.stage)] == Stuck
  }

  /** The client tables differ only in what thread `t` did with its own client. */
  ghost predicate OwnClient(y: Sys, y': Sys, t: nat)
    requires Full(y) && Full(y') && t in y'.threads
  {
    forall c: Name {:trigger y'.clients[c]} ::
      || y'.clients[c] == y.clients[c]
      || (y'.clients[c] == InUse(t) && y.clients[c] == Idle && y'.threads[t].pc == InFlight && ClientOf(y'.threads[t].cmd) == c)
      || (!y'.clients[c].InUse? && (y.clients[c] == Idle || y.clients[c] == InUse(t)))
  }

  /** A step of another thread leaves this one as it should be. */
  lemma OtherOk(y: Sys, y': Sys, t: nat, u: nat)
    requires Inv(y) && Only(y, y', t) && u in y.threads && u != t && y.g.counter <= y'.g.counter
    requires forall l :: HoldsLock(y.threads[u], l) ==> Locked(y'.g, l)
    requires forall l :: WriterOf(y'.w, l) == WriterOf(y.w, l) || (t in y.threads && HoldsLock(y.threads[t], l))
    requires y'.g.counter == y.g.counter || (y.threads[u].cmd.Init? ==> !Underway(y.threads[u].pc) || Doomed(y, y.threads[u]))
    requires OwnClient(y, y', t)
    ensures ThreadOk(y', u)
  {
    var th := y.threads[u];
    assert ThreadOk(y, u) && y'.threads[u] == th;
    if UsesBuffers(th.cmd) && Filled(th.pc) { assert HoldsLock(th, LockOf(th.cmd)); }
  }

  /** What one thread may do without disturbing the others. */
  lemma Update(y: Sys, y': Sys, t: nat)
    requires Inv(y) && Only(y, y', t)
    requires y'.g.errs == 0 && y.g.counter <= y'.g.counter && ThreadOk(y', t)
    requires forall l :: WriterOf(y'.w, l) == WriterOf(y.w, l) || (t in y.threads && HoldsLock(y.threads[t], l))
    requires forall u, l :: u in y.threads && u != t && HoldsLock(y.threads[u], l) ==> Locked(y'.g, l)
    requires forall l :: HoldsLock(y'.threads[t], l) ==> !Locked(y.g, l) || (t in y.threads && HoldsLock(y.threads[t], l))
    requires y'.g.counter == y.g.counter
             || forall u :: u in y.threads && u != t && y.threads[u].cmd.Init? ==> !Underway(y.threads[u].pc) || Doomed(y, y.threads[u])
    requires OwnClient(y, y', t)
    requires t in y.threads && y.threads[t].pc == InFlight ==>
               y'.threads[t] == y.threads[t] || !y'.clients[ClientOf(y.threads[t].cmd)].InUse?
    ensures Inv(y')
  {
    forall u | u in y'.threads ensures ThreadOk(y', u) {
      if u != t { OtherOk(y, y', t, u); }
    }
    StillExclusive(y, y', t);
  }

  lemma StillExclusive(y: Sys, y': Sys, t: nat)
    requires Inv(y) && Only(y, y', t)
    requires forall l :: HoldsLock(y'.threads[t], l) ==> !Locked(y.g, l) || (t in y.threads && HoldsLock(y.threads[t], l))
    ensures Exclusive(y')
  {
    forall u, l | u in y.threads && u != t && HoldsLock(y.threads[u], l) ensures !HoldsLock(y'.threads[t], l) {
      assert ThreadOk(y, u);
    }
  }

  lemma BeginKeeps(y: Sys, e: Event)
    requires Inv(y) && Enabled(y, e) && !e.Go?
    ensures Inv(Step(y, e))
  {
    var y' := Step(y, e);
    forall u, l | u in y.threads && HoldsLock(y.threads[u], l) ensures Locked(y'.g, l) { assert ThreadOk(y, u); }
    Update(y, y', e.t);
  }

  lemma LocksHeld(y: Sys)
    requires Inv(y)
    ensures forall u, l :: u in y.threads && HoldsLock(y.threads[u], l) ==> Locked(y.g, l)
  {
    forall u, l | u in y.threads && HoldsLock(y.threads[u], l) ensures Locked(y.g, l) { assert ThreadOk(y, u); }
  }

  lemma StageKeeps(y: Sys, t: nat, outcome: Outcome, server: bool)
    requires Inv(y) && Enabled(y, Go(t, outcome, server)) && y.threads[t].pc == AtStage
    ensures Inv(Step(y, Go(t, outcome, server)))
  {
    assert ThreadOk(y, t);
    LocksHeld(y);
    Update(y, Step(y, Go(t, outcome, server)), t);
  }

  lemma NotifyKeeps(y: Sys, t: nat, outcome: Outcome, server: bool)
    requires Inv(y) && Enabled(y, Go(t, outcome, server)) && y.threads[t].pc == Notify
    ensures Inv(Step(y, Go(t, outcome, server)))
  {
    assert ThreadOk(y, t);
    LocksHeld(y);
    Update(y, Step(y, Go(t, outcome, server)), t);
  }

  lemma LockThread(y: Sys, t: nat)
    requires Inv(y) && t in y.threads && y.threads[t].pc == AtLock && Fresh(y, Go(t, Accepted, true))
    ensures ThreadOk(StepLock(y, t), t)
  {
    assert ThreadOk(y, t);
  }

  lemma LockKeeps(y: Sys, t: nat, outcome: Outcome, server: bool)
    requires Inv(y) && Enabled(y, Go(t, outcome, server)) && Fresh(y, Go(t, outcome, server))
    requires y.threads[t].pc == AtLock
    ensures Inv(Step(y, Go(t, outcome, server)))
  {
    LockThread(y, t);
    LocksHeld(y);
    Update(y, StepLock(y, t), t);
  }

  lemma SameLock(th: Thread, th': Thread, l: Lock)
    requires th'.cmd == th.cmd && Underway(th.pc) && Underway(th'.pc)
    ensures HoldsLock(th', l) == HoldsLock(th, l)
  {
  }

  lemma ForgetLocks(g: Globals, stage: nat, l: Lock)
    ensures Locked(Forget(g, stage), l) == Locked(g, l)
    ensures Forget(g, stage).counter == g.counter && Forget(g, stage).errs == g.errs
  {
  }

  lemma StatThread(y: Sys, t: nat)
    requires Inv(y) && t in y.threads && y.threads[t].pc == AtStat
    ensures var y' := StepStat(y, t);
            && ThreadOk(y', t) && y'.w == y.w && y'.clients == y.clients && y'.g.errs == 0 && y'.g.counter == y.g.counter
            && forall l :: Locked(y'.g, l) == Locked(y.g, l) && HoldsLock(y'.threads[t], l) == HoldsLock(y.threads[t], l)
  {
    var y', th := StepStat(y, t), y.threads[t];
    assert ThreadOk(y, t);
    forall l { SameLock(th, y'.threads[t], l); }
    forall l { ForgetLocks(y.g, if th.cmd.Init? then th.cmd.stage else 0, l); }
  }

  lemma StatKeeps(y: Sys, t: nat, outcome: Outcome, server: bool)
    requires Inv(y) && Enabled(y, Go(t, outcome, server)) && y.threads[t].pc == AtStat
    ensures Inv(Step(y, Go(t, outcome, server)))
  {
    StatThread(y, t);
    LocksHeld(y);
    Update(y, StepStat(y, t), t);
  }

  lemma BindKeeps(y: Sys, t: nat, outcome: Outcome, server: bool)
    requires Inv(y) && Enabled(y, Go(t, outcome, server)) && y.threads[t].pc == AtBind
    ensures Inv(Step(y, Go(t, outcome, server)))
  {
    var y' := Step(y, Go(t, outcome, server));
    assert ThreadOk(y, t);
    LocksHeld(y);
    forall l { SameLock(y.threads[t], y'.threads[t], l); }
    Update(y, y', t);
  }

  /** Releasing the lock of its own call, a thread ends up holding none. */
  lemma UnlockThread(y: Sys, t: nat, l: Lock, pc: Pc)
    requires Inv(y) && t in y.threads && HoldsLock(y.threads[t], l) && (pc == Failed || pc == Notify)
    requires pc == Failed ==> y.threads[t].pc == AtUnlock
    requires pc == Notify ==> y.threads[t].pc == Unlocking(l)
    ensures var y' := StepUnlock(y, t, l, pc);
            && ThreadOk(y', t) && y'.w == y.w && y'.clients == y.clients && y'.g.errs == 0 && y'.g.counter == y.g.counter
            && (forall k :: !HoldsLock(y'.threads[t], k)) && (forall k :: k != l ==> Locked(y'.g, k) == Locked(y.g, k))
  {
    assert ThreadOk(y, t);
  }

  lemma UnlockKeeps(y: Sys, t: nat, outcome: Outcome, server: bool)
    requires Inv(y) && Enabled(y, Go(t, outcome, server))
    requires y.threads[t].pc == AtUnlock || y.threads[t].pc.Unlocking?
    ensures Inv(Step(y, Go(t, outcome, server)))
  {
    assert ThreadOk(y, t);
    LocksHeld(y);
    var l, pc := LockOf(y.threads[t].cmd), if y.threads[t].pc == AtUnlock then Failed else Notify;
    UnlockThread(y, t, l, pc);
    Update(y, StepUnlock(y, t, l, pc), t);
  }

  /** What a request changes: its own client, the server of a bind, and the buffers behind its lock. */
  lemma CallEffect(y: Sys, t: nat, outcome: Outcome)
    requires Full(y) && t in y.threads && y.threads[t].pc == AtCall
    ensures var y' := StepCall(y, t, outcome); var cmd := y.threads[t].cmd;
            && y'.g == y.g && OwnClient(y, y', t) && y'.threads[t] == y.threads[t].(pc := y'.threads[t].pc)
            && y'.threads[t].pc in {InFlight, Failed, AtUnlock}
            && (y'.threads[t].pc == InFlight ==> y.clients[ClientOf(cmd)] == Idle && y'.clients[ClientOf(cmd)] == InUse(t))
            && (y.clients[ClientOf(cmd)] == Stuck ==> y'.clients == y.clients)
            && (y'.threads[t].pc == AtUnlock ==> !cmd.Reset?) && (y'.threads[t].pc == Failed ==> cmd.Reset?)
            && (forall l :: WriterOf(y'.w, l) == if UsesBuffers(cmd) && l == LockOf(cmd) then t else WriterOf(y.w, l))
  {
  }

  lemma CallKeeps(y: Sys, t: nat, outcome: Outcome, server: bool)
    requires Inv(y) && Enabled(y, Go(t, outcome, server)) && y.threads[t].pc == AtCall
    ensures Inv(Step(y, Go(t, outcome, server)))
  {
    var y', th := Step(y, Go(t, outcome, server)), y.threads[t];
    assert ThreadOk(y, t);
    LocksHeld(y);
    CallEffect(y, t, outcome);
    if !th.cmd.Reset? { forall l { SameLock(th, y'.threads[t], l); } }
    Update(y, y', t);
  }

  lemma RespondKeeps(y: Sys, t: nat, outcome: Outcome, server: bool)
    requires Inv(y) && Enabled(y, Go(t, outcome, server)) && y.threads[t].pc == InFlight
    ensures Inv(Step(y, Go(t, outcome, server)))
  {
    assert ThreadOk(y, t);
    LocksHeld(y);
    Update(y, Step(y, Go(t, outcome, server)), t);
  }

  /** Two init calls are never under way together, unless one will be refused: both would be at the
      current stage and hold its lock. */
  lemma OneInit(y: Sys, t: nat, u: nat)
    requires Inv(y) && t in y.threads && u in y.threads && !Doomed(y, y.threads[t]) && !Doomed(y, y.threads[u])
    requires y.threads[t].cmd.Init? && y.threads[u].cmd.Init? && Underway(y.threads[t].pc) && Underway(y.threads[u].pc)
    ensures t == u
  {
    assert ThreadOk(y, t) && ThreadOk(y, u);
    var l := StageLock(y.g.counter);
    assert HoldsLock(y.threads[t], l) && HoldsLock(y.threads[u], l);
  }

  lemma CallbackLocks(g: Globals, bound: bool, l: Lock)
    ensures Locked(InitCallback(g, bound), l) == Locked(g, l) && InitCallback(g, bound).errs == g.errs
    ensures g.counter <= InitCallback(g, bound).counter
  {
  }

  lemma CallbackKeeps(y: Sys, t: nat, outcome: Outcome, server: bool)
    requires Inv(y) && Enabled(y, Go(t, outcome, server)) && y.threads[t].pc == InCallback
    ensures Inv(Step(y, Go(t, outcome, server)))
    ensures y.threads[t].cmd.Init? ==>
              var th := Step(y, Go(t, outcome, server)).threads[t];
              th.seen == y.threads[t].cmd.stage && th.pc == Unlocking(LockOf(y.threads[t].cmd))
  {
    var y', cmd := Step(y, Go(t, outcome, server)), y.threads[t].cmd;
    assert ThreadOk(y, t);
    LocksHeld(y);
    if !cmd.Reset? { assert HoldsLock(y.threads[t], LockOf(cmd)); }
    forall l, b { CallbackLocks(y.g, b, l); }
    forall u | u in y.threads && u != t && y.threads[t].cmd.Init? && y.threads[u].cmd.Init?
      ensures !Underway(y.threads[u].pc) || Doomed(y, y.threads[u])
    {
      if Underway(y.threads[u].pc) && !Doomed(y, y.threads[u]) { OneInit(y, t, u); }
    }
    Update(y, y', t);
  }

  lemma StepInv(y: Sys, e: Event)
    requires Inv(y) && Enabled(y, e) && Fresh(y, e)
    ensures Inv(Step(y, e))
  {
    match e
    case Begin(_, _) => BeginKeeps(y, e);
    case Direct(_) => BeginKeeps(y, e);
    case Go(t, outcome, server) =>
      match y.threads[t].pc {
        case AtUnlock => UnlockKeeps(y, t, outcome, server);
        case Unlocking(_) => UnlockKeeps(y, t, outcome, server);
        case AtCall => CallKeeps(y, t, outcome, server);
        case InFlight => RespondKeeps(y, t, outcome, server);
        case InCallback => CallbackKeeps(y, t, outcome, server);
        case AtLock => LockKeeps(y, t, outcome, server);
        case AtStat => StatKeeps(y, t, outcome, server);
        case AtBind => BindKeeps(y, t, outcome, server);
        case AtStage => StageKeeps(y, t, outcome, server);
        case _ => NotifyKeeps(y, t, outcome, server);
      }
  }

  // --------------------------------------------------------------------- runs

  ghost predicate Runnable(y: Sys, es: seq<Event>)
    requires Full(y)
    decreases |es|
  {
    es == [] || (Enabled(y, es[0]) && Runnable(Step(y, es[0]), es[1..]))
  }

  ghost function After(y: Sys, es: seq<Event>): Sys
    requires Full(y) && Runnable(y, es)
    decreases |es|
  {
    if es == [] then y else After(Step(y, es[0]), es[1..])
  }

  /** Every init call of the run got its lock at the stage it had read, or will be refused. */
  ghost predicate FreshRun(y: Sys, es: seq<Event>)
    requires Full(y) && Runnable(y, es)
    decreases |es|
  {
    es == [] || (Fresh(y, es[0]) && FreshRun(Step(y, es[0]), es[1..]))
  }

  ghost predicate Start(y: Sys) {
    && Full(y) && y.threads == map[]
    && y.g == Globals(false, false, 0, false, false, false, 0)
    && forall c: Name :: y.clients[c] == Idle
  }

  lemma {:induction false} RunInv(y: Sys, es: seq<Event>)
    requires Inv(y) && Runnable(y, es) && FreshRun(y, es)
    ensures Inv(After(y, es))
    decreases |es|
  {
    if es != [] {
      StepInv(y, es[0]);
      RunInv(Step(y, es[0]), es[1..]);
    }
  }

  /** Every init callback that has run found the stage that started its call. */
  ghost predicate OwnStages(z: Sys) {
    forall t :: t in z.threads && z.threads[t].cmd.Init? && z.threads[t].seen >= 0 ==> z.threads[t].seen == z.threads[t].cmd.stage
  }

  /** In every such run: no unlock finds its mutex unlocked; whoever may write the shared buffers
      of a lock is alone in holding it; init callbacks found the stage that started them. */
  lemma EveryRun(y: Sys, es: seq<Event>)
    requires Start(y) && Runnable(y, es) && FreshRun(y, es)
    ensures var z := After(y, es);
            && z.g.errs == 0
            && (forall t, u, l :: t in z.threads && u in z.threads && HoldsLock(z.threads[t], l) && HoldsLock(z.threads[u], l)
                  ==> t == u)
            && OwnStages(z)
            && (forall t :: t in z.threads && UsesBuffers(z.threads[t].cmd) && Filled(z.threads[t].pc)
                  ==> WriterOf(z.w, LockOf(z.threads[t].cmd)) == t)
  {
    RunInv(y, es);
    var z := After(y, es);
    forall t | t in z.threads ensures ThreadOk(z, t) {}
  }

  /** A step that writes the buffers behind a lock is made by the holder of that lock, while no
      other call has them filled, sent or answered. */
  lemma WritesAlone(y: Sys, t: nat, l: Lock, u: nat)
    requires Exclusive(y) && t in y.threads && Writes(y.threads[t], l) && u in y.threads && u != t
    ensures HoldsLock(y.threads[t], l) && !HoldsLock(y.threads[u], l)
    ensures !(UsesBuffers(y.threads[u].cmd) && LockOf(y.threads[u].cmd) == l && Filled(y.threads[u].pc))
  {
    assert HoldsLock(y.threads[t], l);
  }

  // ------------------------------------------------------ stale init stages

  predicate InitAnswer(y: Sys, e: Event)
    requires Enabled(y, e)
  {
    e.Go? && y.threads[e.t].pc == InCallback && y.threads[e.t].cmd.Init?
  }

  lemma CounterKept(g: Globals, l: Lock, stage: nat)
    ensures TryLock(g, l).0.counter == g.counter && Unlock(g, l).counter == g.counter && Forget(g, stage).counter == g.counter
  {
  }

  lemma CounterStays(y: Sys, e: Event)
    requires Full(y) && Enabled(y, e) && !InitAnswer(y, e)
    ensures Step(y, e).g.counter == y.g.counter
  {
    if e.Go? {
      var th := y.threads[e.t];
      CounterKept(y.g, if th.pc.Unlocking? then th.pc.l else LockOf(th.cmd), if th.cmd.Init? then th.cmd.stage else 0);
    }
  }

  lemma CounterMonotone(y: Sys, e: Event)
    requires Full(y) && Enabled(y, e)
    ensures y.g.counter <= Step(y, e).g.counter
  {
    if InitAnswer(y, e) {
      CallbackLocks(y.g, y.servers[StageClient(y.g.counter)], LockN);
    } else {
      CounterStays(y, e);
    }
  }

  /** An init call that holds its lock at a later stage than the one it had read, or what became of it. */
  ghost predicate Stale(y: Sys, t: nat) {
    && t in y.threads && y.threads[t].cmd.Init?
    && var th := y.threads[t]; var k := th.cmd.stage;
       if Underway(th.pc) then k < y.g.counter
       else th.pc == Failed || (th.seen > k && (th.pc.Unlocking? || th.pc == Notify || th.pc == Done))
  }

  lemma StaleStep(y: Sys, e: Event, t: nat)
    requires Full(y) && Enabled(y, e) && Stale(y, t)
    ensures Full(Step(y, e)) && Stale(Step(y, e), t)
    ensures Step(y, e).threads[t].cmd == y.threads[t].cmd
  {
    CounterMonotone(y, e);
    if e.t != t { assert Step(y, e).threads[t] == y.threads[t]; }
  }

  /** Without freshness it fails: a call that gets its lock after the stage moved on is never
      answered by a callback that finds the stage it was started at, whatever happens next. */
  lemma {:induction false} StaleForever(y: Sys, es: seq<Event>, t: nat)
    requires Full(y) && Runnable(y, es) && Stale(y, t)
    ensures Stale(After(y, es), t) && After(y, es).threads[t].cmd == y.threads[t].cmd
    decreases |es|
  {
    if es != [] {
      StaleStep(y, es[0], t);
      StaleForever(Step(y, es[0]), es[1..], t);
    }
  }

  lemma LockOutcome(y: Sys, e: Event)
    requires Inv(y) && Enabled(y, e) && Locking(y, e)
    ensures Stale(Step(y, e), e.t) <==> y.threads[e.t].cmd.stage != y.g.counter
  {
    assert ThreadOk(y, e.t);
  }

  // ------------------------------------------------------------------ every run

  /** Clients and calls in flight belong together. */
  ghost predicate ClientsOk(y: Sys) {
    && Full(y)
    && (forall t :: t in y.threads && y.threads[t].pc == InFlight ==> y.clients[ClientOf(y.threads[t].cmd)] == InUse(t))
    && (forall c: Name :: y.clients[c].InUse? ==>
          y.clients[c].owner in y.threads && y.threads[y.clients[c].owner].pc == InFlight
          && ClientOf(y.threads[y.clients[c].owner].cmd) == c)
  }

  /** The end function of a call has been called once if the call is done, and not before. */
  ghost predicate EndsOk(y: Sys) {
    forall t :: t in y.threads ==> y.threads[t].ends == if y.threads[t].pc == Done then 1 else 0
  }

  lemma EndsStep(y: Sys, e: Event)
    requires Full(y) && EndsOk(y) && Enabled(y, e)
    ensures EndsOk(Step(y, e))
  {
    var y' := Step(y, e);
    assert y'.threads[e.t].ends == if y'.threads[e.t].pc == Done then 1 else 0;
  }

  lemma ClientsStep(y: Sys, e: Event)
    requires ClientsOk(y) && Enabled(y, e)
    ensures ClientsOk(Step(y, e))
  {
    var y' := Step(y, e);
    ClientsEffect(y, e);
    forall u | u in y'.threads && y'.threads[u].pc == InFlight ensures y'.clients[ClientOf(y'.threads[u].cmd)] == InUse(u) {
      if u != e.t { assert y'.threads[u] == y.threads[u]; }
    }
  }

  lemma ClientsSame(y: Sys, e: Event)
    requires Full(y) && Enabled(y, e) && (e.Go? ==> y.threads[e.t].pc != AtCall && y.threads[e.t].pc != InFlight)
    ensures Step(y, e).clients == y.clients && Step(y, e).threads[e.t].pc != InFlight
  {
  }

  lemma ClientsRespond(y: Sys, t: nat, server: bool)
    requires ClientsOk(y) && t in y.threads && y.threads[t].pc == InFlight
    ensures var y' := StepRespond(y, t, server);
            OwnClient(y, y', t) && y'.threads[t].pc == InCallback && y'.clients[ClientOf(y.threads[t].cmd)] == Idle
  {
    assert y.clients[ClientOf(y.threads[t].cmd)] == InUse(t);
  }

  /** A step changes at most the client of its own call, and only by issuing or ending its request. */
  lemma ClientsEffect(y: Sys, e: Event)
    requires ClientsOk(y) && Enabled(y, e)
    ensures var y' := Step(y, e);
            && OwnClient(y, y', e.t)
            && (y'.threads[e.t].pc == InFlight ==> y'.clients[ClientOf(y'.threads[e.t].cmd)] == InUse(e.t))
            && (e.t in y.threads && y.threads[e.t].pc == InFlight ==> !y'.clients[ClientOf(y.threads[e.t].cmd)].InUse?)
  {
    if !e.Go? {
      ClientsSame(y, e);
    } else if y.threads[e.t].pc == AtCall {
      CallEffect(y, e.t, e.outcome);
    } else if y.threads[e.t].pc == InFlight {
      ClientsRespond(y, e.t, e.server);
    } else {
      ClientsSame(y, e);
    }
  }

  lemma {:induction false} AlwaysRun(y: Sys, es: seq<Event>)
    requires ClientsOk(y) && EndsOk(y) && Runnable(y, es)
    ensures ClientsOk(After(y, es)) && EndsOk(After(y, es))
    decreases |es|
  {
    if es != [] {
      EndsStep(y, es[0]);
      ClientsStep(y, es[0]);
      AlwaysRun(Step(y, es[0]), es[1..]);
    }
  }

  /** In every run whatever, stale or not: a call has its end function called exactly once by the
      time it is done, and never before; and a client in use is that of one call in flight. */
  lemma EndsExact(y: Sys, es: seq<Event>)
    requires Start(y) && Runnable(y, es)
    ensures EndsOk(After(y, es)) && ClientsOk(After(y, es))
  {
    AlwaysRun(y, es);
  }

  // ------------------------------------------------------ init calls one at a time

  /** An init call that may still read or use a stage. */
  predicate Active(th: Thread) {
    th.cmd.Init? && (th.pc == AtStage || th.pc == AtLock || Underway(th.pc))
  }

  /** What a caller can see to: sbcall_cdvdinit is entered only when no other init call is active. */
  ghost predicate Serial(y: Sys, e: Event) {
    e.Begin? && e.cmd.Init? ==> forall t :: t in y.threads ==> !Active(y.threads[t])
  }

  ghost predicate OneActive(y: Sys) {
    && (forall t, u :: t in y.threads && u in y.threads && Active(y.threads[t]) && Active(y.threads[u]) ==> t == u)
    && (forall t :: t in y.threads ==> Reads(y, y.threads[t]))
  }

  /** Only init calls read a stage, and none that has read one has been overtaken. */
  predicate Reads(y: Sys, th: Thread) {
    && (th.pc == AtStage ==> th.cmd.Init?)
    && (th.cmd.Init? && th.pc == AtLock ==> th.cmd.stage == y.g.counter)
  }

  lemma SerialGo(y: Sys, t: nat, outcome: Outcome, server: bool)
    requires Full(y) && Enabled(y, Go(t, outcome, server)) && Reads(y, y.threads[t])
    ensures var y' := Step(y, Go(t, outcome, server));
            && (Active(y'.threads[t]) ==> Active(y.threads[t]))
            && Reads(y', y'.threads[t])
  {
  }

  lemma SerialStep(y: Sys, e: Event)
    requires Full(y) && Enabled(y, e) && Serial(y, e) && OneActive(y)
    ensures OneActive(Step(y, e)) && Fresh(y, e)
  {
    if e.Go? {
      SerialGo(y, e.t, e.outcome, e.server);
    }
    if !InitAnswer(y, e) { CounterStays(y, e); }
  }

  ghost predicate SerialRun(y: Sys, es: seq<Event>)
    requires Full(y) && Runnable(y, es)
    decreases |es|
  {
    es == [] || (Serial(y, es[0]) && SerialRun(Step(y, es[0]), es[1..]))
  }

  lemma {:induction false} SerialFresh(y: Sys, es: seq<Event>)
    requires Full(y) && Runnable(y, es) && SerialRun(y, es) && OneActive(y)
    ensures FreshRun(y, es)
    decreases |es|
  {
    if es != [] {
      SerialStep(y, es[0]);
      SerialFresh(Step(y, es[0]), es[1..]);
    }
  }

  /** A caller that issues init calls one at a time gets all of it, whatever else is in progress. */
  lemma EverySerialRun(y: Sys, es: seq<Event>)
    requires Start(y) && Runnable(y, es) && SerialRun(y, es)
    ensures FreshRun(y, es) && Inv(After(y, es)) && After(y, es).g.errs == 0
  {
    SerialFresh(y, es);
    RunInv(y, es);
  }
}
