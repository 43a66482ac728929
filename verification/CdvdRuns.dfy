/**
  Runs built step by step: calls that complete, and the runs in which overlapping init calls go
  wrong, each from power on.
 */
module CdvdRuns {
  import opened CdvdState
  import opened CdvdProofs
  import opened CdvdLocks

  lemma {:induction false} RunOn(y: Sys, es: seq<Event>, e: Event)
    requires Full(y) && Runnable(y, es) && Full(After(y, es)) && Enabled(After(y, es), e) && Full(Step(After(y, es), e))
    ensures Runnable(y, es + [e]) && After(y, es + [e]) == Step(After(y, es), e)
    ensures FreshRun(y, es) && Fresh(After(y, es), e) ==> FreshRun(y, es + [e])
    ensures BenignRun(y, es) && Benign(After(y, es), e) ==> BenignRun(y, es + [e])
    decreases |es|
  {
    if es == [] {
      assert [e][1..] == [] && [] + [e] == [e];
    } else {
      RunOn(Step(y, es[0]), es[1..], e);
      assert (es + [e])[1..] == es[1..] + [e];
    }
  }

  // Single steps of an init call whose requests are all accepted and answered.

  function InitThread(k: nat, pc: Pc, seen: int): Thread {
    Thread(Init(k), pc, seen, 0)
  }

  ghost predicate InitAt(x: Sys, t: nat, k: nat, pc: Pc) {
    Full(x) && t in x.threads && x.threads[t] == InitThread(k, pc, -1) && k <= 5
  }

  lemma TakeLock(x: Sys, t: nat, k: nat)
    requires InitAt(x, t, k, AtLock) && !Locked(x.g, StageLock(k))
    ensures var z := Step(x, Go(t, Accepted, true));
            z == x.(g := SetLock(x.g, StageLock(k), true), threads := x.threads[t := InitThread(k, AtStat, -1)])
  {
  }

  lemma LookAtClient(x: Sys, t: nat, k: nat)
    requires InitAt(x, t, k, AtStat) && !x.clients[StatClient(StageLock(k))].InUse?
    ensures var z := Step(x, Go(t, Accepted, true));
            z == x.(g := Forget(x.g, k), threads := x.threads[t := InitThread(k, AtCall, -1)])
  {
  }

  lemma Issue(x: Sys, t: nat, k: nat)
    requires InitAt(x, t, k, AtCall) && x.clients[StageClient(k)] == Idle
    ensures var z := Step(x, Go(t, Accepted, true));
            z == x.(clients := x.clients[StageClient(k) := InUse(t)],
                    servers := if k == 3 then x.servers else x.servers[StageClient(k) := false],
                    threads := x.threads[t := InitThread(k, InFlight, -1)])
  {
  }

  lemma Answer(x: Sys, t: nat, k: nat)
    requires InitAt(x, t, k, InFlight)
    ensures var z := Step(x, Go(t, Accepted, true));
            z == x.(clients := x.clients[StageClient(k) := Idle],
                    servers := if k == 3 then x.servers else x.servers[StageClient(k) := true],
                    threads := x.threads[t := InitThread(k, InCallback, -1)])
  {
  }

  lemma Callback(x: Sys, t: nat, k: nat, found: nat)
    requires InitAt(x, t, k, InCallback) && found == x.g.counter <= 5
    ensures var z := Step(x, Go(t, Accepted, true));
            z == x.(g := InitCallback(x.g, x.servers[StageClient(found)]),
                    threads := x.threads[t := InitThread(k, Unlocking(StageLock(found)), found)])
  {
  }

  lemma Release(x: Sys, t: nat, k: nat, l: Lock, found: nat)
    requires Full(x) && t in x.threads && x.threads[t] == InitThread(k, Unlocking(l), found)
    ensures var z := Step(x, Go(t, Accepted, true));
            z == x.(g := Unlock(x.g, l), threads := x.threads[t := InitThread(k, Notify, found)])
  {
  }

  /** A run from `y` that has arrived at `x`. */
  ghost predicate Arrived(y: Sys, es: seq<Event>, x: Sys) {
    Full(y) && Runnable(y, es) && After(y, es) == x && Full(x)
  }

  predicate Answering(pc: Pc) {
    pc == InFlight || pc == InCallback || pc.Unlocking? || pc == Notify || pc == Done
  }

  /** Own steps left from an accepted request to its end function. */
  function Left(pc: Pc): nat {
    match pc
    case InFlight => 4
    case InCallback => 3
    case Unlocking(_) => 2
    case Notify => 1
    case _ => 0
  }

  lemma LastSteps(y: Sys, t: nat, server: bool)
    requires Full(y) && t in y.threads && Answering(y.threads[t].pc) && y.threads[t].pc != Done
    ensures var z := Step(y, Go(t, Accepted, server));
            t in z.threads && Answering(z.threads[t].pc) && Left(z.threads[t].pc) < Left(y.threads[t].pc)
  {
  }

  lemma Move(y: Sys, es: seq<Event>, x: Sys, e: Event) returns (es': seq<Event>, z: Sys)
    requires Arrived(y, es, x) && Enabled(x, e)
    ensures z == Step(x, e) && es' == es + [e] && Arrived(y, es', z)
    ensures FreshRun(y, es) && Fresh(x, e) ==> FreshRun(y, es')
    ensures BenignRun(y, es) && Benign(x, e) ==> BenignRun(y, es')
  {
    z := Step(x, e);
    assert Full(z);
    RunOn(y, es, e);
    es' := es + [e];
  }

  /** Once the IOP answers a call that returned 0, its callback runs through to the one call of
      the end function, needing no one else. */
  lemma Completes(y: Sys, t: nat, server: bool) returns (es: seq<Event>, z: Sys)
    requires Full(y) && EndsOk(y) && t in y.threads && y.threads[t].pc == InFlight
    ensures Arrived(y, es, z) && |es| <= 4 && forall i :: 0 <= i < |es| ==> es[i] == Go(t, Accepted, server)
    ensures t in z.threads && z.threads[t].pc == Done && z.threads[t].ends == 1
  {
    es, z := Finish(y, [], y, t, server);
  }

  lemma {:induction false} Finish(y: Sys, es: seq<Event>, x: Sys, t: nat, server: bool) returns (es': seq<Event>, z: Sys)
    requires Arrived(y, es, x) && EndsOk(x) && t in x.threads && Answering(x.threads[t].pc)
    requires forall i :: 0 <= i < |es| ==> es[i] == Go(t, Accepted, server)
    ensures Arrived(y, es', z) && |es'| <= |es| + Left(x.threads[t].pc)
    ensures forall i :: 0 <= i < |es'| ==> es'[i] == Go(t, Accepted, server)
    ensures t in z.threads && z.threads[t].pc == Done && z.threads[t].ends == 1
    decreases Left(x.threads[t].pc)
  {
    if x.threads[t].pc == Done {
      es', z := es, x;
    } else {
      LastSteps(x, t, server);
      EndsStep(x, Go(t, Accepted, server));
      es', z := Move(y, es, x, Go(t, Accepted, server));
      es', z := Finish(y, es', z, t, server);
    }
  }

  /** A new init call runs until it has read the stage. */
  lemma StartInit(y: Sys, es: seq<Event>, x: Sys, t: nat) returns (es': seq<Event>, z: Sys)
    requires Arrived(y, es, x) && t !in x.threads && x.g.counter <= 5
    ensures Arrived(y, es', z) && z == x.(threads := x.threads[t := InitThread(x.g.counter, AtLock, -1)])
  {
    es', z := Move(y, es, x, Begin(t, Init(0)));
    es', z := Move(y, es', z, Go(t, Accepted, true));
    assert z.threads == x.threads[t := InitThread(x.g.counter, AtLock, -1)];
  }

  /** It gets its lock and its request is accepted. */
  lemma IssueInit(y: Sys, es: seq<Event>, x: Sys, t: nat, k: nat) returns (es': seq<Event>, z: Sys)
    requires Arrived(y, es, x) && InitAt(x, t, k, AtLock) && !Locked(x.g, StageLock(k))
    requires !x.clients[StatClient(StageLock(k))].InUse? && x.clients[StageClient(k)] == Idle
    ensures Arrived(y, es', z) && z.g == Forget(SetLock(x.g, StageLock(k), true), k) && z.w == x.w
    ensures z.clients == x.clients[StageClient(k) := InUse(t)]
    ensures z.servers == if k == 3 then x.servers else x.servers[StageClient(k) := false]
    ensures z.threads == x.threads[t := InitThread(k, InFlight, -1)]
  {
    TakeLock(x, t, k);
    es', z := Move(y, es, x, Go(t, Accepted, true));
    Twice(x.threads, t, InitThread(k, AtStat, -1), InitThread(k, InFlight, -1));
    es', z := IssueLocked(y, es', z, t, k);
  }

  lemma IssueLocked(y: Sys, es: seq<Event>, x: Sys, t: nat, k: nat) returns (es': seq<Event>, z: Sys)
    requires Arrived(y, es, x) && InitAt(x, t, k, AtStat)
    requires !x.clients[StatClient(StageLock(k))].InUse? && x.clients[StageClient(k)] == Idle
    ensures Arrived(y, es', z) && z.g == Forget(x.g, k) && z.w == x.w
    ensures z.clients == x.clients[StageClient(k) := InUse(t)]
    ensures z.servers == if k == 3 then x.servers else x.servers[StageClient(k) := false]
    ensures z.threads == x.threads[t := InitThread(k, InFlight, -1)]
  {
    LookAtClient(x, t, k);
    es', z := Move(y, es, x, Go(t, Accepted, true));
    Issue(z, t, k);
    Twice(x.threads, t, InitThread(k, AtCall, -1), InitThread(k, InFlight, -1));
    es', z := Move(y, es', z, Go(t, Accepted, true));
  }

  /** Its request is answered: the callback releases the lock of the stage it finds. */
  lemma AnswerInit(y: Sys, es: seq<Event>, x: Sys, t: nat, k: nat, servers: map<Name, bool>) returns (es': seq<Event>, z: Sys)
    requires Arrived(y, es, x) && InitAt(x, t, k, InFlight) && x.g.counter <= 5
    requires servers == if k == 3 then x.servers else x.servers[StageClient(k) := true]
    ensures Arrived(y, es', z) && z.servers == servers
    ensures var found := x.g.counter;
            && StageClient(found) in servers
            && z.g == Unlock(InitCallback(x.g, servers[StageClient(found)]), StageLock(found))
            && z.threads == x.threads[t := InitThread(k, Notify, found)]
    ensures z.clients == x.clients[StageClient(k) := Idle] && z.w == x.w
  {
    var found := x.g.counter;
    Answer(x, t, k);
    es', z := Move(y, es, x, Go(t, Accepted, true));
    Callback(z, t, k, found);
    es', z := Move(y, es', z, Go(t, Accepted, true));
    Release(z, t, k, StageLock(found), found);
    es', z := Move(y, es', z, Go(t, Accepted, true));
    assert z.threads == x.threads[t := InitThread(k, Notify, found)];
  }

  /** Nothing is going on: no lock taken, no request pending, no mutex error so far. */
  ghost predicate Quiet(x: Sys) {
    && Full(x) && !x.g.n && !x.g.s && x.g.errs == 0
    && (forall c: Name :: x.clients[c] == Idle)
    && (forall t, l :: t in x.threads ==> !HoldsLock(x.threads[t], l))
  }

  lemma StageGlobals(g: Globals, k: nat)
    requires k == g.counter <= 5 && !g.n && !g.s
    ensures var h := Unlock(InitCallback(Forget(SetLock(g, StageLock(k), true), k), true), StageLock(k));
            && !h.n && !h.s && h.errs == g.errs && h.counter == k + 1 && h.boundReady == (k == 2 || (k != 0 && g.boundReady))
            && h.boundN == (k == 4 || (k != 0 && g.boundN)) && h.boundS == (k == 5 || (k != 0 && g.boundS))
  {
  }

  lemma QuietAgain(x: Sys, z: Sys, t: nat, k: nat)
    requires Quiet(x) && Full(z) && !z.g.n && !z.g.s && z.g.errs == 0
    requires z.clients == x.clients[StageClient(k) := Idle] && z.threads == x.threads[t := InitThread(k, Notify, k)]
    ensures Quiet(z) && z.threads.Keys == x.threads.Keys + {t}
  {
  }

  /** Stages that are over have set their bind variable. */
  predicate Ready(g: Globals) {
    (g.counter >= 3 ==> g.boundReady) && (g.counter >= 5 ==> g.boundN) && (g.counter >= 6 ==> g.boundS)
  }

  /** One stage, undisturbed. */
  lemma OneStage(y: Sys, es: seq<Event>, x: Sys, t: nat) returns (es': seq<Event>, z: Sys)
    requires Arrived(y, es, x) && Quiet(x) && x.g.counter <= 5 && t !in x.threads && Ready(x.g)
    ensures Arrived(y, es', z) && Quiet(z) && z.g.counter == x.g.counter + 1 && Ready(z.g)
    ensures x.g.counter <= 3 ==> z.servers[ClientNCmd] == x.servers[ClientNCmd]
    ensures z.threads.Keys == x.threads.Keys + {t}
  {
    es', z := StageRun(y, es, x, t, x.g.counter);
    StageGlobals(x.g, x.g.counter);
    QuietAgain(x, z, t, x.g.counter);
  }

  lemma Twice<K, V>(m: map<K, V>, k: K, a: V, b: V)
    ensures m[k := a][k := b] == m[k := b]
  {
  }

  lemma StageRun(y: Sys, es: seq<Event>, x: Sys, t: nat, k: nat) returns (es': seq<Event>, z: Sys)
    requires Arrived(y, es, x) && Quiet(x) && k == x.g.counter <= 5 && t !in x.threads
    ensures Arrived(y, es', z)
    ensures z.g == Unlock(InitCallback(Forget(SetLock(x.g, StageLock(k), true), k), true), StageLock(k))
    ensures z.clients == x.clients[StageClient(k) := Idle]
    ensures z.servers == if k == 3 then x.servers else x.servers[StageClient(k) := true]
    ensures z.threads == x.threads[t := InitThread(k, Notify, k)]
  {
    var x1;
    es', x1 := StageIssue(y, es, x, t, k);
    es', z := StageAnswer(y, es', x1, t, k);
    Twice(x.clients, StageClient(k), InUse(t), Idle);
    Twice(x.servers, StageClient(k), false, true);
    Twice(x.threads, t, InitThread(k, InFlight, -1), InitThread(k, Notify, k));
  }

  lemma StageIssue(y: Sys, es: seq<Event>, x: Sys, t: nat, k: nat) returns (es': seq<Event>, z: Sys)
    requires Arrived(y, es, x) && Quiet(x) && k == x.g.counter <= 5 && t !in x.threads
    ensures Arrived(y, es', z) && z.g == Forget(SetLock(x.g, StageLock(k), true), k) && z.g.counter == k
    ensures z.clients == x.clients[StageClient(k) := InUse(t)]
    ensures z.servers == if k == 3 then x.servers else x.servers[StageClient(k) := false]
    ensures z.threads == x.threads[t := InitThread(k, InFlight, -1)]
  {
    es', z := StartInit(y, es, x, t);
    es', z := IssueInit(y, es', z, t, k);
    ForgetLocks(SetLock(x.g, StageLock(k), true), k, LockS);
    Twice(x.threads, t, InitThread(k, AtLock, -1), InitThread(k, InFlight, -1));
  }

  lemma StageAnswer(y: Sys, es: seq<Event>, x: Sys, t: nat, k: nat) returns (es': seq<Event>, z: Sys)
    requires Arrived(y, es, x) && InitAt(x, t, k, InFlight) && k == x.g.counter <= 5
    ensures Arrived(y, es', z) && z.clients == x.clients[StageClient(k) := Idle]
    ensures z.g == Unlock(InitCallback(x.g, true), StageLock(k))
    ensures z.servers == if k == 3 then x.servers else x.servers[StageClient(k) := true]
    ensures z.threads == x.threads[t := InitThread(k, Notify, k)]
  {
    es', z := AnswerInit(y, es, x, t, k, if k == 3 then x.servers else x.servers[StageClient(k) := true]);
  }

  lemma FirstStages(y: Sys) returns (es: seq<Event>, z: Sys)
    requires Start(y)
    ensures Arrived(y, es, z) && Quiet(z) && z.g.counter == 3 && z.g.boundReady && z.threads.Keys == {1, 2, 3}
    ensures z.servers[ClientNCmd] == y.servers[ClientNCmd]
  {
    es, z := OneStage(y, [], y, 1);
    es, z := OneStage(y, es, z, 2);
    es, z := OneStage(y, es, z, 3);
  }

  /** Two init calls read stage 3; the first one is answered before the second one takes its lock. */
  lemma TwoInits(y: Sys, es: seq<Event>, x: Sys) returns (es': seq<Event>, z: Sys)
    requires Arrived(y, es, x) && Quiet(x) && x.g.counter == 3 && 4 !in x.threads && 5 !in x.threads
    ensures Arrived(y, es', z) && z.g == x.g.(s := true) && z.servers == x.servers
    ensures z.clients == x.clients[ClientInit := InUse(4)]
    ensures z.threads == x.threads[4 := InitThread(3, InFlight, -1)][5 := InitThread(3, AtLock, -1)]
  {
    var x1;
    es', x1 := StartInit(y, es, x, 4);
    es', x1 := IssueInit(y, es', x1, 4, 3);
    Twice(x.threads, 4, InitThread(3, AtLock, -1), InitThread(3, InFlight, -1));
    es', z := StartInit(y, es', x1, 5);
  }

  lemma InterruptedInit(y: Sys, es: seq<Event>, x: Sys) returns (es': seq<Event>, z: Sys)
    requires Arrived(y, es, x) && Quiet(x) && x.g.counter == 3 && 4 !in x.threads && 5 !in x.threads
    ensures Arrived(y, es', z) && z.g == x.g.(counter := 4) && z.servers == x.servers
    ensures forall c: Name :: z.clients[c] == Idle
    ensures z.threads == x.threads[4 := InitThread(3, Notify, 3)][5 := InitThread(3, AtLock, -1)]
  {
    var x1;
    es', x1 := TwoInits(y, es, x);
    es', z := AnswerInit(y, es', x1, 4, 3, x1.servers);
    assert z.threads == x.threads[4 := InitThread(3, Notify, 3)][5 := InitThread(3, AtLock, -1)];
  }

  lemma StaleInit(y: Sys, es: seq<Event>, x: Sys) returns (es': seq<Event>, z: Sys)
    requires Arrived(y, es, x) && Quiet(x) && x.g.counter == 3 && 4 !in x.threads && 5 !in x.threads
    requires !x.servers[ClientNCmd]
    ensures Arrived(y, es', z) && z.g == x.g.(counter := 4, s := true, errs := 1)
    ensures z.threads == x.threads[4 := InitThread(3, Notify, 3)][5 := InitThread(3, Notify, 4)]
  {
    es', z := InterruptedInit(y, es, x);
    es', z := IssueInit(y, es', z, 5, 3);
    es', z := AnswerInit(y, es', z, 5, 3, z.servers);
    assert z.threads == x.threads[4 := InitThread(3, Notify, 3)][5 := InitThread(3, Notify, 4)];
  }

  /** The failure in full, from power on: after three undisturbed stages two calls overlap at
      stage 3.  The second one reads the stage, is interrupted by the first one's callback, takes
      LockS for a stage that is over, and its callback unlocks LockN, which nobody holds; LockS
      stays taken with no one to release it. */
  lemma OverlappingInits(y: Sys) returns (es: seq<Event>, z: Sys)
    requires Start(y) && !y.servers[ClientNCmd]
    ensures Full(y) && Runnable(y, es) && After(y, es) == z
    ensures z.g.errs == 1 && z.g.s && forall t, l :: t in z.threads ==> !HoldsLock(z.threads[t], l)
  {
    var x;
    es, x := FirstStages(y);
    es, z := StaleInit(y, es, x);
  }

  // ----------------------------------------------------- a fresh call overtaken

  /** Being fresh itself does not help a call: call 5 takes LockS late, for stage 3, and call 6
      then takes LockN for the current stage 4.  Both requests are answered, the callback of call 5
      comes first and moves the counter on, and the callback of call 6 finds stage 5. */
  lemma FreshYetOvertaken(y: Sys) returns (es: seq<Event>, x: Sys, es': seq<Event>, z: Sys)
    requires Start(y)
    ensures Arrived(y, es, x) && Locking(x, Go(6, Accepted, true)) && Fresh(x, Go(6, Accepted, true))
    ensures Arrived(Step(x, Go(6, Accepted, true)), es', z)
    ensures 6 in z.threads && z.threads[6].cmd == Init(4) && z.threads[6].seen == 5
  {
    es, x := FirstStages(y);
    es, x := InterruptedInit(y, es, x);
    es, x := IssueInit(y, es, x, 5, 3);
    es, x := StartInit(y, es, x, 6);
    TakeLock(x, 6, 4);
    es', z := Overtake(Step(x, Go(6, Accepted, true)));
  }

  lemma Overtake(x: Sys) returns (es: seq<Event>, z: Sys)
    requires InitAt(x, 5, 3, InFlight) && InitAt(x, 6, 4, AtStat) && x.g.counter == 4
    requires x.clients[ClientNCmd] == Idle
    ensures Arrived(x, es, z) && 6 in z.threads && z.threads[6].cmd == Init(4) && z.threads[6].seen == 5
  {
    es, z := IssueLocked(x, [], x, 6, 4);
    Answer(z, 6, 4);
    es, z := Move(x, es, z, Go(6, Accepted, true));
    es, z := AnswerInit(x, es, z, 5, 3, z.servers);
    Callback(z, 6, 4, 5);
    es, z := Move(x, es, z, Go(6, Accepted, true));
  }

  /** In every continuation whose other init calls are fresh, callbacks find their own stage. */
  ghost predicate StaysOwn(y: Sys)
    requires Full(y)
  {
    forall es :: Runnable(y, es) && FreshRun(y, es) ==> OwnStages(After(y, es))
  }

  /** If client `c` is in use, its request is answered. */
  lemma Unblock(y: Sys, es: seq<Event>, x: Sys, t: nat, c: Name) returns (es': seq<Event>, z: Sys)
    requires Arrived(y, es, x) && FreshRun(y, es) && BenignRun(y, es) && ClientsOk(x)
    requires t in x.threads && x.threads[t].pc != InFlight
    ensures Arrived(y, es', z) && FreshRun(y, es') && BenignRun(y, es') && ClientsOk(z)
    ensures z.g == x.g && z.threads.Keys == x.threads.Keys && z.threads[t] == x.threads[t]
    ensures forall d: Name :: z.clients[d] == if d == c && x.clients[c].InUse? then Idle else x.clients[d]
  {
    es', z := es, x;
    if x.clients[c].InUse? {
      var e := Go(x.clients[c].owner, Accepted, true);
      ClientsStep(x, e);
      es', z := Move(y, es, x, e);
    }
  }

  /** With the client its lock looks at idle, a call that has its lock goes on to its request. */
  lemma PassStat(y: Sys, es: seq<Event>, x: Sys, t: nat, k: nat) returns (es': seq<Event>, z: Sys)
    requires Arrived(y, es, x) && FreshRun(y, es) && BenignRun(y, es) && ClientsOk(x) && InitAt(x, t, k, AtStat)
    requires !x.clients[StatClient(StageLock(k))].InUse?
    ensures Arrived(y, es', z) && FreshRun(y, es') && BenignRun(y, es') && ClientsOk(z) && InitAt(z, t, k, AtCall)
    ensures z.g.counter == x.g.counter && z.clients == x.clients
  {
    LookAtClient(x, t, k);
    ForgetLocks(x.g, k, LockN);
    ClientsStep(x, Go(t, Accepted, true));
    es', z := Move(y, es, x, Go(t, Accepted, true));
  }

  /** Its request is accepted and answered, and its callback has read the counter. */
  lemma ToCallback(y: Sys, es: seq<Event>, x: Sys, t: nat, k: nat) returns (es': seq<Event>, z: Sys)
    requires Arrived(y, es, x) && FreshRun(y, es) && InitAt(x, t, k, AtCall) && x.clients[StageClient(k)] == Idle
    ensures Arrived(y, es', z) && FreshRun(y, es')
    ensures t in z.threads && z.threads[t].cmd == Init(k) && z.threads[t].seen == x.g.counter
  {
    Issue(x, t, k);
    es', z := Move(y, es, x, Go(t, Accepted, true));
    Answer(z, t, k);
    es', z := Move(y, es', z, Go(t, Accepted, true));
    es', z := Move(y, es', z, Go(t, Accepted, true));
  }

  /** A stale call whose client is not stuck can be answered, with no other init call taking part,
      and then its callback finds a later stage. */
  lemma StaleAnswered(x: Sys, t: nat, k: nat) returns (es: seq<Event>, z: Sys)
    requires ClientsOk(x) && InitAt(x, t, k, AtStat) && k < x.g.counter && x.clients[StageClient(k)] != Stuck
    ensures Arrived(x, es, z) && FreshRun(x, es) && !OwnStages(z)
  {
    es, z := Unblock(x, [], x, t, StatClient(StageLock(k)));
    es, z := PassStat(x, es, z, t, k);
    es, z := Unblock(x, es, z, t, StageClient(k));
    es, z := ToCallback(x, es, z, t, k);
  }

  lemma InvClients(y: Sys)
    requires Inv(y)
    ensures ClientsOk(y)
  {
    forall t | t in y.threads && y.threads[t].pc == InFlight ensures y.clients[ClientOf(y.threads[t].cmd)] == InUse(t) {
      assert ThreadOk(y, t);
    }
  }

  lemma FreshKeepsOwn(y: Sys)
    requires Inv(y)
    ensures StaysOwn(y)
  {
    forall es | Runnable(y, es) && FreshRun(y, es) ensures OwnStages(After(y, es)) {
      RunInv(y, es);
      var z := After(y, es);
      forall t | t in z.threads ensures ThreadOk(z, t) {}
    }
  }

  /** The exact condition when an init call gets its lock: over all fresh continuations every init
      callback finds its own stage if and only if the lock step was fresh. */
  lemma FreshIsExact(y: Sys, e: Event)
    requires Inv(y) && Enabled(y, e) && Locking(y, e)
    ensures StaysOwn(Step(y, e)) <==> Fresh(y, e)
  {
    var y', th := Step(y, e), y.threads[e.t];
    if Fresh(y, e) {
      StepInv(y, e);
      FreshKeepsOwn(y');
    } else {
      assert ThreadOk(y, e.t);
      InvClients(y);
      ClientsStep(y, e);
      TakeLock(y, e.t, th.cmd.stage);
      var es, z := StaleAnswered(y', e.t, th.cmd.stage);
    }
  }

  // ---------------------------------------------------------- a buffer overwritten

  function Calling(cmd: Command, pc: Pc): Thread {
    Thread(cmd, pc, -1, 0)
  }

  /** A new command gets its lock and fills the buffers. */
  lemma FillBuffers(y: Sys, es: seq<Event>, x: Sys, t: nat, cmd: Command) returns (es': seq<Event>, z: Sys)
    requires Arrived(y, es, x) && t !in x.threads && UsesBuffers(cmd) && !Locked(x.g, LockOf(cmd))
    requires !x.clients[StatClient(LockOf(cmd))].InUse?
    ensures Arrived(y, es', z) && (BenignRun(y, es) ==> BenignRun(y, es'))
    ensures z.g == SetLock(x.g, LockOf(cmd), true) && z.clients == x.clients && z.servers == x.servers
    ensures z.w == SetWriter(x.w, LockOf(cmd), t)
    ensures z.threads == x.threads[t := Calling(cmd, if Bound(x.g, cmd) then AtCall else AtUnlock)]
  {
    var e := Go(t, Accepted, true);
    es', z := Move(y, es, x, Begin(t, cmd));
    es', z := Move(y, es', z, e);
    assert z == x.(threads := x.threads[t := Calling(cmd, AtStat)], g := SetLock(x.g, LockOf(cmd), true));
    es', z := FillLocked(y, es', z, t, cmd);
    Twice(x.threads, t, Calling(cmd, AtStat), Calling(cmd, if Bound(x.g, cmd) then AtCall else AtUnlock));
  }

  lemma FillLocked(y: Sys, es: seq<Event>, x: Sys, t: nat, cmd: Command) returns (es': seq<Event>, z: Sys)
    requires Arrived(y, es, x) && t in x.threads && x.threads[t] == Calling(cmd, AtStat) && UsesBuffers(cmd)
    requires !x.clients[StatClient(LockOf(cmd))].InUse?
    ensures Arrived(y, es', z) && (BenignRun(y, es) ==> BenignRun(y, es'))
    ensures z == x.(threads := x.threads[t := Calling(cmd, if Bound(x.g, cmd) then AtCall else AtUnlock)],
                    w := SetWriter(x.w, LockOf(cmd), t))
  {
    var e := Go(t, Accepted, true);
    es', z := Move(y, es, x, e);
    assert z == x.(threads := x.threads[t := Calling(cmd, AtBind)]);
    es', z := Move(y, es', z, e);
    Twice(x.threads, t, Calling(cmd, AtBind), Calling(cmd, if Bound(x.g, cmd) then AtCall else AtUnlock));
  }

  /** Two init calls read stage 4; the second one takes its lock after the first one is answered. */
  lemma TwoAtStageFour(y: Sys, es: seq<Event>, x: Sys) returns (es': seq<Event>, z: Sys)
    requires Arrived(y, es, x) && Quiet(x) && x.g.counter == 4 && 5 !in x.threads && 6 !in x.threads
    ensures Arrived(y, es', z) && InitAt(z, 6, 4, InFlight) && z.threads.Keys == x.threads.Keys + {5, 6}
    ensures z.g == x.g.(counter := 5, boundN := true, n := true)
    ensures forall c: Name :: z.clients[c] == if c == ClientNCmd then InUse(6) else Idle
  {
    es', z := StartInit(y, es, x, 5);
    es', z := StartInit(y, es', z, 6);
    es', z := IssueInit(y, es', z, 5, 4);
    es', z := AnswerInit(y, es', z, 5, 4, z.servers[ClientNCmd := true]);
    assert z.g == x.g.(counter := 5, boundN := true);
    es', z := IssueInit(y, es', z, 6, 4);
  }

  /** Call 6 is answered, and disk ready call 7 fills its buffer and is with the IOP. */
  lemma ReadyInFlight(y: Sys, es: seq<Event>, x: Sys) returns (es': seq<Event>, z: Sys)
    requires Arrived(y, es, x) && InitAt(x, 6, 4, InFlight) && 7 !in x.threads && 8 !in x.threads
    requires !x.g.s && x.g.boundReady && x.g.counter == 5
    requires x.clients[ClientSCmd] == Idle && x.clients[ClientDiskReady] == Idle
    ensures Arrived(y, es', z) && InitAt(z, 6, 4, InCallback) && 8 !in z.threads
    ensures z.g == x.g.(s := true) && z.clients[ClientSCmd] == Idle
    ensures 7 in z.threads && z.threads[7] == Calling(DiskReady, InFlight)
  {
    Answer(x, 6, 4);
    es', z := Move(y, es, x, Go(6, Accepted, true));
    es', z := FillBuffers(y, es', z, 7, DiskReady);
    es', z := Move(y, es', z, Go(7, Accepted, true));
  }

  lemma ReleasedInUse(y: Sys, es: seq<Event>, x: Sys) returns (es': seq<Event>, z: Sys)
    requires Arrived(y, es, x) && InitAt(x, 6, 4, InCallback) && 8 !in x.threads && x.g.counter == 5
    requires x.g.s && x.clients[ClientSCmd] == Idle && 7 in x.threads
    ensures Arrived(y, es', z) && 7 in z.threads && z.threads[7] == x.threads[7] && z.w.s == 8
  {
    Callback(x, 6, 4, 5);
    es', z := Move(y, es, x, Go(6, Accepted, true));
    CallbackLocks(x.g, x.servers[ClientSCmd], LockS);
    Release(z, 6, 4, LockS, 5);
    es', z := Move(y, es', z, Go(6, Accepted, true));
    es', z := FillBuffers(y, es', z, 8, DiskReady);
  }

  /** The failure in full, from power on: call 6 holds LockN for stage 4, which is over.  Disk ready
      call 7 has filled its buffer and is with the IOP when the callback of call 6 finds stage 5 and
      releases LockS; call 8 takes it and writes the buffer that call 7 is using. */
  lemma OverwrittenBuffer(y: Sys) returns (es: seq<Event>, z: Sys)
    requires Start(y)
    ensures Arrived(y, es, z) && 7 in z.threads && z.threads[7] == Calling(DiskReady, InFlight) && z.w.s == 8
  {
    es, z := FirstStages(y);
    es, z := OneStage(y, es, z, 4);
    es, z := TwoAtStageFour(y, es, z);
    es, z := ReadyInFlight(y, es, z);
    es, z := ReleasedInUse(y, es, z);
  }

  lemma {:induction false} Above(s: set<nat>) returns (b: nat)
    ensures forall x :: x in s ==> x < b
    decreases |s|
  {
    b := 0;
    if s != {} {
      var x :| x in s;
      b := Above(s - {x});
      assert forall k :: k in s ==> k == x || k in s - {x};
      b := if x < b then b else x + 1;
    }
  }

  /** Exposed buffers are not safe: with every later init callback benign, another command can
      write them while the first one still has them in use. */
  lemma ExposedIsWritten(x: Sys, u: nat) returns (es: seq<Event>, z: Sys)
    requires ClientsOk(x) && ExposedCall(x, u)
    ensures Arrived(x, es, z) && BenignRun(x, es) && !BuffersOk(z)
    ensures u in z.threads && UsesBuffers(z.threads[u].cmd) && Filled(z.threads[u].pc)
    ensures WriterOf(z.w, LockOf(z.threads[u].cmd)) != u
  {
    var l := LockOf(x.threads[u].cmd);
    var t := Above(x.threads.Keys);
    es, z := [], x;
    if x.clients[StatClient(l)].InUse? {
      es, z := Move(x, es, x, Go(x.clients[StatClient(l)].owner, Accepted, true));
    }
    assert u in z.threads && z.threads[u].cmd == x.threads[u].cmd && Filled(z.threads[u].pc) && z.g == x.g;
    assert t !in z.threads && u != t;
    es, z := FillBuffers(x, es, z, t, if l == LockN then NCmd(Stop) else DiskReady);
    assert u in z.threads && UsesBuffers(z.threads[u].cmd) && Filled(z.threads[u].pc) && WriterOf(z.w, l) == t;
  }
}
