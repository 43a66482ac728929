/**
  The mutexes and the buffers behind them when init calls may overlap: what is left of the lock
  discipline, exactly which init callbacks break it, and when that puts a buffer at risk.
 */
module CdvdLocks {
  import opened CdvdState
  import opened CdvdProofs

  /** Shapes that every run keeps. */
  predicate Shaped(th: Thread) {
    && (th.cmd.Reset? ==> th.pc in {AtCall, Failed, InFlight, InCallback, Notify, Done})
    && (th.pc == AtStage ==> th.cmd.Init?)
  }

  /** About to release no lock but that of its own call. */
  predicate Kept(th: Thread) {
    th.pc.Unlocking? ==> th.pc.l == LockOf(th.cmd)
  }

  ghost predicate Held(y: Sys, l: Lock) {
    exists t :: t in y.threads && HoldsLock(y.threads[t], l)
  }

  /** What thread `t` holds before a step. */
  predicate HeldBy(y: Sys, t: nat, l: Lock) {
    t in y.threads && HoldsLock(y.threads[t], l)
  }

  /** Mutual exclusion: a lock that is held is taken, by one call, and no unlock has failed. */
  ghost predicate HoldInv(y: Sys) {
    && Full(y) && y.g.errs == 0 && Exclusive(y)
    && (forall t, l :: t in y.threads && HoldsLock(y.threads[t], l) ==> Locked(y.g, l))
    && (forall t :: t in y.threads ==> Shaped(y.threads[t]))
  }

  /** Besides, no lock stays taken that nobody holds. */
  ghost predicate LockInv(y: Sys) {
    && HoldInv(y)
    && (forall l :: Locked(y.g, l) ==> Held(y, l))
    && (forall t :: t in y.threads ==> Kept(y.threads[t]))
  }

  /** Thread `t` takes only what is free, and takes or releases nothing behind the others' backs. */
  ghost predicate Orderly(y: Sys, y': Sys, t: nat) {
    && Only(y, y', t) && y'.g.errs == 0 && Shaped(y'.threads[t])
    && (forall l :: Locked(y'.g, l) <==> HoldsLock(y'.threads[t], l) || (Locked(y.g, l) && !HeldBy(y, t, l)))
    && (forall l :: HoldsLock(y'.threads[t], l) ==> !Locked(y.g, l) || HeldBy(y, t, l))
  }

  lemma HoldUpdate(y: Sys, y': Sys, t: nat)
    requires HoldInv(y) && Orderly(y, y', t)
    ensures HoldInv(y')
  {
    forall u, l | u in y.threads && u != t && HoldsLock(y.threads[u], l)
      ensures Locked(y'.g, l) && !HoldsLock(y'.threads[t], l)
    {
      assert Locked(y.g, l);
    }
  }

  lemma LockUpdate(y: Sys, y': Sys, t: nat)
    requires LockInv(y) && Orderly(y, y', t) && Kept(y'.threads[t])
    ensures LockInv(y')
  {
    HoldUpdate(y, y', t);
    forall l | Locked(y'.g, l) ensures Held(y', l) {
      if !HoldsLock(y'.threads[t], l) {
        var u :| u in y.threads && HoldsLock(y.threads[u], l);
        assert u in y'.threads && HoldsLock(y'.threads[u], l);
      }
    }
  }

  /** Steps that neither take nor release a lock. */
  lemma OrderlySame(y: Sys, y': Sys, t: nat)
    requires HoldInv(y) && Only(y, y', t) && t in y.threads
    requires y'.g.errs == 0 && Shaped(y'.threads[t])
    requires forall l :: Locked(y'.g, l) == Locked(y.g, l) && HoldsLock(y'.threads[t], l) == HoldsLock(y.threads[t], l)
    ensures Orderly(y, y', t)
  {
  }

  lemma OrderlyStat(y: Sys, t: nat, outcome: Outcome, server: bool)
    requires HoldInv(y) && Enabled(y, Go(t, outcome, server)) && y.threads[t].pc == AtStat
    ensures Orderly(y, Step(y, Go(t, outcome, server)), t)
  {
    var y', th := Step(y, Go(t, outcome, server)), y.threads[t];
    assert Shaped(th);
    forall l { SameLock(th, y'.threads[t], l); }
    forall l { ForgetLocks(y.g, if th.cmd.Init? then th.cmd.stage else 0, l); }
    OrderlySame(y, y', t);
  }

  lemma OrderlyBind(y: Sys, t: nat, outcome: Outcome, server: bool)
    requires HoldInv(y) && Enabled(y, Go(t, outcome, server)) && y.threads[t].pc == AtBind
    ensures Orderly(y, Step(y, Go(t, outcome, server)), t)
  {
    var y', th := Step(y, Go(t, outcome, server)), y.threads[t];
    assert Shaped(th);
    forall l { SameLock(th, y'.threads[t], l); }
    OrderlySame(y, y', t);
  }

  lemma OrderlyCall(y: Sys, t: nat, outcome: Outcome, server: bool)
    requires HoldInv(y) && Enabled(y, Go(t, outcome, server)) && y.threads[t].pc == AtCall
    ensures Orderly(y, Step(y, Go(t, outcome, server)), t)
  {
    var y', th := Step(y, Go(t, outcome, server)), y.threads[t];
    assert Shaped(th);
    if !th.cmd.Reset? { forall l { SameLock(th, y'.threads[t], l); } }
    OrderlySame(y, y', t);
  }

  lemma OrderlyRespond(y: Sys, t: nat, outcome: Outcome, server: bool)
    requires HoldInv(y) && Enabled(y, Go(t, outcome, server)) && y.threads[t].pc == InFlight
    ensures Orderly(y, Step(y, Go(t, outcome, server)), t)
  {
    var y', th := Step(y, Go(t, outcome, server)), y.threads[t];
    assert Shaped(th);
    forall l { SameLock(th, y'.threads[t], l); }
    OrderlySame(y, y', t);
  }

  lemma OrderlyLock(y: Sys, t: nat, outcome: Outcome, server: bool)
    requires HoldInv(y) && Enabled(y, Go(t, outcome, server)) && y.threads[t].pc == AtLock
    ensures Orderly(y, Step(y, Go(t, outcome, server)), t)
  {
    assert Shaped(y.threads[t]);
  }

  lemma OrderlyUnlock(y: Sys, t: nat, outcome: Outcome, server: bool)
    requires HoldInv(y) && Enabled(y, Go(t, outcome, server))
    requires y.threads[t].pc == AtUnlock || y.threads[t].pc.Unlocking?
    ensures Orderly(y, Step(y, Go(t, outcome, server)), t)
  {
    var th := y.threads[t];
    assert Shaped(th) && HoldsLock(th, if th.pc.Unlocking? then th.pc.l else LockOf(th.cmd));
  }

  lemma OrderlyOther(y: Sys, e: Event)
    requires HoldInv(y) && Enabled(y, e)
    requires !e.Go? || y.threads[e.t].pc == AtStage || y.threads[e.t].pc == Notify
    ensures Orderly(y, Step(y, e), e.t)
  {
  }

  lemma OrderlyCallback(y: Sys, t: nat, outcome: Outcome, server: bool)
    requires HoldInv(y) && Enabled(y, Go(t, outcome, server)) && y.threads[t].pc == InCallback
    requires Benign(y, Go(t, outcome, server))
    ensures Orderly(y, Step(y, Go(t, outcome, server)), t)
  {
    var e, th := Go(t, outcome, server), y.threads[t];
    assert Shaped(th);
    forall l, b { CallbackLocks(y.g, b, l); }
    OrderlySame(y, Step(y, e), t);
  }

  lemma OrderlyStep(y: Sys, e: Event)
    requires HoldInv(y) && Enabled(y, e) && Benign(y, e)
    ensures Orderly(y, Step(y, e), e.t)
  {
    if e.Go? {
      match y.threads[e.t].pc {
        case AtLock => OrderlyLock(y, e.t, e.outcome, e.server);
        case AtStat => OrderlyStat(y, e.t, e.outcome, e.server);
        case AtBind => OrderlyBind(y, e.t, e.outcome, e.server);
        case AtCall => OrderlyCall(y, e.t, e.outcome, e.server);
        case AtUnlock => OrderlyUnlock(y, e.t, e.outcome, e.server);
        case Unlocking(_) => OrderlyUnlock(y, e.t, e.outcome, e.server);
        case InFlight => OrderlyRespond(y, e.t, e.outcome, e.server);
        case InCallback => OrderlyCallback(y, e.t, e.outcome, e.server);
        case _ => OrderlyOther(y, e);
      }
    } else {
      OrderlyOther(y, e);
    }
  }

  // ------------------------------------------------------------- no lock lost

  /** An init callback finds a stage with the lock its call took. */
  predicate Benign(y: Sys, e: Event)
    requires Enabled(y, e)
  {
    InitAnswer(y, e) ==> y.g.counter <= 5 && StageLock(y.g.counter) == LockOf(y.threads[e.t].cmd)
  }

  lemma KeptStep(y: Sys, e: Event)
    requires Full(y) && Enabled(y, e) && Benign(y, e)
    ensures Kept(Step(y, e).threads[e.t])
  {
  }

  /** The callback leaves the lock of its call without a holder, for good or until some other call
      releases it by mistake, exactly when the stage it finds has another lock or is over. */
  lemma LockAnswered(y: Sys, t: nat, outcome: Outcome, server: bool)
    requires LockInv(y) && Enabled(y, Go(t, outcome, server)) && y.threads[t].pc == InCallback
    ensures LockInv(Step(y, Go(t, outcome, server))) <==> Benign(y, Go(t, outcome, server))
  {
    var e, th := Go(t, outcome, server), y.threads[t];
    var y', l := Step(y, e), LockOf(th.cmd);
    if Benign(y, e) {
      OrderlyCallback(y, t, outcome, server);
      LockUpdate(y, y', t);
    } else {
      forall k, b { CallbackLocks(y.g, b, k); }
      assert HoldsLock(th, l) && Locked(y'.g, l);
      assert !HoldsLock(y'.threads[t], l);
      assert !Held(y', l);
    }
  }

  /** A step keeps the locks in order if and only if it is not an init callback that finds a stage
      with another lock. */
  lemma LockStepExact(y: Sys, e: Event)
    requires LockInv(y) && Enabled(y, e)
    ensures LockInv(Step(y, e)) <==> Benign(y, e)
  {
    if InitAnswer(y, e) {
      LockAnswered(y, e.t, e.outcome, e.server);
    } else {
      OrderlyStep(y, e);
      KeptStep(y, e);
      LockUpdate(y, Step(y, e), e.t);
    }
  }

  /** The locks are in order after every step of the run. */
  ghost predicate LocksThroughout(y: Sys, es: seq<Event>)
    requires Full(y) && Runnable(y, es)
    decreases |es|
  {
    LockInv(y) && (es != [] ==> LocksThroughout(Step(y, es[0]), es[1..]))
  }

  /** Every init callback of the run finds a stage with the lock its call took. */
  ghost predicate BenignRun(y: Sys, es: seq<Event>)
    requires Full(y) && Runnable(y, es)
    decreases |es|
  {
    es != [] ==> Benign(y, es[0]) && BenignRun(Step(y, es[0]), es[1..])
  }

  lemma {:induction false} LocksRun(y: Sys, es: seq<Event>)
    requires LockInv(y) && Runnable(y, es)
    ensures LocksThroughout(y, es) <==> BenignRun(y, es)
    decreases |es|
  {
    if es != [] {
      LockStepExact(y, es[0]);
      if Benign(y, es[0]) { LocksRun(Step(y, es[0]), es[1..]); }
    }
  }

  /** The exact condition for the mutexes, over every run from power on. */
  lemma LocksExact(y: Sys, es: seq<Event>)
    requires Start(y) && Runnable(y, es)
    ensures LocksThroughout(y, es) <==> BenignRun(y, es)
  {
    LocksRun(y, es);
  }

  // --------------------------------------------------------- mutual exclusion

  /** An init callback finds all stages over, or a stage whose lock is taken and nobody else's. */
  ghost predicate Harmless(y: Sys, e: Event)
    requires Enabled(y, e)
  {
    InitAnswer(y, e) && y.g.counter <= 5 ==>
      Locked(y.g, StageLock(y.g.counter))
      && forall u :: u in y.threads && u != e.t ==> !HoldsLock(y.threads[u], StageLock(y.g.counter))
  }

  lemma AnswerShape(y: Sys, e: Event) returns (y': Sys)
    requires HoldInv(y) && Enabled(y, e) && InitAnswer(y, e)
    ensures y' == Step(y, e) && Only(y, y', e.t) && y'.g.errs == 0 && Shaped(y'.threads[e.t])
    ensures forall l :: Locked(y'.g, l) == Locked(y.g, l)
    ensures forall l :: HoldsLock(y'.threads[e.t], l) <==> y.g.counter <= 5 && l == StageLock(y.g.counter)
  {
    y' := Step(y, e);
    forall k, b { CallbackLocks(y.g, b, k); }
  }

  lemma HarmlessHolds(y: Sys, y': Sys, t: nat)
    requires HoldInv(y) && Only(y, y', t) && y'.g.errs == 0 && Shaped(y'.threads[t])
    requires forall l :: Locked(y'.g, l) == Locked(y.g, l)
    requires forall l :: HoldsLock(y'.threads[t], l) ==>
               Locked(y.g, l) && forall u :: u in y.threads && u != t ==> !HoldsLock(y.threads[u], l)
    ensures HoldInv(y')
  {
  }

  lemma HoldAnswered(y: Sys, e: Event)
    requires HoldInv(y) && Enabled(y, e) && InitAnswer(y, e)
    ensures HoldInv(Step(y, e)) <==> Harmless(y, e)
  {
    var y' := AnswerShape(y, e);
    var l := StageLock(y.g.counter);
    if Harmless(y, e) {
      HarmlessHolds(y, y', e.t);
    } else if Locked(y.g, l) {
      var u :| u in y.threads && u != e.t && HoldsLock(y.threads[u], l);
      assert u in y'.threads && HoldsLock(y'.threads[u], l) && HoldsLock(y'.threads[e.t], l);
    } else {
      assert HoldsLock(y'.threads[e.t], l) && !Locked(y'.g, l);
    }
  }

  /** A step keeps mutual exclusion if and only if it is not an init callback that is about to
      release a free lock or someone else's. */
  lemma HoldStepExact(y: Sys, e: Event)
    requires HoldInv(y) && Enabled(y, e)
    ensures HoldInv(Step(y, e)) <==> Harmless(y, e)
  {
    if InitAnswer(y, e) {
      HoldAnswered(y, e);
    } else {
      OrderlyStep(y, e);
      HoldUpdate(y, Step(y, e), e.t);
    }
  }

  ghost predicate HoldThroughout(y: Sys, es: seq<Event>)
    requires Full(y) && Runnable(y, es)
    decreases |es|
  {
    HoldInv(y) && (es != [] ==> HoldThroughout(Step(y, es[0]), es[1..]))
  }

  ghost predicate HarmlessRun(y: Sys, es: seq<Event>)
    requires Full(y) && Runnable(y, es)
    decreases |es|
  {
    es != [] ==> Harmless(y, es[0]) && HarmlessRun(Step(y, es[0]), es[1..])
  }

  lemma {:induction false} HoldRun(y: Sys, es: seq<Event>)
    requires HoldInv(y) && Runnable(y, es)
    ensures HoldThroughout(y, es) <==> HarmlessRun(y, es)
    decreases |es|
  {
    if es != [] {
      HoldStepExact(y, es[0]);
      if Harmless(y, es[0]) { HoldRun(Step(y, es[0]), es[1..]); }
    }
  }

  /** The exact condition for mutual exclusion, over every run from power on. */
  lemma HoldExact(y: Sys, es: seq<Event>)
    requires Start(y) && Runnable(y, es)
    ensures HoldThroughout(y, es) <==> HarmlessRun(y, es)
  {
    HoldRun(y, es);
  }

  lemma FreshStepBenign(y: Sys, e: Event)
    requires Inv(y) && Enabled(y, e)
    ensures Benign(y, e)
  {
    if InitAnswer(y, e) { assert ThreadOk(y, e.t); }
  }

  /** The three conditions on a run, from the strongest to the weakest. */
  lemma {:induction false} FreshIsBenign(y: Sys, es: seq<Event>)
    requires Inv(y) && Runnable(y, es) && FreshRun(y, es)
    ensures BenignRun(y, es)
    decreases |es|
  {
    if es != [] {
      FreshStepBenign(y, es[0]);
      StepInv(y, es[0]);
      FreshIsBenign(Step(y, es[0]), es[1..]);
    }
  }

  lemma {:induction false} BenignIsHarmless(y: Sys, es: seq<Event>)
    requires HoldInv(y) && Runnable(y, es) && BenignRun(y, es)
    ensures HarmlessRun(y, es)
    decreases |es|
  {
    if es != [] {
      OrderlyStep(y, es[0]);
      HoldUpdate(y, Step(y, es[0]), es[0].t);
      HoldStepExact(y, es[0]);
      BenignIsHarmless(Step(y, es[0]), es[1..]);
    }
  }

  // ------------------------------------------------------------------ buffers

  /** Calls with filled, sent or answered buffers are those they were last written for. */
  ghost predicate BuffersOk(y: Sys) {
    forall t :: t in y.threads && UsesBuffers(y.threads[t].cmd) && Filled(y.threads[t].pc)
      ==> WriterOf(y.w, LockOf(y.threads[t].cmd)) == t
  }

  /** A step writes no buffers, or those behind the lock of its own call, for that call. */
  lemma WriteEffect(y: Sys, e: Event, l: Lock)
    requires Full(y) && Enabled(y, e)
    ensures var y' := Step(y, e);
            WriterOf(y'.w, l) == if e.t in y.threads && e.Go? && Writes(y.threads[e.t], l) then e.t else WriterOf(y.w, l)
  {
  }

  lemma FilledStep(y: Sys, e: Event)
    requires Full(y) && Enabled(y, e) && UsesBuffers(Step(y, e).threads[e.t].cmd) && Filled(Step(y, e).threads[e.t].pc)
    requires e.t in y.threads ==> Shaped(y.threads[e.t])
    ensures e.Go? && Step(y, e).threads[e.t].cmd == y.threads[e.t].cmd && Writes(y.threads[e.t], LockOf(y.threads[e.t].cmd))
  {
  }

  lemma BuffersStep(y: Sys, e: Event)
    requires HoldInv(y) && BuffersOk(y) && Enabled(y, e)
    ensures BuffersOk(Step(y, e))
  {
    var y' := Step(y, e);
    forall u | u in y'.threads && UsesBuffers(y'.threads[u].cmd) && Filled(y'.threads[u].pc)
      ensures WriterOf(y'.w, LockOf(y'.threads[u].cmd)) == u
    {
      var l := LockOf(y'.threads[u].cmd);
      WriteEffect(y, e, l);
      if u == e.t {
        FilledStep(y, e);
      } else if e.Go? && Writes(y.threads[e.t], l) {
        WritesAlone(y, e.t, l, u);
      }
    }
  }

  lemma {:induction false} HarmlessInv(y: Sys, es: seq<Event>)
    requires HoldInv(y) && BuffersOk(y) && Runnable(y, es) && HarmlessRun(y, es)
    ensures HoldInv(After(y, es)) && BuffersOk(After(y, es))
    decreases |es|
  {
    if es != [] {
      HoldStepExact(y, es[0]);
      BuffersStep(y, es[0]);
      HarmlessInv(Step(y, es[0]), es[1..]);
    }
  }

  /** In every harmless run from power on, stale calls or not: no unlock of an unlocked mutex, one
      holder for each held lock, and no buffer written while another command has it in use. */
  lemma EveryHarmlessRun(y: Sys, es: seq<Event>)
    requires Start(y) && Runnable(y, es) && HarmlessRun(y, es)
    ensures HoldInv(After(y, es)) && BuffersOk(After(y, es))
  {
    HarmlessInv(y, es);
  }

  /** A call has buffers behind a lock in use that others can take. */
  predicate ExposedCall(y: Sys, u: nat) {
    && u in y.threads && UsesBuffers(y.threads[u].cmd) && Filled(y.threads[u].pc)
    && !Locked(y.g, LockOf(y.threads[u].cmd))
  }

  ghost predicate Exposed(y: Sys) {
    exists u :: ExposedCall(y, u)
  }

  /** The stage an init callback finds has another lock, which a command with buffers in use holds. */
  ghost predicate Endangers(y: Sys, t: nat)
    requires t in y.threads
  {
    && y.g.counter <= 5 && StageLock(y.g.counter) != LockOf(y.threads[t].cmd)
    && exists u :: u in y.threads && UsesBuffers(y.threads[u].cmd) && Filled(y.threads[u].pc)
                   && LockOf(y.threads[u].cmd) == StageLock(y.g.counter)
  }

  /** The two steps of an init callback: its decision and its unlock. */
  function Answered(y: Sys, t: nat): Sys
    requires Full(y) && t in y.threads && y.threads[t].pc == InCallback && y.threads[t].cmd.Init?
  {
    Step(Step(y, Go(t, Accepted, true)), Go(t, Accepted, true))
  }

  lemma AnsweredEffect(y: Sys, t: nat)
    requires Full(y) && t in y.threads && y.threads[t].pc == InCallback && y.threads[t].cmd.Init?
    ensures var z := Answered(y, t);
            && Only(y, z, t) && z.threads[t].cmd == y.threads[t].cmd && z.w == y.w
            && (y.g.counter <= 5 ==> forall l :: Locked(z.g, l) == (Locked(y.g, l) && l != StageLock(y.g.counter)))
            && (y.g.counter > 5 ==> forall l :: Locked(z.g, l) == Locked(y.g, l))
            && z.clients == y.clients
  {
    forall l, b { CallbackLocks(y.g, b, l); }
  }

  /** With the locks in order before it, an init callback exposes buffers if and only if the stage it
      finds has another lock and a command with its buffers in use holds that lock. */
  lemma ExposesExactly(y: Sys, t: nat)
    requires HoldInv(y) && t in y.threads && y.threads[t].pc == InCallback && y.threads[t].cmd.Init?
    ensures Exposed(Answered(y, t)) <==> Endangers(y, t)
  {
    var z, k := Answered(y, t), y.g.counter;
    AnsweredEffect(y, t);
    assert HoldsLock(y.threads[t], LockOf(y.threads[t].cmd));
    forall u | u in y.threads && UsesBuffers(y.threads[u].cmd) && Filled(y.threads[u].pc)
      ensures Locked(y.g, LockOf(y.threads[u].cmd)) && z.threads[u] == y.threads[u]
      ensures LockOf(y.threads[u].cmd) != LockOf(y.threads[t].cmd)
    {
      assert HoldsLock(y.threads[u], LockOf(y.threads[u].cmd));
    }
    if Endangers(y, t) {
      var u :| u in y.threads && UsesBuffers(y.threads[u].cmd) && Filled(y.threads[u].pc)
               && LockOf(y.threads[u].cmd) == StageLock(k);
      assert ExposedCall(z, u);
    }
    if Exposed(z) {
      var u :| ExposedCall(z, u);
      assert u != t && u in y.threads;
    }
  }
}
