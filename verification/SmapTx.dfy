/**
  The transmit side of the slim network driver: a queue filled by the network stack and a
  kernel thread that empties it, one RPC call at a time.  `Event`s are the atomic sections of
  either side, in any order.
 */
module SmapTx {

  type Frame = seq<nat>

  /** Task state of the transmit thread. */
  datatype Task = Running | Interruptible

  datatype Pc =
    | AddWait                     // add_wait_queue
    | SetState                    // set_current_state(TASK_INTERRUPTIBLE)
    | Test                        // smaprpc_run: look at the queue length
    | Dequeue                     // smaprpc_start_xmit2: take a frame
    | Calling                     // down, memcpy, ps2sif_callrpc
    | Requeue                     // the call failed: put the frame back
    | Completing                  // wait_for_completion
    | Schedule                    // about to call schedule()
    | Asleep                      // inside schedule()
    | RemoveWait                  // remove_wait_queue, signal test
    | Exited

  datatype State = State(
    queue: seq<Frame>, flight: seq<Frame>, task: Task, waiting: bool, pc: Pc,
    submitted: seq<Frame>, sent: seq<Frame>)

  /** The answer of ps2sif_callrpc. */
  datatype Answer = Ok | NoPacket | Error

  datatype Event =
    | Submit(f: Frame)                                  // smaprpc_start_xmit: enqueue and wake
    | Go(answer: Answer, slept: bool, signal: bool)     // the thread's next section
    | Signal                                            // a signal wakes an interruptible sleep

  /** wake_up on wait_smaprun: only a thread on the wait queue is made runnable. */
  function Wake(s: State): State {
    if s.waiting then s.(task := Running) else s
  }

  predicate Enabled(s: State, e: Event) {
    match e
    case Submit(_) => true
    case Signal => s.pc == Asleep
    case Go(_, _, _) => s.pc != Exited && (s.pc == Asleep ==> s.task == Running)
  }

  /** Blocking inside a section leaves the task runnable; not having to block leaves its state alone. */
  function AfterBlocking(s: State, slept: bool): Task {
    if slept then Running else s.task
  }

  function Thread(s: State, answer: Answer, slept: bool, signal: bool): State {
    match s.pc
    case AddWait => s.(waiting := true, pc := SetState)
    case SetState => s.(task := Interruptible, pc := Test)
    case Test => s.(pc := if |s.queue| > 0 then Dequeue else Schedule)
    case Dequeue =>
      if s.queue == [] then s.(pc := Test)
      else s.(queue := s.queue[1..], flight := [s.queue[0]], pc := Calling)
    case Calling =>
      var t := AfterBlocking(s, slept);
      (match answer
       case NoPacket => s.(task := t)
       case Error => s.(task := t, pc := Requeue)
       case Ok => s.(task := t, sent := s.sent + s.flight, flight := [], pc := Completing))
    case Requeue => s.(queue := s.flight + s.queue, flight := [], pc := Test)
    case Completing => s.(task := AfterBlocking(s, slept), pc := Test)
    case Schedule => s.(pc := if s.task == Interruptible then Asleep else RemoveWait)
    case Asleep => s.(pc := RemoveWait)
    case RemoveWait => s.(waiting := false, pc := if signal then Exited else AddWait)
    case Exited => s
  }

  function Step(s: State, e: Event): State
    requires Enabled(s, e)
  {
    match e
    case Submit(f) => Wake(s.(queue := s.queue + [f], submitted := s.submitted + [f]))
    case Signal => s.(task := Running)
    case Go(answer, slept, signal) => Thread(s, answer, slept, signal)
  }

  /** smaprpc_open has just emptied the queue and the thread is at the top of its loop. */
  predicate Start(s: State) {
    s.queue == [] && s.flight == [] && s.task == Running && !s.waiting && s.pc == AddWait
      && s.submitted == [] && s.sent == []
  }

  predicate OnQueue(pc: Pc) {
    pc != AddWait && pc != Exited
  }

  predicate Inv(s: State) {
    && |s.flight| <= 1 && (s.flight != [] ==> s.pc == Calling || s.pc == Requeue)
    && (OnQueue(s.pc) ==> s.waiting)
    && ((s.pc == Schedule || s.pc == Asleep) && s.task == Interruptible ==> s.queue == [])
    && s.sent + s.flight + s.queue == s.submitted
  }

  lemma StepInv(s: State, e: Event)
    requires Inv(s) && Enabled(s, e)
    ensures Inv(Step(s, e))
  {
    var t := Step(s, e);
    match e
    case Submit(f) =>
      assert s.sent + s.flight + (s.queue + [f]) == (s.sent + s.flight + s.queue) + [f];
    case Signal =>
    case Go(answer, _, _) =>
      if s.pc == Dequeue && s.queue != [] {
        assert s.sent + s.flight + s.queue == s.sent + [s.queue[0]] + s.queue[1..];
      } else if s.pc == Requeue {
        assert s.sent + s.flight + s.queue == s.sent + [] + (s.flight + s.queue);
      } else if s.pc == Calling && answer == Ok {
        assert s.sent + s.flight + s.queue == (s.sent + s.flight) + [] + s.queue;
      }
  }

  ghost predicate Runnable(s: State, es: seq<Event>)
    decreases |es|
  {
    es == [] || (Enabled(s, es[0]) && Runnable(Step(s, es[0]), es[1..]))
  }

  ghost function After(s: State, es: seq<Event>): State
    requires Runnable(s, es)
    decreases |es|
  {
    if es == [] then s else After(Step(s, es[0]), es[1..])
  }

  lemma {:induction false} RunInv(s: State, es: seq<Event>)
    requires Inv(s) && Runnable(s, es)
    ensures Inv(After(s, es))
    decreases |es|
  {
    if es != [] {
      StepInv(s, es[0]);
      RunInv(Step(s, es[0]), es[1..]);
    }
  }

  /** For every interleaving since open: no frame is lost, duplicated or reordered, and the thread
      does not sleep in schedule() while frames wait, so unless it has exited it can always move on. */
  lemma EveryRun(s: State, es: seq<Event>)
    requires Start(s) && Runnable(s, es)
    ensures var z := After(s, es);
            && z.sent + z.flight + z.queue == z.submitted
            && !(z.pc == Asleep && z.task == Interruptible && z.queue != [])
            && (z.queue != [] && z.pc != Exited ==> Enabled(z, Go(Ok, false, false)))
  {
    RunInv(s, es);
  }

  /** Steps of the thread until the queue is empty and every frame has been accepted. */
  function Rank(s: State): nat {
    5 * |s.queue| + match s.pc
      case RemoveWait => 10
      case AddWait => 9
      case SetState => 8
      case Asleep => 11
      case Schedule => 12
      case Completing => 5
      case Test => 4
      case Dequeue => 3
      case Calling => 6
      case Requeue => 14
      case Exited => 0
  }

  /** If calls are accepted and no signal ends the thread, it sends everything that was submitted. */
  lemma {:induction false} Drains(s: State) returns (n: nat)
    requires Inv(s) && s.pc != Exited && (s.queue != [] || s.flight != [])
    ensures var es := seq(n, i => Go(Ok, true, false));
            Runnable(s, es) && After(s, es).sent == s.submitted && After(s, es).submitted == s.submitted
    decreases Rank(s)
  {
    var e := Go(Ok, true, false);
    var t := Step(s, e);
    StepInv(s, e);
    if t.queue == [] && t.flight == [] {
      n := 1;
      assert seq(1, i => e) == [e] && [e][1..] == [];
      assert Runnable(t, []) && After(t, []) == t;
    } else {
      var m := Drains(t);
      n := m + 1;
      assert seq(n, i => e)[1..] == seq(m, i => e);
    }
  }

  /** Steps of the thread until it sleeps, with nothing to send. */
  function ToSleep(s: State): nat {
    match s.pc
    case Asleep => if s.task == Interruptible then 0 else 7
    case Schedule => if s.task == Interruptible then 1 else 7
    case Test => if s.task == Interruptible then 2 else 8
    case SetState => 3
    case AddWait => 4
    case RemoveWait => 5
    case Dequeue => 9
    case Completing => 9
    case _ => 10
  }

  lemma SleepStep(s: State, slept: bool)
    requires Inv(s) && s.pc != Exited && s.queue == [] && s.flight == [] && s.pc != Calling && s.pc != Requeue && ToSleep(s) > 0
    ensures var t := Step(s, Go(Ok, slept, false));
            && t.queue == [] && t.flight == [] && t.pc != Exited && t.pc != Calling && t.pc != Requeue
            && t.sent == s.sent && t.submitted == s.submitted && ToSleep(t) < ToSleep(s)
  {
  }

  /** With nothing to send and no signal the thread goes to sleep, from wherever it is, within nine steps. */
  lemma {:induction false} Sleeps(s: State, slept: bool) returns (n: nat)
    requires Inv(s) && s.pc != Exited && s.queue == [] && s.flight == [] && s.pc != Calling && s.pc != Requeue
    ensures var es := seq(n, i => Go(Ok, slept, false));
            && n <= 9 && n <= ToSleep(s) && Runnable(s, es)
            && After(s, es).pc == Asleep && After(s, es).task == Interruptible && After(s, es).sent == s.sent
    decreases ToSleep(s)
  {
    var e := Go(Ok, slept, false);
    if ToSleep(s) == 0 {
      n := 0;
      assert seq(0, i => e) == [];
    } else {
      SleepStep(s, slept);
      StepInv(s, e);
      var m := Sleeps(Step(s, e), slept);
      n := m + 1;
      assert seq(n, i => e)[1..] == seq(m, i => e);
    }
  }
}
