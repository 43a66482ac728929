/**
  The one-byte mailbox through which the EE prints on the IOP console: shared[0] is the flag,
  shared[1] the character.  Each event is one access of one processor to one byte.
 */
module Mailbox {

  datatype EePhase = Spinning | SawEmpty | WroteChar
  datatype IopPhase = Polling | SawFull | Printed

  /** `calls` are the iop_putc calls in progress, innermost last: interrupts are enabled only
      between two reads of the spin loop, so only there another call can get in. */
  datatype State = State(flag: nat, data: nat, calls: seq<nat>, ee: EePhase, iop: IopPhase,
                         put: seq<nat>, printed: seq<nat>)

  datatype Event = Call(c: nat) | Ee | Iop

  predicate Enabled(s: State, e: Event) {
    match e
    case Call(c) => s.ee == Spinning
    case Ee => s.calls != []
    case Iop => true
  }

  function Step(s: State, e: Event): State
    requires Enabled(s, e)
  {
    match e
    case Call(c) => s.(calls := s.calls + [c])
    case Ee =>
      var c := s.calls[|s.calls| - 1];
      (match s.ee
       case Spinning => if s.flag != 0 then s else s.(ee := SawEmpty)
       case SawEmpty => s.(data := c, ee := WroteChar)
       case WroteChar => s.(flag := 0xFF, calls := s.calls[..|s.calls| - 1], ee := Spinning, put := s.put + [c]))
    case Iop =>
      (match s.iop
       case Polling => if s.flag == 0 then s else s.(iop := SawFull)
       case SawFull => s.(printed := s.printed + [s.data], iop := Printed)
       case Printed => s.(flag := 0, iop := Polling))
  }

  predicate Start(s: State) {
    s.flag == 0 && s.calls == [] && s.ee == Spinning && s.iop == Polling && s.put == [] && s.printed == []
  }

  predicate Inv(s: State) {
    && s.flag < 0x100
    && (s.ee != Spinning ==> s.calls != [] && s.flag == 0)
    && (s.ee == WroteChar ==> s.data == s.calls[|s.calls| - 1])
    && (s.iop != Polling ==> s.flag != 0)
    && if s.flag != 0 && s.iop != Printed then s.put == s.printed + [s.data] else s.put == s.printed
  }

  lemma StepInv(s: State, e: Event)
    requires Inv(s) && Enabled(s, e)
    ensures Inv(Step(s, e))
  {
  }

  ghost predicate Runnable(s: State, es: seq<Event>)
    decreases |es|
  {
    es == [] || (Enabled(s, es[0]) && Runnable(Step(s, es[0]), es[1..]))
  }

  ghost function After(s: State, es: seq<Event>): State
    requires Runnable(s, es)
    decreases |es|
  {
    if es == [] then s else After(Step(s, es[0]), es[1..])
  }

  lemma {:induction false} RunInv(s: State, es: seq<Event>)
    requires Inv(s) && Runnable(s, es)
    ensures Inv(After(s, es))
    decreases |es|
  {
    if es != [] {
      StepInv(s, es[0]);
      RunInv(Step(s, es[0]), es[1..]);
    }
  }

  /** For every interleaving of byte accesses the printed characters are a prefix of those put,
      never more than one behind. */
  lemma EveryRun(s: State, es: seq<Event>)
    requires Start(s) && Runnable(s, es)
    ensures var z := After(s, es); z.printed <= z.put && |z.put| <= |z.printed| + 1
  {
    RunInv(s, es);
  }

  // ------------------------------------------------------------------ progress

  function IopSteps(es: seq<Event>): nat
    decreases |es|
  {
    if es == [] then 0 else (if es[0].Iop? then 1 else 0) + IopSteps(es[1..])
  }

  /** Steps of the IOP until the character in the mailbox is printed. */
  function Wait(s: State): nat {
    if s.flag == 0 || s.iop == Printed then 0 else if s.iop == SawFull then 1 else 2
  }

  lemma WaitStep(s: State, e: Event)
    requires Inv(s) && Enabled(s, e) && Wait(s) > 0
    ensures Step(s, e).put == s.put && Wait(Step(s, e)) == Wait(s) - if e.Iop? then 1 else 0
  {
  }

  lemma {:induction false} StaysPrinted(s: State, es: seq<Event>)
    requires Runnable(s, es)
    ensures s.printed <= After(s, es).printed
    decreases |es|
  {
    if es != [] { StaysPrinted(Step(s, es[0]), es[1..]); }
  }

  lemma {:induction false} PrintedBy(s: State, es: seq<Event>)
    requires Inv(s) && Runnable(s, es) && IopSteps(es) >= Wait(s)
    ensures s.put <= After(s, es).printed
    decreases |es|
  {
    if Wait(s) == 0 {
      StaysPrinted(s, es);
    } else {
      WaitStep(s, es[0]);
      StepInv(s, es[0]);
      PrintedBy(Step(s, es[0]), es[1..]);
    }
  }

  /** Whatever the EE does meanwhile, all characters put so far are printed within two steps of the IOP. */
  lemma PrintedSoon(s: State, es: seq<Event>)
    requires Inv(s) && Runnable(s, es) && IopSteps(es) >= 2
    ensures s.put <= After(s, es).printed
  {
    PrintedBy(s, es);
  }

  /** A run from `s` that has arrived at `z`. */
  ghost predicate Arrived(s: State, es: seq<Event>, z: State) {
    Runnable(s, es) && After(s, es) == z
  }

  lemma {:induction false} RunOn(s: State, es: seq<Event>, x: State, e: Event) returns (es': seq<Event>, z: State)
    requires Arrived(s, es, x) && Enabled(x, e)
    ensures es' == es + [e] && z == Step(x, e) && Arrived(s, es', z)
    decreases |es|
  {
    es', z := es + [e], Step(x, e);
    if es == [] {
      assert [e][1..] == [] && es' == [e];
    } else {
      var t, y := RunOn(Step(s, es[0]), es[1..], x, e);
      assert es'[1..] == es[1..] + [e];
    }
  }

  predicate Idle(s: State) {
    s.flag == 0 && s.iop == Polling
  }

  /** At most three steps of the IOP empty the mailbox. */
  lemma Flush(s: State, es: seq<Event>, x: State) returns (es': seq<Event>, z: State)
    requires Arrived(s, es, x) && Inv(x)
    ensures Arrived(s, es', z) && Inv(z) && Idle(z) && z.put == x.put == z.printed && z.calls == x.calls && z.ee == x.ee
    ensures |es'| <= |es| + 3
    decreases if x.flag == 0 then 0 else if x.iop == Printed then 1 else if x.iop == SawFull then 2 else 3
  {
    es', z := es, x;
    if x.flag != 0 {
      StepInv(x, Iop);
      es', z := RunOn(s, es, x, Iop);
      if z.flag != 0 {
        StepInv(z, Iop);
        es', z := RunOn(s, es', z, Iop);
        if z.flag != 0 {
          StepInv(z, Iop);
          es', z := RunOn(s, es', z, Iop);
        }
      }
    }
  }

  /** With the mailbox empty at most three steps of the EE put the character of the innermost call. */
  lemma PutOne(s: State, es: seq<Event>, x: State) returns (es': seq<Event>, z: State)
    requires Arrived(s, es, x) && Inv(x) && Idle(x) && x.calls != []
    ensures Arrived(s, es', z) && Inv(z) && z.ee == Spinning && |es'| <= |es| + 3
    ensures z.put == x.put + [x.calls[|x.calls| - 1]] && z.calls == x.calls[..|x.calls| - 1]
  {
    es', z := es, x;
    if z.ee == Spinning {
      StepInv(z, Ee);
      es', z := RunOn(s, es', z, Ee);
    }
    if z.ee == SawEmpty {
      StepInv(z, Ee);
      es', z := RunOn(s, es', z, Ee);
    }
    StepInv(z, Ee);
    es', z := RunOn(s, es', z, Ee);
  }

  /** The characters of calls in progress in the order they get through: innermost first. */
  function Pending(calls: seq<nat>): (p: seq<nat>)
    ensures |p| == |calls| && forall i :: 0 <= i < |p| ==> p[i] == calls[|calls| - 1 - i]
  {
    seq(|calls|, i requires 0 <= i < |calls| => calls[|calls| - 1 - i])
  }

  lemma PendingFirst(calls: seq<nat>)
    requires calls != []
    ensures Pending(calls) == [calls[|calls| - 1]] + Pending(calls[..|calls| - 1])
  {
  }

  lemma {:induction false} Drain(s: State, es: seq<Event>, x: State) returns (es': seq<Event>, z: State)
    requires Arrived(s, es, x) && Inv(x)
    ensures Arrived(s, es', z) && z.calls == [] && z.printed == x.put + Pending(x.calls)
    ensures |es'| <= |es| + 6 * |x.calls| + 3
    decreases |x.calls|
  {
    es', z := Flush(s, es, x);
    if z.calls == [] {
      assert x.put + Pending(x.calls) == x.put;
    } else {
      es', z := PutOne(s, es', z);
      PendingFirst(x.calls);
      es', z := Drain(s, es', z);
    }
  }

  /** No call is stuck: from every state of every run the two processors can get all characters
      printed, those of the calls in progress innermost first, in six steps for each and three more. */
  lemma Drains(s: State) returns (es: seq<Event>)
    requires Inv(s)
    ensures Runnable(s, es) && |es| <= 6 * |s.calls| + 3
    ensures After(s, es).calls == [] && After(s, es).printed == s.put + Pending(s.calls)
  {
    var z;
    es, z := Drain(s, [], s);
  }
}
