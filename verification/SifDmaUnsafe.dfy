/**
  The requests that SifSetDma should not be given: what the computed free count is worth, and
  exactly which requests break the stream or the ring.
 */
module SifDmaUnsafe {
  import opened SifDmaRing
  import opened SifDmaProofs

  /** Slots that hold neither an unfetched tag nor the data in transfer. */
  function TrueFree(s: Sys): int {
    RING - s.queued - (if s.ring.qwc > 0 then 1 else 0)
  }

  /** A full ring that cannot be told from an empty one. */
  ghost predicate LooksEmpty(r: Ring) {
    Shape(r) && NextSlot(r.index) == HwSlot(r) && r.qwc == 0 && r.running && !r.ending
  }

  lemma UnsafeFills(r: Ring, ts: seq<Transfer>)
    requires Inv(r) && ts != [] && AllSendable(ts) && Accepts(r, ts) && !Safe(r, ts)
    ensures LooksEmpty(SetDma(r, ts)) && FreeTags(SetDma(r, ts)) == 31 && SetDma(r, ts).mem == r.mem
    ensures NumTags(ts) + (if FreeTags(r) == 30 then 1 else 0) == 31
  {
    FreeTagsMeaning(r);
    var r1 := SetupTag(r, FreeTags(r));
    AppendAllIndex(r1, ts);
    SetDmaShape(r, ts);
    FreeTagsMeaning(SetDma(r, ts));
  }

  /** In order, the free count read from the registers never exceeds the true one. */
  lemma FreeCountBound(s: Sys)
    requires InOrder(s)
    ensures FreeTags(s.ring) <= TrueFree(s)
  {
    FreeTagsMeaning(s.ring);
  }

  /** After an accepted request it still does not if and only if the request was safe. */
  lemma FreeCountExact(s: Sys, ts: seq<Transfer>)
    requires InOrder(s) && ts != [] && AllSendable(ts) && Accepts(s.ring, ts)
    ensures var s1 := Step(s, Request(ts)); FreeTags(s1.ring) <= TrueFree(s1) <==> Safe(s.ring, ts)
    ensures !Safe(s.ring, ts) ==> var s1 := Step(s, Request(ts)); TrueFree(s1) == 0 && FreeTags(s1.ring) == 31
  {
    FreeTagsMeaning(s.ring);
    if Safe(s.ring, ts) {
      StepInOrder(s, Request(ts));
      FreeCountBound(Step(s, Request(ts)));
    } else {
      UnsafeFills(s.ring, ts);
    }
  }

  lemma OneTransfer(r: Ring, u: Transfer)
    requires Shape(r)
    ensures AppendAll(r, [u]) == Append(r, u, REFE)
    ensures NumTags([u]) == TagsOf(u) && Packets(r.mem, [u]) == Packet(r.mem, u)
  {
    assert [u][1..] == [];
    assert Packet(r.mem, u) + [] == Packet(r.mem, u);
    assert AppendAll(Append(r, u, REFE), []) == Append(r, u, REFE);
  }

  /** The next one-tag request is accepted, and goes into the first slot that was still to be read. */
  lemma FollowUp(r: Ring, u: Transfer)
    requires LooksEmpty(r) && Sendable(u) && TagsOf(u) == 1
    ensures Accepts(r, [u]) && Safe(r, [u])
    ensures var r' := SetDma(r, [u]);
            Inv(r') && r'.index == HwSlot(r) && Unfetched(r') == 1 && Outstanding(r') == Packet(r.mem, u)
  {
    var idle := r.(running := false);
    OneTransfer(r, u);
    OneTransfer(idle, u);
    assert Unfetched(r) == 0;
    FreeTagsMeaning(r);
    assert Inv(idle) && Outstanding(idle) == [];
    SetDmaCorrect(idle, [u]);
    assert SetDma(idle, [u]) == SetDma(r, [u]);
    assert [] + Packet(r.mem, u) == Packet(r.mem, u);
  }

  /** Controller steps look at the ring alone. */
  lemma {:induction false} ControllerOnly(s: Sys, t: Sys, n: nat)
    requires Shape(s.ring) && s.ring == t.ring && s.delivered == t.delivered
    requires Runnable(s, Controllers(n))
    ensures var es := Controllers(n);
            && Runnable(t, es) && After(t, es).accepted == t.accepted
            && After(t, es).ring == After(s, es).ring && After(t, es).delivered == After(s, es).delivered
    decreases n
  {
    if n > 0 {
      RunFirst(s, n - 1, n);
      RunFirst(t, n - 1, n);
      ControllerOnly(Step(s, Controller), Step(t, Controller), n - 1);
    }
  }

  /** The state after an accepted unsafe request and one more request of one tag. */
  function Second(s: Sys, ts: seq<Transfer>, u: Transfer): Sys
    requires InOrder(s) && ts != [] && AllSendable(ts) && Sendable(u)
  {
    Step(Step(s, Request(ts)), Request([u]))
  }

  /** That request too is accepted and counts as safe; then 32 tags are in 31 slots, the first
      one still to be read has been overwritten, and the ring claims to hold the new one only. */
  lemma SecondOverwrites(s: Sys, ts: seq<Transfer>, u: Transfer)
    requires InOrder(s) && ts != [] && AllSendable(ts) && Accepts(s.ring, ts) && !Safe(s.ring, ts)
    requires Sendable(u) && TagsOf(u) == 1
    ensures var s1 := Step(s, Request(ts)); var s2 := Second(s, ts, u);
            && s1.queued == 31 && Accepts(s1.ring, [u]) && Safe(s1.ring, [u])
            && s2.queued == 32 && s2.ring.index == HwSlot(s1.ring)
            && Inv(s2.ring) && Unfetched(s2.ring) == 1 && Outstanding(s2.ring) == Packet(s.ring.mem, u)
            && s2.delivered == s.delivered
            && s2.accepted == s.accepted + Packets(s.ring.mem, ts) + Packet(s.ring.mem, u)
  {
    FreeTagsMeaning(s.ring);
    UnsafeFills(s.ring, ts);
    FollowUp(Step(s, Request(ts)).ring, u);
    OneTransfer(s.ring, u);
  }

  /** Once the channel has stopped only that last request has been sent. */
  lemma NextRequestLoses(s: Sys, ts: seq<Transfer>, u: Transfer) returns (n: nat)
    requires InOrder(s) && ts != [] && AllSendable(ts) && Accepts(s.ring, ts) && !Safe(s.ring, ts)
    requires Sendable(u) && TagsOf(u) == 1
    ensures var s2 := Second(s, ts, u);
            && Runnable(s2, Controllers(n))
            && var z := After(s2, Controllers(n));
            && !z.ring.running && z.delivered == s.delivered + Packet(s.ring.mem, u)
            && z.accepted == s.accepted + Packets(s.ring.mem, ts) + Packet(s.ring.mem, u)
  {
    SecondOverwrites(s, ts, u);
    var s2 := Second(s, ts, u);
    var sent := Sys(s2.ring, s.delivered + Packet(s.ring.mem, u), s.delivered, 1);
    n := Drains(sent);
    ControllerOnly(sent, s2, n);
  }

  /** A transfer of one tag whose packet starts differently from a given quadword. */
  function Unlike(q: Quad): (u: Transfer)
    ensures Sendable(u) && TagsOf(u) == 1
  {
    Transfer(0, if q.w0 == 0 then 1 else 0, 0, false, false, false, false)
  }

  lemma UnlikePacket(mem: int -> Quad, q: Quad)
    ensures |Packet(mem, Unlike(q))| == 1 && Packet(mem, Unlike(q))[0] != q
  {
  }

  lemma {:induction false} PacketsNonEmpty(mem: int -> Quad, ts: seq<Transfer>)
    requires ts != []
    ensures Packets(mem, ts) != []
  {
  }

  /** So a follow-up exists after which the IOP has received something out of order. */
  lemma UnsafeBreaksOrder(s: Sys, ts: seq<Transfer>) returns (es: seq<Event>)
    requires InOrder(s) && ts != [] && AllSendable(ts) && Accepts(s.ring, ts) && !Safe(s.ring, ts)
    ensures var s1 := Step(s, Request(ts));
            Runnable(s1, es) && SafeRun(s1, es) && !(After(s1, es).delivered <= After(s1, es).accepted)
  {
    var mem := s.ring.mem;
    PacketsNonEmpty(mem, ts);
    var rest := Outstanding(s.ring) + Packets(mem, ts);
    var u := Unlike(rest[0]);
    UnlikePacket(mem, rest[0]);
    var n := NextRequestLoses(s, ts, u);
    SecondOverwrites(s, ts, u);
    var z := After(Second(s, ts, u), Controllers(n));
    assert s.accepted + Packets(mem, ts) == s.delivered + rest by { Assoc(s.delivered, Outstanding(s.ring), Packets(mem, ts)); }
    NotPrefix(s.delivered, rest, Packet(mem, u), z.delivered, z.accepted);
    es := AfterSecond(Step(s, Request(ts)), u, n);
  }

  lemma AfterSecond(s1: Sys, u: Transfer, n: nat) returns (es: seq<Event>)
    requires Shape(s1.ring) && Sendable(u) && Safe(s1.ring, [u]) && Runnable(Step(s1, Request([u])), Controllers(n))
    ensures Runnable(s1, es) && SafeRun(s1, es) && After(s1, es) == After(Step(s1, Request([u])), Controllers(n))
  {
    es := [Request([u])] + Controllers(n);
    assert es[0] == Request([u]) && es[1..] == Controllers(n);
    ControllersSafe(Step(s1, Request([u])), n);
  }

  lemma {:induction false} ControllersSafe(s: Sys, n: nat)
    requires Shape(s.ring) && Runnable(s, Controllers(n))
    ensures SafeRun(s, Controllers(n))
    decreases n
  {
    if n > 0 {
      RunFirst(s, n - 1, n);
      ControllersSafe(Step(s, Controller), n - 1);
    }
  }

  lemma NotPrefix<T>(sent: seq<T>, rest: seq<T>, p: seq<T>, got: seq<T>, all: seq<T>)
    requires rest != [] && p != [] && p[0] != rest[0]
    requires got == sent + p && all == sent + rest + p
    ensures !(got <= all)
  {
    assert got[|sent|] == p[0] && all[|sent|] == rest[0];
  }

  /** A slot that has held a tag before. */
  predicate Used(tag: Tag) {
    tag.id != NEXT && tag.qwc >= 1
  }

  /** A fetch of an old slot, and its first quadword. */
  lemma StaleFetch(s: Sys)
    requires Shape(s.ring) && s.ring.running && !s.ring.ending && s.ring.qwc == 0 && s.ring.tadr != JUMP_SLOT
    requires Used(s.ring.tags[s.ring.tadr]) && |s.delivered| == |s.accepted|
    ensures Runnable(s, Controllers(2))
    ensures After(s, Controllers(2)).accepted == s.accepted && |After(s, Controllers(2)).delivered| == |s.accepted| + 1
  {
    var s1 := Step(s, Controller);
    RunFirst(s, 1, 2);
    RunFirst(s1, 0, 1);
    assert After(Step(s1, Controller), Controllers(0)) == Step(s1, Controller);
  }

  /** About to run past the end of what was queued. */
  ghost predicate Overrunning(s: Sys) {
    && Shape(s.ring) && s.ring.running && !s.ring.ending && Used(s.ring.tags[HwSlot(s.ring)])
    && |s.delivered| + s.ring.qwc == |s.accepted|
  }

  lemma OverrunStep(s: Sys)
    requires Overrunning(s) && (s.ring.qwc > 0 || s.ring.tadr == JUMP_SLOT)
    ensures var s1 := Step(s, Controller);
            && Overrunning(s1) && s1.accepted == s.accepted
            && (s1.ring.qwc < s.ring.qwc || (s1.ring.qwc == s.ring.qwc && s1.ring.tadr < s.ring.tadr))
  {
  }

  /** A channel restarted with nothing queued fetches what an old slot still holds. */
  lemma {:induction false} Overruns(s: Sys) returns (n: nat)
    requires Overrunning(s)
    ensures Runnable(s, Controllers(n))
    ensures After(s, Controllers(n)).accepted == s.accepted && |After(s, Controllers(n)).delivered| > |s.accepted|
    decreases s.ring.qwc, s.ring.tadr
  {
    if s.ring.qwc > 0 || s.ring.tadr == JUMP_SLOT {
      OverrunStep(s);
      var m := Overruns(Step(s, Controller));
      n := m + 1;
      RunFirst(s, m, n);
    } else {
      n := 2;
      StaleFetch(s);
    }
  }

  /** A refused request restarts the channel too; with nothing queued it overruns. */
  lemma RefusedOverruns(s: Sys, ts: seq<Transfer>) returns (es: seq<Event>)
    requires InOrder(s) && ts != [] && AllSendable(ts) && !Accepts(s.ring, ts) && !Safe(s.ring, ts)
    requires Used(s.ring.tags[HwSlot(s.ring)])
    ensures var s1 := Step(s, Request(ts));
            Runnable(s1, es) && SafeRun(s1, es) && !(After(s1, es).delivered <= After(s1, es).accepted)
  {
    var s1 := Step(s, Request(ts));
    assert |Outstanding(s.ring)| == s.ring.qwc;
    var n := Overruns(s1);
    ControllersSafe(s1, n);
    es := Controllers(n);
  }

  // ------------------------------------------------------- slots never used

  /** What a slot holds before its first tag, as static data is zero. */
  predicate Blank(tag: Tag) {
    tag.id == REFE && tag.qwc == 0
  }

  ghost predicate Known(r: Ring)
    requires Shape(r)
  {
    forall k :: 0 <= k < RING ==> Used(r.tags[k]) || Blank(r.tags[k])
  }

  lemma AppendKnown(r: Ring, t: Transfer, id: TagId)
    requires Shape(r) && Sendable(t) && Known(r) && id != NEXT
    ensures Known(Append(r, t, id))
  {
  }

  lemma {:induction false} AppendAllKnown(r: Ring, ts: seq<Transfer>)
    requires Shape(r) && AllSendable(ts) && Known(r)
    ensures Shape(AppendAll(r, ts)) && Known(AppendAll(r, ts))
    decreases |ts|
  {
    if ts != [] {
      var id := if |ts| == 1 then REFE else REF;
      AppendKnown(r, ts[0], id);
      AppendAllKnown(Append(r, ts[0], id), ts[1..]);
    }
  }

  lemma SetupKnown(r: Ring)
    requires Inv(r) && Known(r)
    ensures Shape(SetupTag(r, FreeTags(r))) && Known(SetupTag(r, FreeTags(r)))
  {
    FreeTagsMeaning(r);
    if Unfetched(r) > 0 { assert Offset(HwSlot(r), r.index) < Unfetched(r); }
  }

  lemma KnownStep(s: Sys, e: Event)
    requires InOrder(s) && Known(s.ring) && Enabled(s, e)
    ensures Known(Step(s, e).ring)
  {
    if e.Request? && Accepts(s.ring, e.ts) {
      SetupKnown(s.ring);
      AppendAllKnown(SetupTag(s.ring, FreeTags(s.ring)), e.ts);
    }
  }

  /** In every run of safe requests from a ring with zeroed slots, slots are zero or have held a tag. */
  lemma {:induction false} KnownRun(s: Sys, es: seq<Event>)
    requires InOrder(s) && Known(s.ring) && Runnable(s, es) && SafeRun(s, es)
    ensures InOrder(After(s, es)) && Known(After(s, es).ring)
    decreases |es|
  {
    if es != [] {
      KnownStep(s, es[0]);
      StepInOrder(s, es[0]);
      KnownRun(Step(s, es[0]), es[1..]);
    }
  }

  /** About to fetch a zero slot with nothing queued, after the data in transfer. */
  ghost predicate Passing(s: Sys) {
    && Shape(s.ring) && s.ring.running && !s.ring.ending && Unfetched(s.ring) == 0 && Blank(s.ring.tags[HwSlot(s.ring)])
    && s.delivered + ReadRun(s.ring, s.ring.madr, s.ring.qwc) == s.accepted
  }

  lemma PassStep(s: Sys)
    requires Passing(s) && (s.ring.qwc > 0 || s.ring.tadr == JUMP_SLOT)
    ensures var s1 := Step(s, Controller);
            && Passing(s1) && s1.accepted == s.accepted && s1.ring.index == s.ring.index
            && (s1.ring.qwc < s.ring.qwc || (s1.ring.qwc == s.ring.qwc && s1.ring.tadr < s.ring.tadr))
  {
    var s1 := Step(s, Controller);
    if s.ring.qwc > 0 {
      MoveRun(s.ring, s1.ring);
      Assoc(s.delivered, [Read(s.ring, s.ring.madr)], ReadRun(s1.ring, s1.ring.madr, s1.ring.qwc));
    }
  }

  lemma PassFetch(s: Sys)
    requires Passing(s) && s.ring.qwc == 0 && s.ring.tadr != JUMP_SLOT
    ensures Runnable(s, Controllers(2))
    ensures var z := After(s, Controllers(2));
            && !z.ring.running && z.accepted == s.accepted && z.delivered == s.accepted
            && z.ring.index == s.ring.index && z.ring.tadr == s.ring.tadr + 1 && FreeTags(z.ring) == 0
  {
    var s1 := Step(s, Controller);
    RunFirst(s, 1, 2);
    RunFirst(s1, 0, 1);
    assert After(Step(s1, Controller), Controllers(0)) == Step(s1, Controller);
    assert s.delivered + [] == s.delivered;
  }

  lemma {:induction false} Passes(s: Sys) returns (n: nat)
    requires Passing(s)
    ensures Runnable(s, Controllers(n))
    ensures var z := After(s, Controllers(n));
            && !z.ring.running && z.accepted == s.accepted && z.delivered == s.accepted
            && z.ring.index == s.ring.index && FreeTags(z.ring) == 0
    decreases s.ring.qwc, s.ring.tadr
  {
    if s.ring.qwc > 0 || s.ring.tadr == JUMP_SLOT {
      PassStep(s);
      var m := Passes(Step(s, Controller));
      n := m + 1;
      RunFirst(s, m, n);
    } else {
      n := 2;
      PassFetch(s);
    }
  }

  lemma NothingAccepted(r: Ring, ts: seq<Transfer>)
    requires FreeTags(r) == 0 && ts != []
    ensures !Accepts(r, ts)
  {
    SomeTags(ts);
  }

  /** The channel has stopped with everything sent, and no slot counts as free. */
  predicate StoppedFull(z: Sys, accepted: seq<Quad>) {
    !z.ring.running && z.accepted == accepted && z.delivered == accepted && FreeTags(z.ring) == 0
  }

  /** A refused request that meets a zero slot sends nothing wrong, but the channel goes past that
      slot before it stops, and the empty ring then counts no slot free. */
  lemma RefusedPassesBlank(s: Sys, ts: seq<Transfer>) returns (es: seq<Event>)
    requires InOrder(s) && ts != [] && AllSendable(ts) && !Accepts(s.ring, ts) && !Safe(s.ring, ts)
    requires Blank(s.ring.tags[HwSlot(s.ring)])
    ensures var s1 := Step(s, Request(ts));
            Runnable(s1, es) && SafeRun(s1, es) && StoppedFull(After(s1, es), s.accepted)
  {
    var s1 := Step(s, Request(ts));
    assert Outstanding(s.ring) == ReadRun(s.ring, s.ring.madr, s.ring.qwc);
    assert ReadRun(s1.ring, s1.ring.madr, s1.ring.qwc) == ReadRun(s.ring, s.ring.madr, s.ring.qwc);
    var n := Passes(s1);
    ControllersSafe(s1, n);
    es := Controllers(n);
  }

  // ------------------------------------------------------- the exact condition

  /** Whatever happens next, as long as later requests are safe, the IOP receives the accepted data in order. */
  ghost predicate StaysInOrder(s: Sys)
    requires Shape(s.ring)
  {
    forall es :: Runnable(s, es) && SafeRun(s, es) ==> After(s, es).delivered <= After(s, es).accepted
  }

  /** And whenever the channel has stopped, all 31 slots count as free. */
  ghost predicate StaysUsable(s: Sys)
    requires Shape(s.ring)
  {
    forall es :: Runnable(s, es) && SafeRun(s, es) ==>
      var z := After(s, es); z.delivered <= z.accepted && (!z.ring.running ==> FreeTags(z.ring) == 31)
  }

  lemma SafeStays(s: Sys, ts: seq<Transfer>)
    requires InOrder(s) && ts != [] && AllSendable(ts) && Safe(s.ring, ts)
    ensures StaysUsable(Step(s, Request(ts))) && StaysInOrder(Step(s, Request(ts)))
  {
    var s1 := Step(s, Request(ts));
    StepInOrder(s, Request(ts));
    forall es | Runnable(s1, es) && SafeRun(s1, es)
      ensures var z := After(s1, es); z.delivered <= z.accepted && (!z.ring.running ==> FreeTags(z.ring) == 31)
    {
      RunInOrder(s1, es);
      FreeTagsMeaning(After(s1, es).ring);
    }
  }

  /** `Safe` is the exact condition, on the stream itself. */
  lemma SafeIsExact(s: Sys, ts: seq<Transfer>)
    requires InOrder(s) && ts != [] && AllSendable(ts)
    requires Accepts(s.ring, ts) || Used(s.ring.tags[HwSlot(s.ring)])
    ensures StaysInOrder(Step(s, Request(ts))) <==> Safe(s.ring, ts)
  {
    var s1 := Step(s, Request(ts));
    if Safe(s.ring, ts) {
      SafeStays(s, ts);
    } else {
      var es;
      if Accepts(s.ring, ts) {
        es := UnsafeBreaksOrder(s, ts);
      } else {
        es := RefusedOverruns(s, ts);
      }
      assert Runnable(s1, es) && SafeRun(s1, es);
    }
  }

  /** With the free count at rest it is exact for every request, refused ones and zero slots included. */
  lemma UsableIsExact(s: Sys, ts: seq<Transfer>)
    requires InOrder(s) && Known(s.ring) && ts != [] && AllSendable(ts)
    ensures StaysUsable(Step(s, Request(ts))) <==> Safe(s.ring, ts)
  {
    var s1 := Step(s, Request(ts));
    if Safe(s.ring, ts) {
      SafeStays(s, ts);
    } else if !Accepts(s.ring, ts) && Blank(s.ring.tags[HwSlot(s.ring)]) {
      var es := RefusedPassesBlank(s, ts);
      assert Runnable(s1, es) && SafeRun(s1, es);
    } else {
      SafeIsExact(s, ts);
      var es :| Runnable(s1, es) && SafeRun(s1, es) && !(After(s1, es).delivered <= After(s1, es).accepted);
      assert !StaysUsable(s1);
    }
  }

  /** The failure from power-up: a first request of 31 tags, then one of one tag.  Both are accepted,
      and when the channel has stopped the IOP has the second one only. */
  lemma TwoRequestsFromPowerUp(r: Ring, ts: seq<Transfer>, u: Transfer) returns (es: seq<Event>)
    requires Initial(r) && Shape(r) && AllSendable(ts) && NumTags(ts) == 31 && Sendable(u) && TagsOf(u) == 1
    ensures Runnable(PowerUp(r), es)
    ensures var z := After(PowerUp(r), es);
            && !z.ring.running && z.delivered == Packet(r.mem, u)
            && z.accepted == Packets(r.mem, ts) + Packet(r.mem, u) && |z.accepted| > |z.delivered|
  {
    PowerUpInOrder(r);
    var s := PowerUp(r);
    FreeTagsMeaning(r);
    assert ts != [] && Accepts(r, ts) && !Safe(r, ts);
    PacketsNonEmpty(r.mem, ts);
    var n := NextRequestLoses(s, ts, u);
    SecondOverwrites(s, ts, u);
    var s1 := Step(s, Request(ts));
    var tail := AfterSecond(s1, u, n);
    es := [Request(ts)] + tail;
    assert es[0] == Request(ts) && es[1..] == tail;
    assert [] + Packet(r.mem, u) == Packet(r.mem, u) && [] + Packets(r.mem, ts) == Packets(r.mem, ts);
  }
}
