/**
  What comes of the transfers: what the IOP makes of the quadwords it receives, which tags raise
  an interrupt, and what a request id says.  All of it over every run of safe requests.
 */
module SifDmaStream {
  import opened SifDmaRing
  import opened SifDmaProofs

  // ------------------------------------------------------------ the receiver

  /** One transfer as the IOP sees it: bits 0 to 23 of the first word are the address, bits 30 and
      31 the flags, and `other` is what lies between. */
  datatype Delivery = Delivery(addr: nat, other: nat, intO: bool, ert: bool, data: seq<Quad>)

  function Tagged(q: Quad, data: seq<Quad>): Delivery {
    Delivery(q.w0 % 0x1000000, q.w0 / 0x1000000 % 0x40, q.w0 / 0x40000000 % 2 == 1, q.w0 / 0x80000000 % 2 == 1, data)
  }

  /** The IOP reads a tag, whose second word counts 32-bit words, takes that many as payload, and
      goes on with the next tag. */
  function Received(stream: seq<Quad>): (ds: seq<Delivery>)
    decreases |stream|
  {
    if stream == [] || 1 + stream[0].w1 / 4 > |stream| then []
    else
      var n := 1 + stream[0].w1 / 4;
      [Tagged(stream[0], stream[1..n])] + Received(stream[n..])
  }

  /** The fewest quadwords that hold `size` bytes. */
  predicate Covers(n: nat, size: nat) {
    size <= 16 * n < size + 16
  }

  /** The transfer has arrived: its data as memory was when it was accepted, at its address in the
      16 megabytes the IOP can address, with its flags and nothing else. */
  ghost predicate Delivers(d: Delivery, mem: int -> Quad, t: Transfer) {
    && d.addr == t.dest % 0x1000000 && d.other == 0 && d.intO == t.intO && d.ert == t.ert
    && Covers(|d.data|, t.size) && forall i :: 0 <= i < |d.data| ==> d.data[i] == mem(t.src + i)
  }

  /** A transfer and the memory it was accepted with. */
  datatype Job = Job(mem: int -> Quad, t: Transfer)

  ghost predicate AllDelivered(ds: seq<Delivery>, js: seq<Job>) {
    |ds| == |js| && forall i :: 0 <= i < |js| ==> Delivers(ds[i], js[i].mem, js[i].t)
  }

  lemma FlagWord(a: nat, o: nat, e: nat, w: nat)
    requires a < 0x1000000 && o <= 1 && e <= 1 && w == a + 0x40000000 * o + 0x80000000 * e
    ensures w % 0x1000000 == a && w / 0x1000000 % 0x40 == 0 && w / 0x40000000 % 2 == o && w / 0x80000000 % 2 == e
  {
  }

  lemma HeaderWord(t: Transfer, q: Quad, data: seq<Quad>)
    requires q.w0 == HeaderAddr(t)
    ensures Tagged(q, data) == Delivery(t.dest % 0x1000000, 0, t.intO, t.ert, data)
  {
    FlagWord(t.dest % 0x1000000, if t.intO then 1 else 0, if t.ert then 1 else 0, q.w0);
  }

  lemma CeilCovers(size: nat)
    ensures Covers(QwcOf(size), size)
  {
  }

  /** The IOP takes one packet off the stream. */
  lemma PacketReceived(mem: int -> Quad, t: Transfer, rest: seq<Quad>) returns (d: Delivery)
    ensures Received(Packet(mem, t) + rest) == [d] + Received(rest) && Delivers(d, mem, t)
  {
    var p, n := Packet(mem, t), QwcOf(t.size);
    var s := p + rest;
    assert s[0] == p[0] && s[0].w1 / 4 == n && |p| == 1 + n;
    d := Tagged(s[0], s[1..1 + n]);
    HeaderWord(t, s[0], s[1..1 + n]);
    CeilCovers(t.size);
    assert s[1 + n..] == rest;
    forall i | 0 <= i < n ensures d.data[i] == mem(t.src + i) { assert s[1..1 + n][i] == p[1 + i]; }
  }

  function JobsOf(mem: int -> Quad, ts: seq<Transfer>): (js: seq<Job>)
    ensures |js| == |ts| && forall i :: 0 <= i < |ts| ==> js[i] == Job(mem, ts[i])
  {
    seq(|ts|, i requires 0 <= i < |ts| => Job(mem, ts[i]))
  }

  lemma JobsFirst(mem: int -> Quad, ts: seq<Transfer>)
    requires ts != []
    ensures JobsOf(mem, ts) == [Job(mem, ts[0])] + JobsOf(mem, ts[1..])
  {
  }

  lemma DeliveredTogether(a: seq<Delivery>, b: seq<Delivery>, js: seq<Job>, ks: seq<Job>)
    requires AllDelivered(a, js) && AllDelivered(b, ks)
    ensures AllDelivered(a + b, js + ks)
  {
  }

  lemma {:induction false} PacketsReceived(mem: int -> Quad, ts: seq<Transfer>, rest: seq<Quad>) returns (ds: seq<Delivery>)
    ensures Received(Packets(mem, ts) + rest) == ds + Received(rest) && AllDelivered(ds, JobsOf(mem, ts))
    decreases |ts|
  {
    if ts == [] {
      ds := [];
      assert Packets(mem, ts) + rest == rest;
    } else {
      var tail := PacketsReceived(mem, ts[1..], rest);
      var d := PacketReceived(mem, ts[0], Packets(mem, ts[1..]) + rest);
      ds := OneMore(mem, ts, rest, d, tail);
    }
  }

  lemma OneMore(mem: int -> Quad, ts: seq<Transfer>, rest: seq<Quad>, d: Delivery, tail: seq<Delivery>) returns (ds: seq<Delivery>)
    requires ts != [] && Delivers(d, mem, ts[0]) && AllDelivered(tail, JobsOf(mem, ts[1..]))
    requires Received(Packets(mem, ts[1..]) + rest) == tail + Received(rest)
    requires Received(Packet(mem, ts[0]) + (Packets(mem, ts[1..]) + rest)) == [d] + (tail + Received(rest))
    ensures Received(Packets(mem, ts) + rest) == ds + Received(rest) && AllDelivered(ds, JobsOf(mem, ts))
  {
    Assoc(Packet(mem, ts[0]), Packets(mem, ts[1..]), rest);
    ds := [d] + tail;
    Assoc([d], tail, Received(rest));
    JobsFirst(mem, ts);
    DeliveredTogether([d], tail, [Job(mem, ts[0])], JobsOf(mem, ts[1..]));
  }

  /** A transfer of a bare IOP tag: its first quadword has the same address and flags, and counts
      the words of the quadwords behind it. */
  lemma TagOnly(r: Ring, t: Transfer, id: TagId)
    requires Shape(r) && t.dmatag && 0 < t.size < 0x100000
    ensures var r' := Append(r, t, id); var tag := r'.tags[r'.index]; var q := Read(r', tag.addr);
            && r'.index == NextSlot(r.index) && tag.id == id && tag.irq == t.intI && Covers(tag.qwc, t.size)
            && Tagged(q, []) == Delivery(t.dest % 0x1000000, 0, t.intO, t.ert, []) && q.w1 == 4 * (tag.qwc - 1)
  {
    var r' := Append(r, t, id);
    HeaderWord(t, Read(r', r'.tags[r'.index].addr), []);
    CeilCovers(t.size);
    TagOnlyWords(QwcOf(t.size));
  }

  lemma TagOnlyWords(q: nat)
    requires 0 < q <= 0x10000
    ensures (q + 0x100000000 - 1) * 4 % 0x100000000 == 4 * (q - 1)
  {
    assert (q + 0x100000000 - 1) * 4 == 4 * (q - 1) + 4 * 0x100000000;
  }

  // ----------------------------------------------------------------- over runs

  /** The transfers accepted in a run, in order. */
  ghost function Accepted(s: Sys, es: seq<Event>): seq<Job>
    requires Shape(s.ring) && Runnable(s, es)
    decreases |es|
  {
    if es == [] then []
    else
      (if es[0].Request? && Accepts(s.ring, es[0].ts) then JobsOf(s.ring.mem, es[0].ts) else [])
      + Accepted(Step(s, es[0]), es[1..])
  }

  /** The quadwords that went with them. */
  ghost function AcceptedData(s: Sys, es: seq<Event>): seq<Quad>
    requires Shape(s.ring) && Runnable(s, es)
    decreases |es|
  {
    if es == [] then []
    else
      (if es[0].Request? && Accepts(s.ring, es[0].ts) then Packets(s.ring.mem, es[0].ts) else [])
      + AcceptedData(Step(s, es[0]), es[1..])
  }

  lemma {:induction false} DataAccepted(s: Sys, es: seq<Event>)
    requires Shape(s.ring) && Runnable(s, es)
    ensures After(s, es).accepted == s.accepted + AcceptedData(s, es)
    decreases |es|
  {
    if es == [] {
      assert s.accepted + [] == s.accepted;
    } else {
      var s1 := Step(s, es[0]);
      var here := if es[0].Request? && Accepts(s.ring, es[0].ts) then Packets(s.ring.mem, es[0].ts) else [];
      DataAccepted(s1, es[1..]);
      assert s1.accepted == s.accepted + here;
      Assoc(s.accepted, here, AcceptedData(s1, es[1..]));
    }
  }

  lemma {:induction false} DataReceived(s: Sys, es: seq<Event>)
    requires Shape(s.ring) && Runnable(s, es)
    ensures AllDelivered(Received(AcceptedData(s, es)), Accepted(s, es))
    decreases |es|
  {
    if es != [] {
      var s1 := Step(s, es[0]);
      var rest := AcceptedData(s1, es[1..]);
      DataReceived(s1, es[1..]);
      if es[0].Request? && Accepts(s.ring, es[0].ts) {
        var ds := PacketsReceived(s.ring.mem, es[0].ts, rest);
        DeliveredTogether(ds, Received(rest), JobsOf(s.ring.mem, es[0].ts), Accepted(s1, es[1..]));
      } else {
        assert [] + rest == rest && [] + Accepted(s1, es[1..]) == Accepted(s1, es[1..]);
      }
    }
  }

  /** From a part of the stream the IOP takes a part of the transfers. */
  lemma {:induction false} ReceivedPrefix(a: seq<Quad>, b: seq<Quad>)
    requires a <= b
    ensures Received(a) <= Received(b)
    decreases |a|
  {
    if a != [] && 1 + a[0].w1 / 4 <= |a| {
      var n := 1 + a[0].w1 / 4;
      assert a[..n] == b[..n] && a[1..n] == b[1..n];
      ReceivedPrefix(a[n..], b[n..]);
    }
  }

  /** For every run of safe requests from power-up: what the IOP has received is a prefix of the
      accepted transfers, each at its address with its flags and data, and all of them once the
      channel is at rest. */
  lemma ReceivedInOrder(r: Ring, es: seq<Event>)
    requires Initial(r) && Shape(r) && Runnable(PowerUp(r), es) && SafeRun(PowerUp(r), es)
    ensures var z := After(PowerUp(r), es); var ds := Received(z.delivered); var js := Accepted(PowerUp(r), es);
            && |ds| <= |js| && (forall i :: 0 <= i < |ds| ==> Delivers(ds[i], js[i].mem, js[i].t))
            && (!z.ring.running ==> |ds| == |js|)
  {
    var s := PowerUp(r);
    DeliveredInOrder(r, es);
    DataAccepted(s, es);
    DataReceived(s, es);
    assert After(s, es).accepted == AcceptedData(s, es);
    ReceivedPrefix(After(s, es).delivered, After(s, es).accepted);
  }

  // ---------------------------------------------------------------- interrupts

  /** The interrupt flags of the tags of a request: a transfer of more than 112 bytes has a tag
      without one first; the last tag of each transfer has it if the transfer asks for it. */
  function Wanted(ts: seq<Transfer>): (b: seq<bool>)
    decreases |ts|
  {
    if ts == [] then []
    else (if ts[0].dmatag || ts[0].size <= 112 then [ts[0].intI] else [false, ts[0].intI]) + Wanted(ts[1..])
  }

  lemma WantedOne(t: Transfer)
    requires !t.dmatag
    ensures |Wanted([t])| == TagsOf(t) && Wanted([t]) == if t.size <= 112 then [t.intI] else [false, t.intI]
  {
    assert [t][1..] == [];
  }

  lemma ShortIrq(r: Ring, t: Transfer, id: TagId, s: nat)
    requires Shape(r) && Sendable(t) && t.size <= 112 && s < RING
    ensures var r' := Append(r, t, id);
            if s == SlotAt(r.index, 1) then r'.tags[s].irq == t.intI else r'.tags[s] == r.tags[s]
  {
  }

  lemma LongIrq(r: Ring, t: Transfer, id: TagId, s: nat)
    requires Shape(r) && Sendable(t) && t.size > 112 && s < RING
    ensures var r' := Append(r, t, id);
            if s == SlotAt(r.index, 1) then !r'.tags[s].irq
            else if s == SlotAt(r.index, 2) then r'.tags[s].irq == t.intI else r'.tags[s] == r.tags[s]
  {
    assert QwcOf(t.size) >= 8;
  }

  lemma AppendIrq(r: Ring, t: Transfer, id: TagId, k: nat, s: nat)
    requires Shape(r) && Sendable(t) && k < RING && s == SlotAt(r.index, k + 1)
    ensures |Wanted([t])| == TagsOf(t)
    ensures k < TagsOf(t) ==> Append(r, t, id).tags[s].irq == Wanted([t])[k]
    ensures k >= TagsOf(t) ==> Append(r, t, id).tags[s] == r.tags[s]
  {
    WantedOne(t);
    if t.size <= 112 { ShortIrq(r, t, id, s); } else { LongIrq(r, t, id, s); }
  }

  lemma {:induction false} WantedLength(ts: seq<Transfer>)
    ensures |Wanted(ts)| == NumTags(ts)
    decreases |ts|
  {
    if ts != [] { WantedLength(ts[1..]); }
  }

  lemma SlotPlus(i: nat, a: nat, b: nat, c: nat)
    requires i < RING && c == a + b <= RING && b > 0
    ensures SlotAt(SlotAt(i, a), b) == SlotAt(i, c)
  {
  }

  lemma SlotRound(i: nat, n: nat, k: nat, j: nat)
    requires i < RING && k < n <= RING && j == RING - n + k
    ensures SlotAt(SlotAt(i, n), j + 1) == SlotAt(i, k + 1)
  {
  }

  /** Slots behind those of the request keep their tags. */
  lemma {:induction false} RequestSpares(r: Ring, ts: seq<Transfer>, k: nat, s: nat)
    requires Shape(r) && AllSendable(ts) && NumTags(ts) <= k < RING && s == SlotAt(r.index, k + 1)
    ensures Shape(AppendAll(r, ts)) && AppendAll(r, ts).tags[s] == r.tags[s]
    decreases |ts|
  {
    AppendAllShape(r, ts);
    if ts != [] {
      var n, id := TagsOf(ts[0]), if |ts| == 1 then REFE else REF;
      AppendIrq(r, ts[0], id, k, s);
      AppendIndex(r, ts[0], id);
      SlotPlus(r.index, n, k - n + 1, k + 1);
      RequestSpares(Append(r, ts[0], id), ts[1..], k - n, s);
    }
  }

  lemma WantedFirst(ts: seq<Transfer>, n: nat)
    requires ts != [] && n == TagsOf(ts[0]) && !ts[0].dmatag
    ensures |Wanted([ts[0]])| == n && Wanted(ts) == Wanted([ts[0]]) + Wanted(ts[1..])
  {
    WantedOne(ts[0]);
  }

  lemma WantedAt(ts: seq<Transfer>, n: nat, k: nat)
    requires ts != [] && n == TagsOf(ts[0]) && !ts[0].dmatag && k < |Wanted(ts)|
    ensures |Wanted([ts[0]])| == n
    ensures k < n ==> Wanted(ts)[k] == Wanted([ts[0]])[k]
    ensures k >= n ==> k - n < |Wanted(ts[1..])| && Wanted(ts)[k] == Wanted(ts[1..])[k - n]
  {
    WantedFirst(ts, n);
  }

  /** The tags of a request carry the interrupt flags it asks for, in order. */
  lemma {:induction false} RequestIrqs(r: Ring, ts: seq<Transfer>, k: nat, s: nat)
    requires Shape(r) && AllSendable(ts) && k < NumTags(ts) <= RING && s == SlotAt(r.index, k + 1)
    ensures |Wanted(ts)| == NumTags(ts) && Shape(AppendAll(r, ts))
    ensures AppendAll(r, ts).tags[s].irq == Wanted(ts)[k]
    decreases |ts|
  {
    WantedLength(ts);
    AppendAllShape(r, ts);
    var n, id := TagsOf(ts[0]), if |ts| == 1 then REFE else REF;
    WantedAt(ts, n, k);
    AppendIndex(r, ts[0], id);
    if k >= n {
      LaterIrqs(r, Append(r, ts[0], id), ts, n, k, s);
    } else {
      AppendIrq(r, ts[0], id, k, s);
      SlotRound(r.index, n, k, RING - n + k);
      RequestSpares(Append(r, ts[0], id), ts[1..], RING - n + k, s);
    }
  }

  lemma {:induction false} LaterIrqs(r: Ring, r1: Ring, ts: seq<Transfer>, n: nat, k: nat, s: nat)
    requires Shape(r) && Shape(r1) && AllSendable(ts) && ts != [] && n == TagsOf(ts[0]) <= k < NumTags(ts) <= RING
    requires s == SlotAt(r.index, k + 1) && r1.index == SlotAt(r.index, n)
    ensures |Wanted(ts[1..])| == NumTags(ts[1..]) && k - n < NumTags(ts[1..])
    ensures Shape(AppendAll(r1, ts[1..])) && AppendAll(r1, ts[1..]).tags[s].irq == Wanted(ts[1..])[k - n]
    decreases |ts|, 0
  {
    SlotPlus(r.index, n, k - n + 1, k + 1);
    RequestIrqs(r1, ts[1..], k - n, s);
  }

  /** Every tag of a sendable transfer has a quadword count that fits its 16 bits. */
  lemma CountFits(r: Ring, t: Transfer, id: TagId, s: nat)
    requires Shape(r) && Sendable(t) && s < RING
    ensures var r' := Append(r, t, id); r'.tags[s] == r.tags[s] || 0 < r'.tags[s].qwc < 0x10000
  {
  }

  /** Neither the rewind of the tag in transfer nor the new id of the last tag changes a flag. */
  lemma SetupIrqs(r: Ring, free: int, s: nat)
    requires Shape(r) && s < RING
    ensures Shape(SetupTag(r, free)) && SetupTag(r, free).tags[s].irq == r.tags[s].irq
  {
  }

  // ---------------------------------------------------------------- request ids

  /** The places in which a tag can be: 31 slots in each of the laps that 16 bits can count. */
  const PLACES: nat := 31 * 0x10000

  function Place(r: Ring): nat {
    r.count * 31 + r.index
  }

  /** The place `n` tags on. */
  predicate Moved(p: nat, n: nat, p': nat) {
    p' == (p + n) % PLACES
  }

  lemma MovedOn(p: nat, a: nat, p1: nat, b: nat, p2: nat)
    requires Moved(p, a, p1) && Moved(p1, b, p2)
    ensures Moved(p, a + b, p2)
  {
    PlaceTwo(p, a, b);
  }

  lemma NotMoved(r: Ring)
    requires Shape(r) && r.count < 0x10000
    ensures Moved(Place(r), 0, Place(r))
  {
  }

  lemma AdvancePlace(r: Ring)
    requires Shape(r) && r.count < 0x10000
    ensures Advance(r).count < 0x10000 && Moved(Place(r), 1, Place(Advance(r)))
  {
  }

  lemma PlaceTwo(x: nat, a: nat, b: nat)
    ensures ((x + a) % PLACES + b) % PLACES == (x + (a + b)) % PLACES
  {
    var q := (x + a) / PLACES;
    assert x + a == PLACES * q + (x + a) % PLACES;
    assert x + (a + b) == ((x + a) % PLACES + b) + PLACES * q;
    Whole((x + a) % PLACES + b, q);
  }

  lemma Whole(y: nat, q: nat)
    ensures (y + PLACES * q) % PLACES == y % PLACES
  {
    assert y + PLACES * q == PLACES * (y / PLACES + q) + y % PLACES;
  }

  lemma AppendPlace(r: Ring, t: Transfer, id: TagId)
    requires Shape(r) && Sendable(t) && r.count < 0x10000
    ensures var r' := Append(r, t, id); r'.count < 0x10000 && Moved(Place(r), TagsOf(t), Place(r'))
  {
    AdvancePlace(r);
    if TagsOf(t) == 2 {
      AdvancePlace(LongHead(r, t));
      MovedOn(Place(r), 1, Place(LongHead(r, t)), 1, Place(Append(r, t, id)));
    }
  }

  lemma {:induction false} AppendAllPlace(r: Ring, ts: seq<Transfer>)
    requires Shape(r) && AllSendable(ts) && r.count < 0x10000
    ensures var r' := AppendAll(r, ts); r'.count < 0x10000 && Moved(Place(r), NumTags(ts), Place(r'))
    decreases |ts|
  {
    if ts == [] {
      NotMoved(r);
    } else {
      var id := if |ts| == 1 then REFE else REF;
      var r1 := Append(r, ts[0], id);
      AppendPlace(r, ts[0], id);
      AppendAllPlace(r1, ts[1..]);
      MovedOn(Place(r), TagsOf(ts[0]), Place(r1), NumTags(ts[1..]), Place(AppendAll(r, ts)));
    }
  }

  /** Tags written in a run. */
  ghost function Written(s: Sys, es: seq<Event>): nat
    requires Shape(s.ring) && Runnable(s, es)
    decreases |es|
  {
    if es == [] then 0
    else (if es[0].Request? && Accepts(s.ring, es[0].ts) then NumTags(es[0].ts) else 0) + Written(Step(s, es[0]), es[1..])
  }

  lemma StepPlace(s: Sys, e: Event)
    requires Shape(s.ring) && Enabled(s, e) && s.ring.count < 0x10000
    ensures var r := Step(s, e).ring; var n := if e.Request? && Accepts(s.ring, e.ts) then NumTags(e.ts) else 0;
            r.count < 0x10000 && Moved(Place(s.ring), n, Place(r))
  {
    if e.Request? && Accepts(s.ring, e.ts) { AppendAllPlace(SetupTag(s.ring, FreeTags(s.ring)), e.ts); } else { NotMoved(s.ring); }
  }

  lemma {:induction false} RunPlace(s: Sys, es: seq<Event>)
    requires Shape(s.ring) && Runnable(s, es) && s.ring.count < 0x10000
    ensures var r := After(s, es).ring; r.count < 0x10000 && Moved(Place(s.ring), Written(s, es), Place(r))
    decreases |es|
  {
    if es == [] {
      NotMoved(s.ring);
    } else {
      var s1, n := Step(s, es[0]), if es[0].Request? && Accepts(s.ring, es[0].ts) then NumTags(es[0].ts) else 0;
      StepPlace(s, es[0]);
      RunPlace(s1, es[1..]);
      MovedOn(Place(s.ring), n, Place(s1.ring), Written(s1, es[1..]), Place(After(s, es).ring));
    }
  }

  lemma TopHalf(lap: nat)
    ensures lap * 0x10000 % 0x100000000 == lap % 0x10000 * 0x10000
  {
  }

  lemma Digits(l: nat, start: nat, n: nat, id: nat)
    requires start < 0x100 && n < 0x100 && id == 0x100 * (0x100 * l + start) + n
    ensures id % 0x100 == n && id / 0x100 % 0x100 == start && id / 0x10000 == l
  {
    assert id / 0x100 == 0x100 * l + start;
  }

  lemma IdFields(lap: nat, start: nat, n: nat, id: nat)
    requires start < 0x100 && n < 0x100 && id == lap * 0x10000 % 0x100000000 + start * 0x100 + n
    ensures id % 0x100 == n && id / 0x100 % 0x100 == start && id / 0x10000 == lap % 0x10000
  {
    TopHalf(lap);
    Digits(lap % 0x10000, start, n, id);
  }

  lemma FirstSlot(r: Ring)
    requires Shape(r) && r.count < 0x10000
    ensures var start := (r.index + 1) % 31;
            start == Advance(r).index && (if start != 0 then r.count else r.count + 1) % 0x10000 == Advance(r).count
  {
  }

  /** The id of an accepted request holds the number of its tags and the lap and slot of the first. */
  lemma IdReadsBack(r: Ring, ts: seq<Transfer>)
    requires Shape(r) && r.count < 0x10000 && Accepts(r, ts)
    ensures var id := SetDmaId(r, ts);
            id % 0x100 == NumTags(ts) && id / 0x100 % 0x100 == Advance(r).index && id / 0x10000 == Advance(r).count
  {
    FreeTagsMeaning(r);
    FirstSlot(r);
    var start := (r.index + 1) % 31;
    IdFields(if start != 0 then r.count else r.count + 1, start, NumTags(ts), SetDmaId(r, ts));
  }

  lemma PlaceSplit(lap: nat, slot: nat, n: nat)
    requires slot < 31 && lap * 31 + slot == n
    ensures n % 31 == slot && n / 31 == lap
  {
  }

  lemma PlaceOf(n: nat)
    ensures n % PLACES % 31 == n % 31 && n % PLACES / 31 == n / 31 % 0x10000
  {
    var q := n / PLACES;
    var m := n % PLACES;
    assert n == PLACES * q + m && PLACES * q == 31 * (0x10000 * q);
    PlaceSplit(0x10000 * q + m / 31, m % 31, n);
    LapSplit(q, m / 31);
  }

  lemma LapSplit(q: nat, l: nat)
    requires l < 0x10000
    ensures (0x10000 * q + l) % 0x10000 == l
  {
  }

  /** The ring starts at the last place, so tag `n` goes to place `n`. */
  lemma FirstPlace(n: nat, p: nat)
    requires Moved(PLACES - 1, n + 1, p)
    ensures p == n % PLACES
  {
    assert PLACES - 1 + (n + 1) == n + PLACES * 1;
    Whole(n, 1);
  }

  /** From power-up the ids number the tags: a request accepted after `n` tags has the slot n modulo
      31, the lap n / 31 modulo 2^16, and its own number of tags. */
  lemma IdsNumberTags(r: Ring, es: seq<Event>, ts: seq<Transfer>)
    requires Initial(r) && Shape(r) && Runnable(PowerUp(r), es) && Accepts(After(PowerUp(r), es).ring, ts)
    ensures var n := Written(PowerUp(r), es); var id := SetDmaId(After(PowerUp(r), es).ring, ts);
            id % 0x100 == NumTags(ts) && id / 0x100 % 0x100 == n % 31 && id / 0x10000 == n / 31 % 0x10000
  {
    var s := PowerUp(r);
    var n, z := Written(s, es), After(s, es).ring;
    RunPlace(s, es);
    AfterShape(s, es);
    AdvancePlace(z);
    MovedOn(Place(r), n, Place(z), 1, Place(Advance(z)));
    FirstPlace(n, Place(Advance(z)));
    PlaceOf(n);
    PlaceSplit(Advance(z).count, Advance(z).index, n % PLACES);
    IdReadsBack(z, ts);
  }

  lemma {:induction false} AfterShape(s: Sys, es: seq<Event>)
    requires Shape(s.ring) && Runnable(s, es)
    ensures Shape(After(s, es).ring)
    decreases |es|
  {
    if es != [] { AfterShape(Step(s, es[0]), es[1..]); }
  }
}
