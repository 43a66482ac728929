/**
  What every interleaving of `SetDma` with controller steps keeps: the quadwords
  sent so far followed by those still in the ring are the accepted ones, in order.
 */
module SifDmaProofs {
  import opened SifDmaRing

  // ------------------------------------------------------------ ring geometry

  /** The next tag slot the controller will fetch. */
  function HwSlot(r: Ring): nat {
    if r.tadr == JUMP_SLOT then 0 else r.tadr
  }

  function SlotAt(h: nat, k: nat): nat {
    if h + k < RING then h + k else h + k - RING
  }

  /** How far slot `s` lies behind slot `h`, going round the ring. */
  function Offset(h: nat, s: nat): int {
    if s >= h then s - h else s - h + RING
  }

  /** Tags between the hardware pointer and the software index, by their distance modulo 31. */
  function Unfetched(r: Ring): int {
    var d := r.index + 1 - HwSlot(r);
    if d < 0 then d + RING else if d == RING then 0 else d
  }

  /** The free count read from the registers is 30 less the unfetched tags, except when that is none. */
  lemma FreeTagsMeaning(r: Ring)
    requires Shape(r)
    ensures FreeTags(r) == if Unfetched(r) > 0 then 30 - Unfetched(r) else if r.qwc != 0 then 30 else 31
  {
  }

  // ------------------------------------------------------ quadwords in the ring

  function ReadRun(r: Ring, a: Addr, n: nat): (q: seq<Quad>)
    ensures |q| == n
  {
    seq(n, k requires 0 <= k < n => Read(r, Plus(a, k)))
  }

  function ReadTag(r: Ring, s: nat): seq<Quad>
    requires Shape(r) && s < RING
  {
    ReadRun(r, r.tags[s].addr, r.tags[s].qwc)
  }

  function Runs(r: Ring, h: nat, p: nat): seq<Quad>
    requires Shape(r) && h < RING && p <= RING
  {
    if p == 0 then [] else Runs(r, h, p - 1) + ReadTag(r, SlotAt(h, p - 1))
  }

  /** Everything accepted and not yet sent: the rest of the current run, then the unfetched tags. */
  function Outstanding(r: Ring): seq<Quad>
    requires Shape(r)
  {
    ReadRun(r, r.madr, r.qwc) + Runs(r, HwSlot(r), Unfetched(r))
  }

  /** What the IOP must receive for one transfer: its tag, then the payload. */
  function Packet(mem: int -> Quad, t: Transfer): seq<Quad> {
    [Quad(HeaderAddr(t), QwcOf(t.size) * 4, 0)] + seq(QwcOf(t.size), i => mem(t.src + i))
  }

  function Packets(mem: int -> Quad, ts: seq<Transfer>): seq<Quad> {
    if ts == [] then [] else Packet(mem, ts[0]) + Packets(mem, ts[1..])
  }

  // ---------------------------------------------------------------- invariant

  /** An address stays inside the staging buffer of its own slot. */
  predicate Within(s: nat, a: Addr, n: nat) {
    a.Staging? ==> a.slot == s && a.off + n <= 8
  }

  predicate GoodTag(s: nat, tag: Tag) {
    tag.qwc >= 1 && Within(s, tag.addr, tag.qwc)
  }

  ghost predicate Queued(r: Ring, h: nat, p: nat)
    requires Shape(r) && h < RING && p <= RING
  {
    forall s :: 0 <= s < RING && Offset(h, s) < p ==> GoodTag(s, r.tags[s])
  }

  ghost predicate Linked(r: Ring, h: nat, p: nat)
    requires Shape(r) && h < RING && p <= RING
  {
    forall s :: 0 <= s < RING && Offset(h, s) < p ==> r.tags[s].id == if Offset(h, s) == p - 1 then REFE else REF
  }

  ghost predicate Inv(r: Ring) {
    && Shape(r)
    && Queued(r, HwSlot(r), Unfetched(r))
    && Linked(r, HwSlot(r), Unfetched(r))
    && (r.qwc > 0 ==> Within(SlotAt(HwSlot(r), 30), r.madr, r.qwc))
    && (r.ending ==> Unfetched(r) == 0)
    && (r.running && Unfetched(r) == 0 ==> r.ending)
    && (!r.running ==> Unfetched(r) == 0 && r.qwc == 0)
  }

  /** A transfer the tag format can express: its second run fits the 16-bit count. */
  predicate Sendable(t: Transfer) {
    !t.dmatag && QwcOf(t.size) <= MAX_QWC + FIRST_PAYLOAD
  }

  predicate AllSendable(ts: seq<Transfer>) {
    forall i :: 0 <= i < |ts| ==> Sendable(ts[i])
  }

  // -------------------------------------------------------------- appending

  lemma Assoc<T>(a: seq<T>, b: seq<T>, c: seq<T>)
    ensures (a + b) + c == a + (b + c)
  {
  }

  lemma ReadRunFrame(r: Ring, r': Ring, s: nat, a: Addr, n: nat)
    requires Shape(r) && Shape(r') && s < RING && Within(s, a, n)
    requires r.mem == r'.mem && r.staging[s] == r'.staging[s]
    ensures ReadRun(r, a, n) == ReadRun(r', a, n)
  {
    forall k | 0 <= k < n ensures Read(r, Plus(a, k)) == Read(r', Plus(a, k)) {}
  }

  /** Runs reads only the slots of its window. */
  lemma {:induction false} RunsFrame(r: Ring, r': Ring, h: nat, p: nat)
    requires Shape(r) && Shape(r') && h < RING && p <= RING
    requires Queued(r, h, p) && r.mem == r'.mem
    requires forall s :: 0 <= s < RING && Offset(h, s) < p ==>
               r.tags[s].(id := REF) == r'.tags[s].(id := REF) && r.staging[s] == r'.staging[s]
    ensures Runs(r, h, p) == Runs(r', h, p)
    ensures Queued(r', h, p)
  {
    if p > 0 {
      RunsFrame(r, r', h, p - 1);
      var s := SlotAt(h, p - 1);
      ReadRunFrame(r, r', s, r.tags[s].addr, r.tags[s].qwc);
    }
  }

  /** Registers play no part in what the ring holds. */
  lemma {:induction false} RegsFrame(r: Ring, r': Ring, h: nat, p: nat, a: Addr, n: nat)
    requires Shape(r) && h < RING && p <= RING
    requires Shape(r') && r'.tags == r.tags && r'.staging == r.staging && r'.mem == r.mem
    ensures Runs(r', h, p) == Runs(r, h, p) && ReadRun(r', a, n) == ReadRun(r, a, n)
  {
    forall k | 0 <= k < n ensures Read(r', Plus(a, k)) == Read(r, Plus(a, k)) {}
    if p > 0 {
      var s := SlotAt(h, p - 1);
      RegsFrame(r, r', h, p - 1, r.tags[s].addr, r.tags[s].qwc);
    }
  }

  /** What filling positions `p..e` of the window leaves alone, and the ids it writes. */
  ghost predicate Appended(r: Ring, r': Ring, h: nat, p: nat, e: nat, id: TagId)
    requires Shape(r) && h < RING && p <= e <= 30
  {
    && Shape(r') && r'.mem == r.mem
    && r'.tadr == r.tadr && r'.qwc == r.qwc && r'.madr == r.madr
    && NextSlot(r'.index) == SlotAt(h, e)
    && (forall s :: 0 <= s < RING && !(p <= Offset(h, s) < e) ==> r'.tags[s] == r.tags[s] && r'.staging[s] == r.staging[s])
    && (forall s :: 0 <= s < RING && p <= Offset(h, s) < e ==> r'.tags[s].id == if Offset(h, s) == e - 1 then id else REF)
  }

  /** `r'` is `r` with the window extended from `p` to `e` by tags holding the quadwords `data`. */
  ghost predicate Extends(r: Ring, r': Ring, h: nat, p: nat, e: nat, id: TagId, data: seq<Quad>)
    requires Shape(r) && h < RING && p <= e <= 30
  {
    && Appended(r, r', h, p, e, id)
    && Queued(r', h, e)
    && Runs(r', h, e) == Runs(r, h, p) + data
  }

  lemma ExtendsTrans(r: Ring, r1: Ring, r2: Ring, h: nat, p: nat, m: nat, e: nat, id: TagId, x: seq<Quad>, y: seq<Quad>)
    requires Shape(r) && h < RING && p <= m < e <= 30
    requires Extends(r, r1, h, p, m, REF, x) && Extends(r1, r2, h, m, e, id, y)
    ensures Extends(r, r2, h, p, e, id, x + y)
  {
    Assoc(Runs(r, h, p), x, y);
  }

  lemma PutExtends(r: Ring, tag: Tag, iop: IopTag, h: nat, p: nat)
    requires Shape(r) && |iop.data| == FIRST_PAYLOAD && h < RING && p < 30 && Queued(r, h, p)
    requires NextSlot(r.index) == SlotAt(h, p) && GoodTag(SlotAt(h, p), tag)
    ensures Extends(r, Put(r, tag, iop), h, p, p + 1, tag.id, ReadTag(Put(r, tag, iop), SlotAt(h, p)))
  {
    var r' := Put(r, tag, iop);
    RunsFrame(r, r', h, p);
  }

  lemma ShortReads(r: Ring, t: Transfer, id: TagId)
    requires Shape(r) && Sendable(t) && TagsOf(t) == 1
    ensures ReadTag(Append(r, t, id), NextSlot(r.index)) == Packet(r.mem, t)
  {
    var r', s := Append(r, t, id), NextSlot(r.index);
    var x, y := ReadTag(r', s), Packet(r.mem, t);
    forall i | 0 <= i < |x| ensures x[i] == y[i] {
      if i > 0 {
        assert x[i] == r'.staging[s].data[i - 1] == r.mem(t.src + (i - 1));
      }
    }
  }

  lemma LongReads(r: Ring, t: Transfer, id: TagId, r1: Ring, r2: Ring)
    requires Shape(r) && Sendable(t) && TagsOf(t) == 2
    requires Shape(r1) && r1 == LongHead(r, t)
    requires r2 == Append(r, t, id)
    ensures var s := NextSlot(r.index);
            ReadTag(r1, s) + ReadTag(r2, NextSlot(s)) == Packet(r.mem, t)
  {
    var s := NextSlot(r.index);
    var a, b, y := ReadTag(r1, s), ReadTag(r2, NextSlot(s)), Packet(r.mem, t);
    forall i | 0 <= i < 8 ensures a[i] == y[i] {
      if i > 0 {
        assert a[i] == r1.staging[s].data[i - 1] == r.mem(t.src + (i - 1));
      }
    }
    forall i | 0 <= i < |b| ensures b[i] == y[8 + i] {
      assert b[i] == r.mem(t.src + FIRST_PAYLOAD + i);
    }
    assert a + b == y;
  }

  lemma ShortExtends(r: Ring, t: Transfer, id: TagId, h: nat, p: nat)
    requires Shape(r) && Sendable(t) && h < RING && TagsOf(t) == 1
    requires p < 30 && NextSlot(r.index) == SlotAt(h, p) && Queued(r, h, p)
    ensures Extends(r, Append(r, t, id), h, p, p + 1, id, Packet(r.mem, t))
  {
    var n, q := NextSlot(r.index), QwcOf(t.size);
    PutExtends(r, Tag(id, t.intI, q + 1, Staging(n, 0)),
               IopTag(HeaderAddr(t), q * 4, Copied(r.staging[n].data, r.mem, t.src, q)), h, p);
    ShortReads(r, t, id);
  }

  lemma HeadExtends(r: Ring, t: Transfer, h: nat, p: nat)
    requires Shape(r) && Sendable(t) && h < RING && TagsOf(t) == 2
    requires p < 29 && NextSlot(r.index) == SlotAt(h, p) && Queued(r, h, p)
    ensures Extends(r, LongHead(r, t), h, p, p + 1, REF, ReadTag(LongHead(r, t), NextSlot(r.index)))
  {
    var n, q := NextSlot(r.index), QwcOf(t.size);
    PutExtends(r, Tag(REF, false, 8, Staging(n, 0)),
               IopTag(HeaderAddr(t), q * 4, Copied(r.staging[n].data, r.mem, t.src, FIRST_PAYLOAD)), h, p);
  }

  lemma TailExtends(r: Ring, t: Transfer, id: TagId, h: nat, p: nat)
    requires Shape(r) && Sendable(t) && h < RING && TagsOf(t) == 2
    requires p < 30 && NextSlot(r.index) == SlotAt(h, p) && Queued(r, h, p)
    ensures Extends(r, LongTail(r, t, id), h, p, p + 1, id, ReadTag(LongTail(r, t, id), NextSlot(r.index)))
  {
    var n, q := NextSlot(r.index), QwcOf(t.size);
    PutExtends(r, Tag(id, t.intI, q - FIRST_PAYLOAD, Main(t.src + FIRST_PAYLOAD)), r.staging[n], h, p);
  }

  lemma LongExtends(r: Ring, t: Transfer, id: TagId, r1: Ring, r2: Ring, h: nat, p: nat)
    requires Shape(r) && Sendable(t) && h < RING && TagsOf(t) == 2
    requires p < 29 && NextSlot(r.index) == SlotAt(h, p) && Queued(r, h, p)
    requires r1 == LongHead(r, t) && r2 == Append(r, t, id)
    ensures Extends(r, r2, h, p, p + 2, id, Packet(r.mem, t))
  {
    var n := NextSlot(r.index);
    HeadExtends(r, t, h, p);
    TailExtends(r1, t, id, h, p + 1);
    LongReads(r, t, id, r1, r2);
    ExtendsTrans(r, r1, r2, h, p, p + 1, p + 2, id, ReadTag(r1, n), ReadTag(r2, NextSlot(n)));
  }

  lemma AppendExtends(r: Ring, t: Transfer, id: TagId, h: nat, p: nat, e: nat)
    requires Shape(r) && Sendable(t) && h < RING
    requires e == p + TagsOf(t) <= 30 && NextSlot(r.index) == SlotAt(h, p) && Queued(r, h, p)
    ensures Extends(r, Append(r, t, id), h, p, e, id, Packet(r.mem, t))
  {
    if TagsOf(t) == 1 {
      ShortExtends(r, t, id, h, p);
    } else {
      LongExtends(r, t, id, LongHead(r, t), Append(r, t, id), h, p);
    }
  }

  /** A whole request takes the counted number of slots, adds exactly its packets behind what
      the ring holds, and its ids end up REF, ..., REF, REFE. */
  lemma {:induction false} AppendAllExtends(r: Ring, mem: int -> Quad, ts: seq<Transfer>, h: nat, p: nat, e: nat)
    requires Shape(r) && AllSendable(ts) && ts != [] && h < RING && r.mem == mem
    requires e == p + NumTags(ts) <= 30 && NextSlot(r.index) == SlotAt(h, p) && Queued(r, h, p)
    ensures Extends(r, AppendAll(r, ts), h, p, e, REFE, Packets(mem, ts))
    decreases |ts|
  {
    var id, m := if |ts| == 1 then REFE else REF, p + TagsOf(ts[0]);
    SomeTags(ts);
    AppendExtends(r, ts[0], id, h, p, m);
    RequestExtends(r, Append(r, ts[0], id), mem, ts, h, p, m, e);
  }

  lemma {:induction false} RequestExtends(r: Ring, r1: Ring, mem: int -> Quad, ts: seq<Transfer>, h: nat, p: nat, m: nat, e: nat)
    requires Shape(r) && Shape(r1) && AllSendable(ts) && ts != [] && h < RING && r.mem == mem
    requires m == p + TagsOf(ts[0]) && e == p + NumTags(ts) <= 30
    requires Extends(r, r1, h, p, m, if |ts| == 1 then REFE else REF, Packet(mem, ts[0]))
    ensures Extends(r, AppendAll(r1, ts[1..]), h, p, e, REFE, Packets(mem, ts))
    decreases |ts|, 0
  {
    var rest := ts[1..];
    if rest == [] {
      assert Packets(mem, ts) == Packet(mem, ts[0]);
    } else {
      SomeTags(rest);
      AppendAllExtends(r1, mem, rest, h, m, e);
      ExtendsTrans(r, r1, AppendAll(r1, rest), h, p, m, e, REFE, Packet(mem, ts[0]), Packets(mem, rest));
    }
  }

  lemma {:induction false} SomeTags(ts: seq<Transfer>)
    requires ts != []
    ensures NumTags(ts) >= TagsOf(ts[0])
  {
  }

  // ------------------------------------------------------------- SifSetDma

  /** What a caller must respect: with nothing queued a request may not fill the ring, counting
      the last tag when it is still being transferred, since that one is rewound. */
  predicate Safe(r: Ring, ts: seq<Transfer>) {
    Unfetched(r) > 0 || NumTags(ts) + (if r.qwc > 0 then 1 else 0) <= 30
  }

  /** Tags that the controller still has to fetch once sif_dma_setup_tag has run. */
  function Reopened(r: Ring): int {
    if Unfetched(r) == 0 && r.qwc > 0 then 1 else Unfetched(r)
  }

  /** The ring is ready to be extended: everything queued continues, none of it ends. */
  ghost predicate Open(r: Ring, p: int) {
    && Shape(r) && 0 <= p <= 30
    && NextSlot(r.index) == SlotAt(HwSlot(r), p)
    && Queued(r, HwSlot(r), p)
    && (forall s :: 0 <= s < RING && Offset(HwSlot(r), s) < p ==> r.tags[s].id == REF)
    && (r.qwc > 0 ==> Within(SlotAt(HwSlot(r), 30), r.madr, r.qwc))
  }

  lemma RewindOpens(r: Ring)
    requires Inv(r) && Unfetched(r) == 0 && r.qwc > 0
    ensures var r1 := SetupTag(r, 30);
            Open(r1, 1) && r1.qwc == 0 && Runs(r1, HwSlot(r1), 1) == Outstanding(r)
  {
    var r1 := SetupTag(r, 30);
    var h := HwSlot(r1);
    assert SlotAt(h, 0) == r.index == SlotAt(HwSlot(r), 30);
    assert ReadTag(r1, r.index) == ReadRun(r, r.madr, r.qwc);
    assert Runs(r1, h, 1) == Runs(r1, h, 0) + ReadTag(r1, r.index);
  }

  lemma RelinkOpens(r: Ring)
    requires Inv(r) && Unfetched(r) > 0
    ensures var r1 := SetupTag(r, FreeTags(r)); var h := HwSlot(r); var p := Unfetched(r);
            Open(r1, p) && HwSlot(r1) == h && Runs(r1, h, p) == Runs(r, h, p)
            && r1.qwc == r.qwc && r1.madr == r.madr && ReadRun(r1, r.madr, r.qwc) == ReadRun(r, r.madr, r.qwc)
  {
    var r1, h, p := SetupTag(r, FreeTags(r)), HwSlot(r), Unfetched(r);
    FreeTagsMeaning(r);
    assert SlotAt(h, p - 1) == r.index;
    RunsFrame(r, r1, h, p);
  }

  lemma SetupOpens(r: Ring)
    requires Inv(r)
    ensures var r1 := SetupTag(r, FreeTags(r)); var p := Reopened(r);
            Open(r1, p) && r1.mem == r.mem
            && Outstanding(r) == ReadRun(r1, r1.madr, r1.qwc) + Runs(r1, HwSlot(r1), p)
  {
    FreeTagsMeaning(r);
    if Unfetched(r) > 0 {
      RelinkOpens(r);
    } else if r.qwc > 0 {
      RewindOpens(r);
      var r1 := SetupTag(r, 30);
      assert ReadRun(r1, r1.madr, 0) + Runs(r1, HwSlot(r1), 1) == Runs(r1, HwSlot(r1), 1);
    }
  }

  /** Appending to an open ring and restarting the channel gives a ring in order again. */
  lemma ExtendCloses(r1: Ring, r2: Ring, p: nat, e: nat, data: seq<Quad>)
    requires Open(r1, p) && p < e <= 30
    requires Extends(r1, r2, HwSlot(r1), p, e, REFE, data)
    ensures var r' := r2.(running := true, ending := false);
            && Inv(r') && Unfetched(r') == e && r'.mem == r1.mem
            && Outstanding(r') == ReadRun(r1, r1.madr, r1.qwc) + Runs(r1, HwSlot(r1), p) + data
  {
    var r' := r2.(running := true, ending := false);
    var h := HwSlot(r1);
    assert Unfetched(r') == e;
    RegsFrame(r2, r', h, e, r2.madr, 0);
    if r1.qwc > 0 { ReadRunFrame(r1, r', SlotAt(h, 30), r1.madr, r1.qwc); }
    Assoc(ReadRun(r1, r1.madr, r1.qwc), Runs(r1, h, p), data);
  }

  lemma RefusedKeeps(r: Ring, r': Ring)
    requires Inv(r) && r' == r.(running := true, ending := false) && Unfetched(r) > 0
    ensures Inv(r') && Outstanding(r') == Outstanding(r)
  {
    RegsFrame(r, r', HwSlot(r), Unfetched(r), r.madr, r.qwc);
  }

  lemma AcceptedExtends(r: Ring, ts: seq<Transfer>, r1: Ring)
    requires Inv(r) && ts != [] && AllSendable(ts)
    requires r1 == SetupTag(r, FreeTags(r)) && Open(r1, Reopened(r)) && r1.mem == r.mem
    requires Reopened(r) + NumTags(ts) <= 30
    requires Outstanding(r) == ReadRun(r1, r1.madr, r1.qwc) + Runs(r1, HwSlot(r1), Reopened(r))
    ensures var r' := AppendAll(r1, ts).(running := true, ending := false);
            Inv(r') && Unfetched(r') == Reopened(r) + NumTags(ts) && r'.mem == r.mem
            && Outstanding(r') == Outstanding(r) + Packets(r.mem, ts)
  {
    var p := Reopened(r);
    var e := p + NumTags(ts);
    SomeTags(ts);
    AppendAllExtends(r1, r.mem, ts, HwSlot(r1), p, e);
    ExtendCloses(r1, AppendAll(r1, ts), p, e, Packets(r.mem, ts));
  }

  /** Requests are refused exactly when they do not fit behind the unfetched tags, and only a
      refused request gets the id 0. */
  lemma AcceptsMeaning(r: Ring, ts: seq<Transfer>)
    requires Inv(r) && ts != [] && Safe(r, ts)
    ensures Accepts(r, ts) <==> Unfetched(r) + NumTags(ts) <= 30
    ensures Accepts(r, ts) ==> Reopened(r) + NumTags(ts) <= 30 && NumTags(ts) > 0
    ensures !Accepts(r, ts) ==> Unfetched(r) > 0
    ensures SetDmaId(r, ts) != 0 <==> Accepts(r, ts)
  {
    FreeTagsMeaning(r);
    SomeTags(ts);
  }

  /** The central step: a safe request keeps the ring in order, and if it is accepted its packets,
      and nothing else, go behind everything still outstanding; a refused one changes no data. */
  lemma SetDmaCorrect(r: Ring, ts: seq<Transfer>)
    requires Inv(r) && ts != [] && AllSendable(ts) && Safe(r, ts)
    ensures var r' := SetDma(r, ts);
            && Inv(r') && Unfetched(r') > 0 && r'.mem == r.mem
            && Unfetched(r') == (if Accepts(r, ts) then Reopened(r) + NumTags(ts) else Unfetched(r))
            && Outstanding(r') == Outstanding(r) + (if Accepts(r, ts) then Packets(r.mem, ts) else [])
  {
    AcceptsMeaning(r, ts);
    if Accepts(r, ts) {
      SetupOpens(r);
      AcceptedExtends(r, ts, SetupTag(r, FreeTags(r)));
    } else {
      RefusedKeeps(r, SetDma(r, ts));
      assert Outstanding(r) + [] == Outstanding(r);
    }
  }

  lemma SetupKeepsQueued(r: Ring)
    requires Inv(r)
    ensures var r1 := SetupTag(r, FreeTags(r));
            r1.staging == r.staging && r1.index == r.index
            && (Unfetched(r) > 0 ==> r1.tags == r.tags[r.index := r.tags[r.index].(id := REF)] && HwSlot(r1) == HwSlot(r))
  {
    FreeTagsMeaning(r);
  }

  /** No unconsumed tag and no staging buffer still to be read is overwritten; the only edit
      to a queued tag is the id of the last one, which turns from REFE into REF. */
  lemma SetDmaKeepsUnconsumed(r: Ring, ts: seq<Transfer>, s: nat)
    requires Inv(r) && ts != [] && AllSendable(ts) && Safe(r, ts) && s < RING
    ensures var r' := SetDma(r, ts);
            && Shape(r')
            && (Offset(HwSlot(r), s) < Unfetched(r) ==>
                  && r'.staging[s] == r.staging[s]
                  && r'.tags[s] == if s == r.index && Accepts(r, ts) then r.tags[s].(id := REF) else r.tags[s])
            && (r.qwc > 0 && Offset(HwSlot(r), s) == 30 ==> r'.staging[s] == r.staging[s])
  {
    AcceptsMeaning(r, ts);
    if Accepts(r, ts) {
      var r1, p := SetupTag(r, FreeTags(r)), Reopened(r);
      var e := p + NumTags(ts);
      SetupOpens(r);
      SetupKeepsQueued(r);
      AppendAllExtends(r1, r.mem, ts, HwSlot(r1), p, e);
      var r2 := AppendAll(r1, ts);
      assert Appended(r1, r2, HwSlot(r1), p, e, REFE);
    }
  }

  lemma AppendIndex(r: Ring, t: Transfer, id: TagId)
    requires Shape(r) && Sendable(t)
    ensures var r' := Append(r, t, id);
            r'.index == SlotAt(r.index, TagsOf(t)) && r'.tadr == r.tadr && r'.qwc == r.qwc && r'.mem == r.mem
  {
  }

  lemma {:induction false} AppendAllIndex(r: Ring, ts: seq<Transfer>)
    requires Shape(r) && AllSendable(ts) && NumTags(ts) <= 31
    ensures var r' := AppendAll(r, ts);
            r'.index == SlotAt(r.index, NumTags(ts)) && r'.tadr == r.tadr && r'.qwc == r.qwc && r'.mem == r.mem
    decreases |ts|
  {
    if ts != [] {
      var id := if |ts| == 1 then REFE else REF;
      AppendIndex(r, ts[0], id);
      AppendAllIndex(Append(r, ts[0], id), ts[1..]);
    }
  }

  lemma SafeWhenSmall(r: Ring, ts: seq<Transfer>)
    requires NumTags(ts) <= 29
    ensures Safe(r, ts)
  {
  }

  // ------------------------------------------------------------- controller

  lemma {:induction false} RunsHead(r: Ring, h: nat, p: nat)
    requires Shape(r) && h < RING && 0 < p <= RING
    ensures Runs(r, h, p) == ReadTag(r, h) + Runs(r, NextSlot(h), p - 1)
  {
    if p == 1 {
      assert Runs(r, h, 1) == Runs(r, h, 0) + ReadTag(r, h);
    } else {
      RunsHead(r, h, p - 1);
      var s := SlotAt(h, p - 1);
      assert s == SlotAt(NextSlot(h), p - 2);
      Assoc(ReadTag(r, h), Runs(r, NextSlot(h), p - 2), ReadTag(r, s));
    }
  }

  lemma FetchInv(r: Ring)
    requires Inv(r) && r.running && r.qwc == 0 && !r.ending && r.tadr != JUMP_SLOT
    ensures var r' := Dmac(r).0; Inv(r') && HwSlot(r') == NextSlot(HwSlot(r)) && Unfetched(r') == Unfetched(r) - 1
  {
    var r', h, p := Dmac(r).0, HwSlot(r), Unfetched(r);
    assert p > 0 && Offset(h, h) == 0 && GoodTag(h, r.tags[h]);
    var h' := NextSlot(h);
    forall s | 0 <= s < RING && Offset(h', s) < p - 1 ensures Offset(h, s) == Offset(h', s) + 1 {}
  }

  lemma FetchData(r: Ring, r': Ring, h: nat, p: nat)
    requires Shape(r) && Shape(r') && h < RING && 0 < p <= RING && r.qwc == 0
    requires r'.tags == r.tags && r'.staging == r.staging && r'.mem == r.mem
    requires r'.madr == r.tags[h].addr && r'.qwc == r.tags[h].qwc
    ensures ReadRun(r', r'.madr, r'.qwc) + Runs(r', NextSlot(h), p - 1) == ReadRun(r, r.madr, r.qwc) + Runs(r, h, p)
  {
    RunsHead(r, h, p);
    RegsFrame(r, r', NextSlot(h), p - 1, r'.madr, r'.qwc);
    assert ReadRun(r, r.madr, r.qwc) == [];
  }

  lemma FetchKeeps(r: Ring)
    requires Inv(r) && r.running && r.qwc == 0 && !r.ending && r.tadr != JUMP_SLOT
    ensures var r' := Dmac(r).0; Inv(r') && Outstanding(r') == Outstanding(r) && Unfetched(r') == Unfetched(r) - 1
  {
    var r', h, p := Dmac(r).0, HwSlot(r), Unfetched(r);
    FetchInv(r);
    assert p > 0;
    FetchData(r, r', h, p);
  }

  lemma MoveRun(r: Ring, r': Ring)
    requires Shape(r) && Shape(r') && r.qwc > 0
    requires r' == r.(madr := Plus(r.madr, 1), qwc := r.qwc - 1)
    ensures ReadRun(r, r.madr, r.qwc) == [Read(r, r.madr)] + ReadRun(r', r'.madr, r'.qwc)
  {
    var x, y := ReadRun(r, r.madr, r.qwc), [Read(r, r.madr)] + ReadRun(r', r'.madr, r'.qwc);
    forall i | 0 <= i < |x| ensures x[i] == y[i] {
      if i > 0 { assert Plus(r'.madr, i - 1) == Plus(r.madr, i); }
    }
  }

  lemma MoveKeeps(r: Ring)
    requires Inv(r) && r.running && r.qwc > 0
    ensures var (r', out) := Dmac(r); Inv(r') && Outstanding(r) == out + Outstanding(r') && |out| == 1
  {
    var (r', out) := Dmac(r);
    var h, p := HwSlot(r), Unfetched(r);
    RegsFrame(r, r', h, p, r'.madr, r'.qwc);
    MoveRun(r, r');
    Assoc(out, ReadRun(r', r'.madr, r'.qwc), Runs(r', h, p));
  }

  /** Steps left before the channel stops on its own. */
  function Work(r: Ring): int
    requires Shape(r)
  {
    |Outstanding(r)| + 2 * Unfetched(r) + (if r.tadr == JUMP_SLOT then 1 else 0) + (if r.running then 1 else 0)
  }

  /** The next step of the controller fetches a tag. */
  predicate Fetches(r: Ring)
    requires Shape(r)
  {
    r.running && r.qwc == 0 && !r.ending && r.tags[r.tadr].id != NEXT
  }

  /** A controller step sends the head of what is outstanding, or nothing, and makes progress. */
  lemma DmacCorrect(r: Ring)
    requires Inv(r)
    ensures var (r', out) := Dmac(r);
            && Inv(r') && r'.mem == r.mem
            && Outstanding(r) == out + Outstanding(r')
            && Unfetched(r') == Unfetched(r) - (if Fetches(r) then 1 else 0)
            && (r.running ==> 0 <= Work(r') < Work(r))
  {
    var (r', out) := Dmac(r);
    if !r.running {
      assert [] + Outstanding(r) == Outstanding(r);
    } else if r.qwc > 0 {
      MoveKeeps(r);
    } else if r.ending {
      assert Outstanding(r) == [] == Outstanding(r');
    } else if r.tadr == JUMP_SLOT {
      RegsFrame(r, r', 0, Unfetched(r), r.madr, 0);
      assert Outstanding(r) == [] + Outstanding(r');
    } else {
      assert Offset(r.tadr, r.tadr) == 0;
      FetchKeeps(r);
      assert Outstanding(r) == [] + Outstanding(r');
    }
  }

  // ------------------------------------------------------------------- runs

  /** Main memory that the controller has still to read. */
  predicate Unread(r: Ring, a: int)
    requires Shape(r)
  {
    || (r.qwc > 0 && r.madr.Main? && r.madr.qw <= a < r.madr.qw + r.qwc)
    || exists s :: 0 <= s < RING && Offset(HwSlot(r), s) < Unfetched(r) && r.tags[s].addr.Main?
                   && r.tags[s].addr.qw <= a < r.tags[s].addr.qw + r.tags[s].qwc
  }

  datatype Event = Request(ts: seq<Transfer>) | Controller | Store(a: int, v: Quad)

  /** `queued` counts tags written less tags fetched; rewinding the tag in transfer gives it back. */
  datatype Sys = Sys(ring: Ring, accepted: seq<Quad>, delivered: seq<Quad>, queued: int)

  /** Callers leave source data alone until it has been sent. */
  predicate Enabled(s: Sys, e: Event)
    requires Shape(s.ring)
  {
    match e
    case Request(ts) => ts != [] && AllSendable(ts)
    case Controller => true
    case Store(a, v) => !Unread(s.ring, a)
  }

  predicate SafeEvent(s: Sys, e: Event) {
    e.Request? ==> Safe(s.ring, e.ts)
  }

  lemma {:induction false} AppendAllShape(r: Ring, ts: seq<Transfer>)
    requires Shape(r)
    ensures Shape(AppendAll(r, ts))
    decreases |ts|
  {
    if ts != [] { AppendAllShape(Append(r, ts[0], if |ts| == 1 then REFE else REF), ts[1..]); }
  }

  lemma SetDmaShape(r: Ring, ts: seq<Transfer>)
    requires Shape(r) && ts != []
    ensures Shape(SetDma(r, ts))
  {
    AppendAllShape(SetupTag(r, FreeTags(r)), ts);
  }

  function Step(s: Sys, e: Event): (s': Sys)
    requires Shape(s.ring) && Enabled(s, e)
    ensures Shape(s'.ring)
  {
    match e
    case Request(ts) =>
      SetDmaShape(s.ring, ts);
      if Accepts(s.ring, ts) then
        var given := if FreeTags(s.ring) == 30 then 1 else 0;
        Sys(SetDma(s.ring, ts), s.accepted + Packets(s.ring.mem, ts), s.delivered, s.queued + given + NumTags(ts))
      else s.(ring := SetDma(s.ring, ts))
    case Controller =>
      var (r, out) := Dmac(s.ring);
      Sys(r, s.accepted, s.delivered + out, if Fetches(s.ring) then s.queued - 1 else s.queued)
    case Store(a, v) =>
      var m := s.ring.mem;
      s.(ring := s.ring.(mem := x => if x == a then v else m(x)))
  }

  ghost predicate InOrder(s: Sys) {
    Inv(s.ring) && s.delivered + Outstanding(s.ring) == s.accepted && s.queued == Unfetched(s.ring)
  }

  lemma {:induction false} StoreRuns(r: Ring, r': Ring, a: int, h: nat, p: nat)
    requires Shape(r) && Shape(r') && h == HwSlot(r) && p <= Unfetched(r)
    requires r' == r.(mem := r'.mem) && !Unread(r, a) && forall x :: x != a ==> r'.mem(x) == r.mem(x)
    ensures Runs(r, h, p) == Runs(r', h, p)
  {
    if p > 0 {
      StoreRuns(r, r', a, h, p - 1);
      var s := SlotAt(h, p - 1);
      assert Offset(h, s) == p - 1;
      assert ReadTag(r, s) == ReadTag(r', s);
    }
  }

  lemma StoreKeeps(r: Ring, r': Ring, a: int)
    requires Inv(r) && Shape(r')
    requires r' == r.(mem := r'.mem) && !Unread(r, a) && forall x :: x != a ==> r'.mem(x) == r.mem(x)
    ensures Inv(r') && Outstanding(r') == Outstanding(r)
  {
    StoreRuns(r, r', a, HwSlot(r), Unfetched(r));
    assert ReadRun(r, r.madr, r.qwc) == ReadRun(r', r.madr, r.qwc);
  }

  lemma StepInOrder(s: Sys, e: Event)
    requires InOrder(s) && Enabled(s, e) && SafeEvent(s, e)
    ensures InOrder(Step(s, e))
    ensures s.delivered <= Step(s, e).delivered && s.accepted <= Step(s, e).accepted
  {
    match e
    case Request(ts) =>
      SetDmaCorrect(s.ring, ts);
      FreeTagsMeaning(s.ring);
      Assoc(s.delivered, Outstanding(s.ring), Packets(s.ring.mem, ts));
      assert s.delivered + (Outstanding(s.ring) + []) == s.accepted;
    case Controller =>
      DmacCorrect(s.ring);
      var (r, out) := Dmac(s.ring);
      Assoc(s.delivered, out, Outstanding(r));
    case Store(a, v) =>
      StoreKeeps(s.ring, Step(s, e).ring, a);
  }

  ghost predicate Runnable(s: Sys, es: seq<Event>)
    requires Shape(s.ring)
    decreases |es|
  {
    es == [] || (Enabled(s, es[0]) && Runnable(Step(s, es[0]), es[1..]))
  }

  ghost function After(s: Sys, es: seq<Event>): Sys
    requires Shape(s.ring) && Runnable(s, es)
    decreases |es|
  {
    if es == [] then s else After(Step(s, es[0]), es[1..])
  }

  /** Every request of the run is safe when it is made. */
  ghost predicate SafeRun(s: Sys, es: seq<Event>)
    requires Shape(s.ring) && Runnable(s, es)
    decreases |es|
  {
    es == [] || (SafeEvent(s, es[0]) && SafeRun(Step(s, es[0]), es[1..]))
  }

  lemma {:induction false} RunInOrder(s: Sys, es: seq<Event>)
    requires InOrder(s) && Runnable(s, es) && SafeRun(s, es)
    ensures InOrder(After(s, es))
    decreases |es|
  {
    if es != [] {
      StepInOrder(s, es[0]);
      RunInOrder(Step(s, es[0]), es[1..]);
    }
  }

  function PowerUp(r: Ring): Sys {
    Sys(r, [], [], 0)
  }

  lemma PowerUpInOrder(r: Ring)
    requires Initial(r) && Shape(r)
    ensures InOrder(PowerUp(r))
  {
    assert Unfetched(r) == 0 && Outstanding(r) == [];
  }

  /** For every interleaving from power-up: what the IOP received is a prefix of the packets of
      the accepted transfers, in acceptance order, and all of it once the channel is at rest. */
  lemma DeliveredInOrder(r: Ring, es: seq<Event>)
    requires Initial(r) && Shape(r) && Runnable(PowerUp(r), es) && SafeRun(PowerUp(r), es)
    ensures var s := After(PowerUp(r), es);
            s.delivered <= s.accepted && (!s.ring.running ==> s.delivered == s.accepted)
  {
    PowerUpInOrder(r);
    RunInOrder(PowerUp(r), es);
    var s := After(PowerUp(r), es);
    assert !s.ring.running ==> Outstanding(s.ring) == [];
  }

  /** The controller runs alone. */
  function Controllers(n: nat): (es: seq<Event>)
    ensures |es| == n
  {
    if n == 0 then [] else [Controller] + Controllers(n - 1)
  }

  lemma RunFirst(s: Sys, m: nat, n: nat)
    requires Shape(s.ring) && n == m + 1
    ensures Runnable(s, Controllers(n)) <==> Runnable(Step(s, Controller), Controllers(m))
    ensures Runnable(s, Controllers(n)) ==> After(s, Controllers(n)) == After(Step(s, Controller), Controllers(m))
    ensures Runnable(s, Controllers(n)) ==> (SafeRun(s, Controllers(n)) <==> SafeRun(Step(s, Controller), Controllers(m)))
  {
    var es := Controllers(n);
    assert es[0] == Controller && es[1..] == Controllers(m);
  }

  /** Left alone, the controller sends everything that was accepted and stops. */
  lemma {:induction false} Drains(s: Sys) returns (n: nat)
    requires InOrder(s)
    ensures var es := Controllers(n);
            && Runnable(s, es) && !After(s, es).ring.running
            && After(s, es).delivered == s.accepted && After(s, es).accepted == s.accepted
    decreases Work(s.ring)
  {
    if !s.ring.running {
      n := 0;
      assert Outstanding(s.ring) == [];
    } else {
      DmacCorrect(s.ring);
      StepInOrder(s, Controller);
      var m := Drains(Step(s, Controller));
      n := m + 1;
      RunFirst(s, m, n);
    }
  }
}
