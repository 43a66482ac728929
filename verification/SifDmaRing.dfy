/**
  The SIF1 transmit ring: the EE appends DMA tags to a cyclic list of 31 slots
  while the DMA controller walks the same list.

  `Ring` holds what the two sides share: the software index, the tag and staging
  arrays, the channel registers and main memory.  The functions below are the
  routines of the driver and the single steps of the controller; the theorems
  about every interleaving of the two are in `SifDmaProofs` and `SifDmaUnsafe`.
 */
module SifDmaRing {

  /** Slots 0..30 hold tags; slot 31 is the jump back to slot 0. */
  const RING: nat := 31
  const JUMP_SLOT: nat := 31
  /** Payload quadwords that travel in the staging buffer behind the IOP tag. */
  const FIRST_PAYLOAD: nat := 7
  const QWC_SIZE: nat := 16
  const MAX_QWC: nat := 0xFFFF

  /** One 128-bit quadword, as two 32-bit words and the upper 64 bits. */
  datatype Quad = Quad(w0: nat, w1: nat, hi: nat)

  /** A quadword address: inside the staging buffer of a slot, or in main memory. */
  datatype Addr = Staging(slot: nat, off: nat) | Main(qw: int)

  datatype TagId = REFE | NEXT | REF

  datatype Tag = Tag(id: TagId, irq: bool, qwc: nat, addr: Addr)

  /** The tag the IOP reads first, with the quadwords staged behind it. */
  datatype IopTag = IopTag(addr: nat, size: nat, data: seq<Quad>)

  datatype Transfer = Transfer(src: int, dest: nat, size: nat,
                               intI: bool, intO: bool, ert: bool, dmatag: bool)

  datatype Ring = Ring(
    index: nat, count: nat,
    tags: seq<Tag>, staging: seq<IopTag>,
    tadr: nat, qwc: nat, madr: Addr,
    running: bool, ending: bool,
    mem: int -> Quad)

  ghost predicate Shape(r: Ring) {
    && |r.tags| == 32 && |r.staging| == 32
    && r.index < RING && r.tadr <= JUMP_SLOT
    && r.tags[JUMP_SLOT] == Tag(NEXT, false, 0, Main(0))
    && forall s :: 0 <= s < 32 ==> |r.staging[s].data| == FIRST_PAYLOAD
  }

  // ---------------------------------------------------------------- software

  function NextSlot(s: nat): nat {
    if s + 1 == RING then 0 else s + 1
  }

  function QwcOf(size: nat): nat {
    (size + QWC_SIZE - 1) / QWC_SIZE
  }

  /** The first word of the IOP tag: 24 address bits and two flags. */
  function HeaderAddr(t: Transfer): nat {
    t.dest % 0x1000000 + (if t.intO then 0x40000000 else 0) + (if t.ert then 0x80000000 else 0)
  }

  function Copied(data: seq<Quad>, mem: int -> Quad, src: int, n: nat): (d: seq<Quad>)
    ensures |d| == |data|
  {
    seq(|data|, i requires 0 <= i < |data| => if i < n then mem(src + i) else data[i])
  }

  /** SET_NEXT_DMATAG: the 16-bit lap counter moves when the index wraps. */
  function Advance(r: Ring): Ring {
    if r.index + 1 == RING
    then r.(index := 0, count := (r.count + 1) % 0x10000)
    else r.(index := r.index + 1)
  }

  /** Take the next slot and write its tag and staging entry. */
  function Put(r: Ring, tag: Tag, iop: IopTag): (r': Ring)
    requires Shape(r) && |iop.data| == FIRST_PAYLOAD
    ensures Shape(r')
  {
    var a := Advance(r);
    a.(tags := r.tags[a.index := tag], staging := r.staging[a.index := iop])
  }

  /** The first of two tags: the IOP tag with the first seven quadwords. */
  function LongHead(r: Ring, t: Transfer): (r': Ring)
    requires Shape(r)
    ensures Shape(r')
  {
    var n := NextSlot(r.index);
    Put(r, Tag(REF, false, 8, Staging(n, 0)),
        IopTag(HeaderAddr(t), QwcOf(t.size) * 4, Copied(r.staging[n].data, r.mem, t.src, FIRST_PAYLOAD)))
  }

  /** The second: the rest of the data, read from the source itself. */
  function LongTail(r: Ring, t: Transfer, id: TagId): (r': Ring)
    requires Shape(r) && QwcOf(t.size) >= 8
    ensures Shape(r')
  {
    Put(r, Tag(id, t.intI, QwcOf(t.size) - FIRST_PAYLOAD, Main(t.src + FIRST_PAYLOAD)), r.staging[NextSlot(r.index)])
  }

  /** sif_dma_transfer: one tag, or two when more than seven quadwords of data follow. */
  function Append(r: Ring, t: Transfer, id: TagId): (r': Ring)
    requires Shape(r)
    ensures Shape(r')
  {
    var n := NextSlot(r.index);
    var q := QwcOf(t.size);
    var stale := r.staging[n].data;
    if t.dmatag then
      var words := (q + 0x100000000 - 1) * 4 % 0x100000000;
      Put(r, Tag(id, t.intI, q, Staging(n, 0)), IopTag(HeaderAddr(t), words, stale))
    else if q >= 8 then
      LongTail(LongHead(r, t), t, id)
    else
      Put(r, Tag(id, t.intI, q + 1, Staging(n, 0)),
          IopTag(HeaderAddr(t), q * 4, Copied(stale, r.mem, t.src, q)))
  }

  /** All transfers but the last end in REF, the last in REFE. */
  function AppendAll(r: Ring, ts: seq<Transfer>): Ring
    requires Shape(r)
    decreases |ts|
  {
    if ts == [] then r
    else AppendAll(Append(r, ts[0], if |ts| == 1 then REFE else REF), ts[1..])
  }

  /** The slot before the hardware pointer; both 0 and 31 mean slot 30. */
  function HwIndex(tadr: nat): nat {
    if tadr > 0 then tadr - 1 else 30
  }

  /** sif_get_number_of_free_dma_tags */
  function FreeTags(r: Ring): int {
    var hw := HwIndex(r.tadr);
    if hw == r.index then (if r.qwc != 0 then 30 else 31)
    else if hw < r.index then hw - r.index + 30
    else hw - r.index - 1
  }

  function TagsOf(t: Transfer): nat {
    if t.dmatag || t.size <= FIRST_PAYLOAD * QWC_SIZE then 1 else 2
  }

  function NumTags(ts: seq<Transfer>): nat {
    if ts == [] then 0 else TagsOf(ts[0]) + NumTags(ts[1..])
  }

  /** sif_dma_setup_tag */
  function SetupTag(r: Ring, free: int): Ring
    requires Shape(r)
  {
    if free == 31 then r
    else if free == 30 then
      r.(tags := r.tags[r.index := Tag(REF, r.tags[r.index].irq, r.qwc, r.madr)],
         qwc := 0, tadr := r.index)
    else
      // REF is 3, so or-ing it into any of the three ids gives REF.
      r.(tags := r.tags[r.index := r.tags[r.index].(id := REF)])
  }

  function RequestId(r: Ring, ntags: nat): nat {
    var start := (r.index + 1) % 31;
    var count := if start != 0 then r.count else r.count + 1;
    count * 0x10000 % 0x100000000 + start * 0x100 + ntags % 0x100
  }

  function Accepts(r: Ring, ts: seq<Transfer>): bool {
    NumTags(ts) <= FreeTags(r)
  }

  /** SifSetDma: the channel is stopped, which also drops the latched tag id, and restarted. */
  function SetDma(r: Ring, ts: seq<Transfer>): Ring
    requires Shape(r) && ts != []
  {
    var r0 := if Accepts(r, ts) then AppendAll(SetupTag(r, FreeTags(r)), ts) else r;
    r0.(running := true, ending := false)
  }

  function SetDmaId(r: Ring, ts: seq<Transfer>): nat {
    if Accepts(r, ts) then RequestId(r, NumTags(ts)) else 0
  }

  /** sif_dma_init */
  predicate Initial(r: Ring) {
    && |r.tags| == 32 && |r.staging| == 32
    && r.index == 30 && r.count == 0xFFFF && r.tadr == 0 && r.qwc == 0
    && !r.running && !r.ending
    && r.tags[JUMP_SLOT] == Tag(NEXT, false, 0, Main(0))
    && forall s :: 0 <= s < 32 ==> |r.staging[s].data| == FIRST_PAYLOAD
  }

  // -------------------------------------------------------------- controller

  function Plus(a: Addr, k: int): Addr {
    match a
    case Staging(s, o) => if o + k >= 0 then Staging(s, o + k) else a
    case Main(q) => Main(q + k)
  }

  /** The quadword at an address; the upper half of the IOP tag is never written and stays zero. */
  function Read(r: Ring, a: Addr): Quad {
    match a
    case Staging(s, o) =>
      if s < |r.staging| && o == 0 then Quad(r.staging[s].addr, r.staging[s].size, 0)
      else if s < |r.staging| && o - 1 < |r.staging[s].data| then r.staging[s].data[o - 1]
      else Quad(0, 0, 0)
    case Main(q) => r.mem(q)
  }

  /** One step of the controller, with the quadword it sends, if any. */
  function Dmac(r: Ring): (Ring, seq<Quad>)
    requires Shape(r)
  {
    if !r.running then (r, [])
    else if r.qwc > 0 then
      (r.(madr := Plus(r.madr, 1), qwc := r.qwc - 1), [Read(r, r.madr)])
    else if r.ending then (r.(running := false), [])
    else
      var tag := r.tags[r.tadr];
      if tag.id == NEXT then (r.(tadr := 0), [])
      else (r.(tadr := r.tadr + 1, madr := tag.addr, qwc := tag.qwc, ending := tag.id == REFE), [])
  }
}
