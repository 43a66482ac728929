/**
  The driver itself, updating its tag and staging arrays and the channel registers in place.
  Every method is proved to do what the function of the same routine in `SifDmaRing` says, so
  the theorems of `SifDmaProofs` are about this code.
 */
module SifDmaDriver {
  import opened SifDmaRing

  class Driver {
    var index: nat
    var count: nat
    const tags: array<Tag>
    const staging: array<IopTag>

    // SIF1 channel: TADR as a slot number, QWC, MADR, CHCR.STR and the latched end of chain
    var tadr: nat
    var qwc: nat
    var madr: Addr
    var running: bool
    var ending: bool

    var mem: int -> Quad

    ghost function View(): Ring
      reads this, tags, staging
    {
      Ring(index, count, tags[..], staging[..], tadr, qwc, madr, running, ending, mem)
    }

    ghost predicate Valid()
      reads this, tags, staging
    {
      Shape(View())
    }

    /** sif_dma_init, on a main memory the driver does not own. */
    constructor (mem: int -> Quad)
      ensures Valid() && Initial(View()) && View().mem == mem
      ensures forall k :: 0 <= k < RING ==> tags[k] == Tag(REFE, false, 0, Main(0))
      ensures fresh(tags) && fresh(staging)
    {
      var blank := IopTag(0, 0, seq(FIRST_PAYLOAD, _ => Quad(0, 0, 0)));
      var t := new Tag[32](_ => Tag(REFE, false, 0, Main(0)));
      var s := new IopTag[32](_ => blank);
      tags := t;
      staging := s;
      count := 0xFFFF;
      index := 30;
      qwc := 0;
      tadr := 0;
      madr := Main(0);
      running, ending := false, false;
      this.mem := mem;
      new;
      tags[JUMP_SLOT] := Tag(NEXT, false, 0, Main(0));
      assert forall k :: 0 <= k < 32 ==> staging[k] == blank;
    }

    method SetNextDmaTag()
      requires Valid()
      modifies this`index, this`count
      ensures Valid() && View() == Advance(old(View()))
    {
      index := index + 1;
      if index == RING {
        index := 0;
        count := (count + 1) % 0x10000;
      }
    }

    /** Copy source quadwords behind the IOP tag of a slot. */
    method CopyPayload(slot: nat, src: int, n: nat)
      requires Valid() && slot < RING && n <= FIRST_PAYLOAD
      modifies staging
      ensures Valid()
      ensures staging[..] == old(staging[..])[slot := old(staging[slot]).(data := Copied(old(staging[slot].data), mem, src, n))]
      ensures forall i :: 0 <= i < FIRST_PAYLOAD ==>
                staging[slot].data[i] == if i < n then mem(src + i) else old(staging[slot].data[i])
    {
      var i := 0;
      ghost var before := staging[slot];
      assert Copied(before.data, mem, src, 0) == before.data;
      while i < n
        invariant 0 <= i <= n
        invariant forall k :: 0 <= k < 32 && k != slot ==> staging[k] == old(staging[k])
        invariant staging[slot] == before.(data := Copied(before.data, mem, src, i))
      {
        var entry := staging[slot];
        staging[slot] := entry.(data := entry.data[i := mem(src + i)]);
        i := i + 1;
        assert staging[slot].data == Copied(before.data, mem, src, i);
      }
    }

    /** The tail of sif_dma_transfer: the two words of the IOP tag. */
    method WriteHeader(slot: nat, t: Transfer, words: nat)
      requires Valid() && slot < RING
      modifies staging
      ensures Valid()
      ensures staging[..] == old(staging[..])[slot := IopTag(HeaderAddr(t), words, old(staging[slot].data))]
    {
      staging[slot] := IopTag(HeaderAddr(t), words, staging[slot].data);
    }

    /** The first tag of a split transfer. */
    method TransferHead(t: Transfer)
      requires Valid()
      modifies this`index, this`count, tags, staging
      ensures Valid() && View() == LongHead(old(View()), t)
    {
      SetNextDmaTag();
      tags[index] := Tag(REF, false, 8, Staging(index, 0));
      CopyPayload(index, t.src, FIRST_PAYLOAD);
      WriteHeader(index, t, QwcOf(t.size) * 4);
    }

    /** The second tag of a split transfer. */
    method TransferTail(t: Transfer, id: TagId)
      requires Valid() && QwcOf(t.size) >= 8
      modifies this`index, this`count, tags
      ensures Valid() && View() == LongTail(old(View()), t, id)
    {
      SetNextDmaTag();
      tags[index] := Tag(id, t.intI, QwcOf(t.size) - FIRST_PAYLOAD, Main(t.src + FIRST_PAYLOAD));
      assert staging[..] == old(staging[..])[index := old(staging[..])[index]];
    }

    method TransferShort(t: Transfer, id: TagId)
      requires Valid() && (t.dmatag || QwcOf(t.size) < 8)
      modifies this`index, this`count, tags, staging
      ensures Valid() && View() == Append(old(View()), t, id)
    {
      var q := QwcOf(t.size);
      SetNextDmaTag();
      var slot := index;
      if t.dmatag {
        tags[slot] := Tag(id, t.intI, q, Staging(slot, 0));
        WriteHeader(slot, t, (q + 0x100000000 - 1) * 4 % 0x100000000);
      } else {
        tags[slot] := Tag(id, t.intI, q + 1, Staging(slot, 0));
        CopyPayload(slot, t.src, q);
        WriteHeader(slot, t, q * 4);
      }
      assert staging[..] == Append(old(View()), t, id).staging;
      assert tags[..] == Append(old(View()), t, id).tags;
    }

    /** sif_dma_transfer */
    method DmaTransfer(t: Transfer, id: TagId)
      requires Valid()
      modifies this`index, this`count, tags, staging
      ensures Valid() && View() == Append(old(View()), t, id)
    {
      if !t.dmatag && QwcOf(t.size) >= 8 {
        TransferHead(t);
        TransferTail(t, id);
      } else {
        TransferShort(t, id);
      }
    }

    /** sif_get_number_of_free_dma_tags */
    method NumberOfFreeDmaTags() returns (free: int)
      requires Valid()
      ensures free == FreeTags(View())
    {
      var hw := tadr;
      hw := if hw > 0 then hw - 1 else 30;
      if hw == index {
        return if qwc != 0 then 30 else 31;
      }
      if hw < index {
        return hw - index + 30;
      }
      return hw - index - 1;
    }

    /** sif_dma_setup_tag */
    method SetupLastTag(free: int)
      requires Valid()
      modifies this`qwc, this`tadr, tags
      ensures Valid() && View() == SetupTag(old(View()), free)
    {
      if free == 31 {
        return;
      }
      if free == 30 {
        tags[index] := Tag(REF, tags[index].irq, qwc, madr);
        qwc := 0;
        tadr := index;
      } else {
        tags[index] := tags[index].(id := REF);
      }
    }

    method CountTags(ts: seq<Transfer>) returns (n: nat)
      ensures n == NumTags(ts)
    {
      n := 0;
      var i := 0;
      while i < |ts|
        invariant 0 <= i <= |ts| && n + NumTags(ts[i..]) == NumTags(ts)
      {
        n := n + if ts[i].dmatag || ts[i].size <= FIRST_PAYLOAD * QWC_SIZE then 1 else 2;
        assert ts[i..][1..] == ts[i + 1..];
        i := i + 1;
      }
    }

    /** SifSetDma */
    method SifSetDma(ts: seq<Transfer>) returns (id: nat)
      requires Valid() && ts != []
      modifies this`index, this`count, this`qwc, this`tadr, this`running, this`ending, tags, staging
      ensures Valid() && View() == SetDma(old(View()), ts) && id == SetDmaId(old(View()), ts)
    {
      id := 0;
      var free := NumberOfFreeDmaTags();
      var ntags := CountTags(ts);
      if ntags <= free {
        var start := (index + 1) % 31;
        var lap := if start != 0 then count else count + 1;
        id := lap * 0x10000 % 0x100000000 + start * 0x100 + ntags % 0x100;
        SetupLastTag(free);
        AppendEach(ts);
      }
      // The channel is stopped throughout, so clearing CHCR shows only in the lost tag id.
      running, ending := true, false;
    }

    /** The two transfer loops of SifSetDma. */
    method AppendEach(ts: seq<Transfer>)
      requires Valid() && ts != []
      modifies this`index, this`count, tags, staging
      ensures Valid() && View() == AppendAll(old(View()), ts)
    {
      ghost var first := View();
      var i := 0;
      while i < |ts| - 1
        invariant 0 <= i < |ts| && Valid()
        invariant AppendAll(View(), ts[i..]) == AppendAll(first, ts)
      {
        DmaTransfer(ts[i], REF);
        assert ts[i..][1..] == ts[i + 1..];
        i := i + 1;
      }
      assert ts[i..] == [ts[i]] && ts[i..][1..] == [];
      DmaTransfer(ts[i], REFE);
    }

  }
}
