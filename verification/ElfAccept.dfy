/**
  Which kernels check_sections32 accepts, and why it refuses the others, by the words of the file:
  e_entry at byte 24, e_phnum at 44, and program header `i` at 52 + 32 * i with p_type, p_offset,
  p_paddr, p_filesz and p_memsz at 0, 4, 12, 16 and 20.
 */
module ElfAccept {
  import opened ByteImage
  import opened ElfLoader

  const MEGABYTES_128: nat := 128 * 1024 * 1024

  /** An address in the cached or the uncached window on physical memory. */
  predicate InWindow(a: nat) {
    0x8000_0000 <= a < 0x9000_0000 || 0xA000_0000 <= a < 0xB000_0000
  }

  /** The physical address behind it. */
  function Behind(a: nat): int {
    if a >= 0xA000_0000 then a - 0xA000_0000 else a - 0x8000_0000
  }

  lemma WindowExact(a: nat)
    requires a < 0x1_0000_0000
    ensures InWindow(a) <==> Reachable(a)
    ensures InWindow(a) ==> Behind(a) == Phys(a)
  {
  }

  predicate Listed(buf: Bytes, i: nat) {
    i < U16(buf, 44) && U32(buf, 52 + 32 * i) == 1 && U32(buf, 52 + 32 * i + 20) != 0
  }

  function End(buf: Bytes, i: nat): int {
    var p := 52 + 32 * i;
    var filesz, memsz := U32(buf, p + 16), U32(buf, p + 20);
    (Behind(U32(buf, p + 12)) + if memsz < filesz then filesz else memsz) % 0x1_0000_0000
  }

  /** Why a header is refused; the tests are made in this order. */
  datatype Fault = BadSize | Truncated | Unreachable | TooLow | TooHigh

  predicate Has(buf: Bytes, i: nat, start: nat, end: nat, f: Fault) {
    var p := 52 + 32 * i;
    var offset, paddr, filesz := U32(buf, p + 4), U32(buf, p + 12), U32(buf, p + 16);
    match f
    case BadSize => filesz != 0 && (filesz > MEGABYTES_128 || offset > MEGABYTES_128)
    case Truncated => filesz != 0 && offset + filesz >= |buf|
    case Unreachable => !InWindow(paddr)
    case TooLow => Behind(paddr) < start
    case TooHigh => End(buf, i) >= end
  }

  function CodeOf(f: Fault): int {
    match f
    case BadSize => -31
    case Truncated => -30
    case Unreachable => -2
    case TooLow => -3
    case TooHigh => -4
  }

  function Rank(f: Fault): nat {
    match f
    case BadSize => 0
    case Truncated => 1
    case Unreachable => 2
    case TooLow => 3
    case TooHigh => 4
  }

  /** The first fault of a header. */
  predicate First(buf: Bytes, i: nat, start: nat, end: nat, f: Fault) {
    Has(buf, i, start, end, f) && forall g :: Rank(g) < Rank(f) ==> !Has(buf, i, start, end, g)
  }

  predicate Good(buf: Bytes, i: nat, start: nat, end: nat) {
    forall f :: !Has(buf, i, start, end, f)
  }

  predicate Covers(buf: Bytes, i: nat, entry: int) {
    Listed(buf, i) && Behind(U32(buf, 52 + 32 * i + 12)) <= entry < End(buf, i)
  }

  lemma Words32(buf: Bytes, p: nat)
    ensures U32(buf, p) < 0x1_0000_0000
  {
  }

  lemma EndIsLast(dest: nat, size: nat)
    requires dest < 0x1_0000_0000 && size < 0x1_0000_0000
    ensures (dest + size) % 0x1_0000_0000 == Wrapped(dest + size)
  {
  }

  /** The header as `ElfLoader` reads it. */
  lemma Fields(buf: Bytes, i: nat) returns (h: Phdr)
    requires i < U16(buf, 44)
    ensures i < |Headers(buf)| && h == Headers(buf)[i] && (Loads(h) <==> Listed(buf, i))
    ensures var p := 52 + 32 * i;
            && h.offset == U32(buf, p + 4) && h.paddr == U32(buf, p + 12) && h.filesz == U32(buf, p + 16) && h.memsz == U32(buf, p + 20)
            && (InWindow(h.paddr) <==> Reachable(h.paddr)) && h.dest == Phys(h.paddr)
            && (InWindow(h.paddr) ==> h.dest == Behind(h.paddr) && Last(h) == End(buf, i))
  {
    h := Headers(buf)[i];
    HeaderRange(buf, i);
    Words32(buf, 52 + 32 * i + 12);
    WindowExact(h.paddr);
    EndIsLast(h.dest, Size(h));
  }

  /** The code of a header names its first fault. */
  lemma HeaderExact(buf: Bytes, i: nat, start: nat, end: nat, f: Fault)
    requires Listed(buf, i)
    ensures i < |Headers(buf)|
    ensures var c := HeaderCode(Headers(buf)[i], |buf|, start, end);
            (c == 0 <==> Good(buf, i, start, end)) && (c == CodeOf(f) <==> First(buf, i, start, end, f))
  {
    var h := Fields(buf, i);
    var c := HeaderCode(h, |buf|, start, end);
    var a, b, u := Has(buf, i, start, end, BadSize), Has(buf, i, start, end, Truncated), Has(buf, i, start, end, Unreachable);
    var l, t := Has(buf, i, start, end, TooLow), Has(buf, i, start, end, TooHigh);
    assert c == if a then -31 else if b then -30 else if u then -2 else if l then -3 else if t then -4 else 0;
    assert Good(buf, i, start, end) <==> !a && !b && !u && !l && !t;
    match f
    case BadSize =>
    case Truncated => assert Rank(BadSize) < Rank(f);
    case Unreachable => assert Rank(BadSize) < Rank(Truncated) < Rank(f);
    case TooLow => assert Rank(BadSize) < Rank(Truncated) < Rank(Unreachable) < Rank(f);
    case TooHigh => assert Rank(BadSize) < Rank(Truncated) < Rank(Unreachable) < Rank(TooLow) < Rank(f);
  }

  lemma FaultOf(buf: Bytes, i: nat, start: nat, end: nat) returns (f: Fault)
    requires Listed(buf, i) && i < |Headers(buf)| && HeaderCode(Headers(buf)[i], |buf|, start, end) != 0
    ensures HeaderCode(Headers(buf)[i], |buf|, start, end) == CodeOf(f)
  {
    var c := HeaderCode(Headers(buf)[i], |buf|, start, end);
    f := if c == -31 then BadSize else if c == -30 then Truncated else if c == -2 then Unreachable else if c == -3 then TooLow else TooHigh;
  }

  lemma {:induction false} TableGood(hs: seq<Phdr>, filesize: nat, start: nat, end: nat)
    requires forall i :: 0 <= i < |hs| ==> HeaderCode(hs[i], filesize, start, end) == 0
    ensures TableCode(hs, filesize, start, end) == 0
  {
    if hs != [] { TableGood(hs[..|hs| - 1], filesize, start, end); }
  }

  /** The code of a table is that of its first bad header. */
  lemma {:induction false} FirstBad(hs: seq<Phdr>, filesize: nat, start: nat, end: nat) returns (i: nat)
    requires TableCode(hs, filesize, start, end) != 0
    ensures i < |hs| && TableCode(hs, filesize, start, end) == HeaderCode(hs[i], filesize, start, end)
    ensures forall k :: 0 <= k < i ==> HeaderCode(hs[k], filesize, start, end) == 0
  {
    var n := |hs| - 1;
    if TableCode(hs[..n], filesize, start, end) != 0 {
      i := FirstBad(hs[..n], filesize, start, end);
    } else {
      i := n;
      forall k | 0 <= k < n ensures HeaderCode(hs[k], filesize, start, end) == 0 {
        TableAccepted(hs[..n], filesize, start, end, k);
      }
    }
  }

  lemma TableExact(buf: Bytes, start: nat, end: nat)
    ensures TableCode(Headers(buf), |buf|, start, end) == 0 <==> forall i: nat :: Listed(buf, i) ==> Good(buf, i, start, end)
  {
    var hs := Headers(buf);
    if TableCode(hs, |buf|, start, end) == 0 {
      forall i: nat | Listed(buf, i) ensures Good(buf, i, start, end) {
        HeaderExact(buf, i, start, end, BadSize);
        TableAccepted(hs, |buf|, start, end, i);
      }
    }
    if forall i: nat :: Listed(buf, i) ==> Good(buf, i, start, end) {
      forall i | 0 <= i < |hs| ensures HeaderCode(hs[i], |buf|, start, end) == 0 {
        var h := Fields(buf, i);
        if Listed(buf, i) { HeaderExact(buf, i, start, end, BadSize); }
      }
      TableGood(hs, |buf|, start, end);
    }
  }

  lemma CoveredExact(buf: Bytes, start: nat, end: nat, entry: nat)
    requires forall i: nat :: Listed(buf, i) ==> Good(buf, i, start, end)
    ensures Covered(Headers(buf), entry) <==> exists i: nat :: Covers(buf, i, entry)
  {
    forall i: nat | i < |Headers(buf)| ensures CoversEntry(Headers(buf)[i], entry) <==> Covers(buf, i, entry) {
      var h := Fields(buf, i);
      if Listed(buf, i) { assert !Has(buf, i, start, end, Unreachable); }
    }
    if exists i: nat :: Covers(buf, i, entry) {
      var i: nat :| Covers(buf, i, entry);
      assert CoversEntry(Headers(buf)[i], entry);
    }
  }

  /** check_sections32 accepts exactly the files with the right magic, whose entry point is in the
      window, all of whose listed headers are without fault, one of them covering the entry point. */
  lemma AcceptExact(buf: Bytes, start: nat, end: nat)
    ensures CheckCode(buf, |buf|, start, end) == 0 <==>
            && U32(buf, 0) == 0x464C457F
            && InWindow(U32(buf, 24)) && start <= Behind(U32(buf, 24)) < end
            && (forall i: nat :: Listed(buf, i) ==> Good(buf, i, start, end))
            && exists i: nat :: Covers(buf, i, Behind(U32(buf, 24)))
  {
    var e := U32(buf, 24);
    Words32(buf, 24);
    WindowExact(e);
    TableExact(buf, start, end);
    if InWindow(e) && forall i: nat :: Listed(buf, i) ==> Good(buf, i, start, end) {
      CoveredExact(buf, start, end, Behind(e));
    }
  }

  /** The first bad header and its first fault. */
  predicate Culprit(buf: Bytes, i: nat, start: nat, end: nat, f: Fault) {
    Listed(buf, i) && First(buf, i, start, end, f) && forall k :: 0 <= k < i && Listed(buf, k) ==> Good(buf, k, start, end)
  }

  /** The other results: the first of the tests that fails, and for the headers the first bad one. */
  lemma RefuseExact(buf: Bytes, start: nat, end: nat)
    ensures var c := CheckCode(buf, |buf|, start, end); var e := U32(buf, 24);
            && (c == -1 <==> U32(buf, 0) != 0x464C457F)
            && (c == -20 <==> U32(buf, 0) == 0x464C457F && !InWindow(e))
            && (c == -21 <==> U32(buf, 0) == 0x464C457F && InWindow(e) && !(start <= Behind(e) < end))
            && (c == -5 ==> (forall i: nat :: Listed(buf, i) ==> Good(buf, i, start, end)) && forall i: nat :: !Covers(buf, i, Behind(e)))
            && (c !in {0, -1, -20, -21, -5} ==> exists i: nat, f: Fault :: Culprit(buf, i, start, end, f) && c == CodeOf(f))
  {
    var e, hs := U32(buf, 24), Headers(buf);
    var c := CheckCode(buf, |buf|, start, end);
    Words32(buf, 24);
    WindowExact(e);
    TableExact(buf, start, end);
    if TableCode(hs, |buf|, start, end) == 0 {
      if InWindow(e) { CoveredExact(buf, start, end, Behind(e)); }
    } else {
      var i, f := TableFault(buf, start, end);
    }
  }

  lemma TableFault(buf: Bytes, start: nat, end: nat) returns (i: nat, f: Fault)
    requires TableCode(Headers(buf), |buf|, start, end) != 0
    ensures Culprit(buf, i, start, end, f) && TableCode(Headers(buf), |buf|, start, end) == CodeOf(f)
  {
    i := FirstBad(Headers(buf), |buf|, start, end);
    var h := Fields(buf, i);
    f := FaultOf(buf, i, start, end);
    HeaderExact(buf, i, start, end, f);
    forall k | 0 <= k < i && Listed(buf, k) ensures Good(buf, k, start, end) { HeaderExact(buf, k, start, end, BadSize); }
  }

  /** What `AllLoaded` says, by the words of the file: byte `k` of a listed segment is file byte
      p_offset + k, or zero behind the file part, at the physical address behind p_paddr. */
  lemma LoadedByWords(mem: Bytes, buf: Bytes, i: nat, k: nat)
    requires AllLoaded(mem, buf, Headers(buf), 0) && Listed(buf, i) && InWindow(U32(buf, 52 + 32 * i + 12))
    requires k < U32(buf, 52 + 32 * i + 20)
    ensures var p := 52 + 32 * i; var at := Behind(U32(buf, p + 12)) + k;
            && 0 <= at < |mem|
            && if k < U32(buf, p + 16) then U32(buf, p + 4) + k < |buf| && mem[at] == buf[U32(buf, p + 4) + k] else mem[at] == 0
  {
    var h := Fields(buf, i);
    assert SegmentLoaded(mem, buf, h, 0) && ByteLoaded(mem, buf, h, 0, k);
  }
}
