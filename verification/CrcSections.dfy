/**
  The section table of `.crc32`: crc32gen looks the named sections up in the ELF file, stores
  their CRCs in place, and the loader recomputes them over its own memory.
 */
module CrcSections {
  import opened ByteImage
  import opened Crc32

  /** sizeof(crc32_section_t) and its fields: crc, fileoffset, start, end, section[32]. */
  const ENTRY: nat := 48
  const FILEOFFSET: nat := 4
  const START: nat := 8
  const END: nat := 12
  const SECTION: nat := 16

  /** The CRC of bytes in memory, as the word calc_crc returns. */
  function CrcOf(data: Bytes): (x: nat)
    ensures x < 0x100000000
  {
    Crc(seq(|data|, i requires 0 <= i < |data| => data[i] as bv8)) as nat
  }

  method CalcCrcOf(data: Bytes) returns (x: nat)
    ensures x == CrcOf(data)
  {
    var crc := CalcCrc(seq(|data|, i requires 0 <= i < |data| => data[i] as bv8));
    x := crc as nat;
  }

  /** The C string that starts at `k`. */
  function CString(m: Bytes, k: nat): Bytes
    decreases |m| - k
  {
    if k >= |m| || m[k] == 0 then [] else [m[k]] + CString(m, k + 1)
  }

  // ------------------------------------------------------------- find_segment

  predicate Magic(m: Bytes) {
    At(m, 0) == 0x7F && At(m, 1) == 0x45 && At(m, 2) == 0x4C && At(m, 3) == 0x46
  }

  function Shoff(m: Bytes): nat { U32(m, 32) }
  function Shnum(m: Bytes): nat { U16(m, 48) }
  function Header(m: Bytes, i: nat): nat { Shoff(m) + 40 * i }
  function StringTable(m: Bytes): nat { U32(m, Header(m, U16(m, 50)) + 16) }
  function NameOffset(m: Bytes, i: nat): nat { StringTable(m) + U32(m, Header(m, i)) }
  function SectionName(m: Bytes, i: nat): Bytes { CString(m, NameOffset(m, i)) }
  function SectionOffset(m: Bytes, i: nat): nat { U32(m, Header(m, i) + 16) }
  function SectionSize(m: Bytes, i: nat): int { Signed(U32(m, Header(m, i) + 20)) }

  /** The first section from `i` on with the given name, or the number of sections. */
  function FirstNamed(m: Bytes, name: Bytes, i: nat): (r: nat)
    requires i <= Shnum(m)
    ensures i <= r <= Shnum(m)
    ensures forall k :: i <= k < r ==> SectionName(m, k) != name
    ensures r < Shnum(m) ==> SectionName(m, r) == name
    decreases Shnum(m) - i
  {
    if i == Shnum(m) || SectionName(m, i) == name then i else FirstNamed(m, name, i + 1)
  }

  /** Size and file offset of a section; the size is -1 if there is none. */
  function Segment(m: Bytes, name: Bytes): (int, nat) {
    var i := FirstNamed(m, name, 0);
    if !Magic(m) || i == Shnum(m) then (-1, 0) else (SectionSize(m, i), SectionOffset(m, i))
  }

  method FindSegment(m: Bytes, name: Bytes) returns (size: int, offset: nat)
    ensures (size, offset) == Segment(m, name)
  {
    if At(m, 0) != 0x7F || At(m, 1) != 0x45 || At(m, 2) != 0x4C || At(m, 3) != 0x46 {
      return -1, 0;
    }
    var i := 0;
    while i < Shnum(m)
      invariant 0 <= i <= Shnum(m)
      invariant FirstNamed(m, name, 0) == FirstNamed(m, name, i)
    {
      if SectionName(m, i) == name {
        return SectionSize(m, i), SectionOffset(m, i);
      }
      i := i + 1;
    }
    return -1, 0;
  }

  // ---------------------------------------------------------------- framing

  predicate Apart(a: nat, b: nat, lo: nat, hi: nat) {
    b <= lo || hi <= a
  }

  predicate Same(m: Bytes, m': Bytes, lo: nat, hi: nat) {
    |m| == |m'| && forall k :: 0 <= k < |m| && !(lo <= k < hi) ==> m[k] == m'[k]
  }

  /** The region lies outside everything find_segment reads. */
  ghost predicate LookupApart(m: Bytes, lo: nat, hi: nat) {
    && 52 <= lo && U16(m, 50) < Shnum(m)
    && Apart(Shoff(m), Header(m, Shnum(m)), lo, hi)
    && forall i :: 0 <= i < Shnum(m) ==> Apart(NameOffset(m, i), NameOffset(m, i) + |SectionName(m, i)| + 1, lo, hi)
  }

  lemma {:induction false} CStringFrame(m: Bytes, m': Bytes, k: nat)
    requires |m| == |m'|
    requires forall j :: k <= j <= k + |CString(m, k)| && j < |m| ==> m[j] == m'[j]
    ensures CString(m, k) == CString(m', k)
    decreases |m| - k
  {
    if k < |m| && m[k] != 0 {
      CStringFrame(m, m', k + 1);
    }
  }

  lemma WordFrame(m: Bytes, m': Bytes, lo: nat, hi: nat, k: nat)
    requires Same(m, m', lo, hi) && Apart(k, k + 4, lo, hi)
    ensures U32(m, k) == U32(m', k)
  {
    assert forall j :: k <= j < k + 4 ==> At(m, j) == At(m', j);
  }

  lemma HalfFrame(m: Bytes, m': Bytes, lo: nat, hi: nat, k: nat)
    requires Same(m, m', lo, hi) && Apart(k, k + 2, lo, hi)
    ensures U16(m, k) == U16(m', k)
  {
    assert forall j :: k <= j < k + 2 ==> At(m, j) == At(m', j);
  }

  lemma MagicFrame(m: Bytes, m': Bytes, lo: nat, hi: nat)
    requires Same(m, m', lo, hi) && 52 <= lo
    ensures Magic(m) == Magic(m')
  {
    assert forall j :: 0 <= j < 4 ==> At(m, j) == At(m', j);
  }

  lemma HeaderFrame(m: Bytes, m': Bytes, lo: nat, hi: nat)
    requires Same(m, m', lo, hi) && LookupApart(m, lo, hi)
    ensures Magic(m) == Magic(m') && Shoff(m) == Shoff(m') && Shnum(m) == Shnum(m') && U16(m, 50) == U16(m', 50)
    ensures StringTable(m) == StringTable(m')
  {
    MagicFrame(m, m', lo, hi);
    WordFrame(m, m', lo, hi, 32);
    HalfFrame(m, m', lo, hi, 48);
    HalfFrame(m, m', lo, hi, 50);
    var x := U16(m, 50);
    WordFrame(m, m', lo, hi, Header(m, x) + 16);
  }

  lemma FieldsFrame(m: Bytes, m': Bytes, lo: nat, hi: nat, h: nat)
    requires Same(m, m', lo, hi) && Apart(h, h + 40, lo, hi)
    ensures U32(m, h) == U32(m', h) && U32(m, h + 16) == U32(m', h + 16) && U32(m, h + 20) == U32(m', h + 20)
  {
    WordFrame(m, m', lo, hi, h);
    WordFrame(m, m', lo, hi, h + 16);
    WordFrame(m, m', lo, hi, h + 20);
  }

  lemma SectionFrame(m: Bytes, m': Bytes, lo: nat, hi: nat, i: nat)
    requires Same(m, m', lo, hi) && LookupApart(m, lo, hi) && i < Shnum(m)
    ensures NameOffset(m, i) == NameOffset(m', i) && SectionName(m, i) == SectionName(m', i)
    ensures SectionOffset(m, i) == SectionOffset(m', i) && SectionSize(m, i) == SectionSize(m', i)
  {
    HeaderFrame(m, m', lo, hi);
    FieldsFrame(m, m', lo, hi, Header(m, i));
    CStringFrame(m, m', NameOffset(m, i));
  }

  lemma {:induction false} FirstNamedFrame(m: Bytes, m': Bytes, lo: nat, hi: nat, name: Bytes, i: nat)
    requires Same(m, m', lo, hi) && LookupApart(m, lo, hi) && i <= Shnum(m) && Shnum(m) == Shnum(m')
    ensures FirstNamed(m, name, i) == FirstNamed(m', name, i)
    decreases Shnum(m) - i
  {
    if i < Shnum(m) {
      SectionFrame(m, m', lo, hi, i);
      FirstNamedFrame(m, m', lo, hi, name, i + 1);
    }
  }

  /** Patching the region changes no lookup. */
  lemma SegmentFrame(m: Bytes, m': Bytes, lo: nat, hi: nat, name: Bytes)
    requires Same(m, m', lo, hi) && LookupApart(m, lo, hi)
    ensures Segment(m, name) == Segment(m', name)
  {
    HeaderFrame(m, m', lo, hi);
    FirstNamedFrame(m, m', lo, hi, name, 0);
    var i := FirstNamed(m, name, 0);
    if i < Shnum(m) { SectionFrame(m, m', lo, hi, i); }
  }

  lemma LookupApartFrame(m: Bytes, m': Bytes, lo: nat, hi: nat)
    requires Same(m, m', lo, hi) && LookupApart(m, lo, hi)
    ensures LookupApart(m', lo, hi)
  {
    HeaderFrame(m, m', lo, hi);
    forall i | 0 <= i < Shnum(m')
      ensures Apart(NameOffset(m', i), NameOffset(m', i) + |SectionName(m', i)| + 1, lo, hi)
    {
      SectionFrame(m, m', lo, hi, i);
    }
  }

  // ------------------------------------------------------------ fix_segments

  function Entry(p: nat, j: nat): nat { p + ENTRY * j }

  function EntryName(m: Bytes, p: nat, j: nat): Bytes {
    CString(m, Entry(p, j) + SECTION)
  }

  /** The section an entry names, when it was found, lies in the file and apart from the table. */
  ghost predicate SectionApart(m: Bytes, p: nat, n: nat, j: nat) {
    var (size, off) := Segment(m, EntryName(m, p, j));
    size > 0 ==> off + size <= |m| && Apart(off, off + size, p, Entry(p, n))
  }

  /** The table of `n` entries at `p` can be patched without disturbing what it describes. */
  ghost predicate Patchable(m: Bytes, p: nat, n: nat) {
    && Entry(p, n) <= |m| < 0x100000000
    && LookupApart(m, p, Entry(p, n))
    && forall j :: 0 <= j < n ==> |EntryName(m, p, j)| < 32 && SectionApart(m, p, n, j)
  }

  /** The bytes of the section an entry names. */
  function SectionBytes(m: Bytes, p: nat, j: nat): Bytes {
    var (size, off) := Segment(m, EntryName(m, p, j));
    if size > 0 && off + size <= |m| then m[off..off + size] else []
  }

  /** If its section was found, the entry holds `code` and the offset of the section. */
  ghost predicate Holds(m: Bytes, p: nat, j: nat, code: Bytes) {
    var (size, off) := Segment(m, EntryName(m, p, j));
    size > 0 ==>
      && off + size <= |m| && Entry(p, j) + 8 <= |m|
      && m[Entry(p, j)..Entry(p, j) + 4] == code
      && m[Entry(p, j) + FILEOFFSET..Entry(p, j) + 8] == WordBytes(off)
  }

  function CrcCode(data: Bytes): Bytes { WordBytes(CrcOf(data)) }

  /** The stored CRC is the CRC of the named section, and the stored offset is where it is. */
  ghost predicate EntryFixed(m: Bytes, p: nat, j: nat) {
    Holds(m, p, j, CrcCode(SectionBytes(m, p, j)))
  }

  lemma EntryNameFrame(m: Bytes, m': Bytes, p: nat, i: nat, j: nat)
    requires Same(m, m', Entry(p, i), Entry(p, i) + 8) && |EntryName(m, p, j)| < 32
    ensures EntryName(m, p, j) == EntryName(m', p, j)
  {
    CStringFrame(m, m', Entry(p, j) + SECTION);
  }

  lemma SameWider(m: Bytes, m': Bytes, p: nat, n: nat, i: nat)
    requires Same(m, m', Entry(p, i), Entry(p, i) + 8) && i < n
    ensures Same(m, m', p, Entry(p, n))
  {
  }

  /** Writing the first two words of entry `i` keeps the table patchable. */
  lemma PatchableFrame(m: Bytes, m': Bytes, p: nat, n: nat, i: nat)
    requires Patchable(m, p, n) && i < n && Same(m, m', Entry(p, i), Entry(p, i) + 8)
    ensures Patchable(m', p, n)
  {
    SameWider(m, m', p, n, i);
    LookupApartFrame(m, m', p, Entry(p, n));
    forall j | 0 <= j < n ensures |EntryName(m', p, j)| < 32 && SectionApart(m', p, n, j) {
      EntryNameFrame(m, m', p, i, j);
      SegmentFrame(m, m', p, Entry(p, n), EntryName(m, p, j));
      assert SectionApart(m, p, n, j);
    }
  }

  lemma LookupKept(m: Bytes, m': Bytes, p: nat, n: nat, i: nat, j: nat)
    requires Patchable(m, p, n) && i < n && j < n && Same(m, m', Entry(p, i), Entry(p, i) + 8)
    ensures EntryName(m, p, j) == EntryName(m', p, j)
    ensures Segment(m, EntryName(m, p, j)) == Segment(m', EntryName(m, p, j))
    ensures Same(m, m', p, Entry(p, n)) && SectionApart(m, p, n, j)
  {
    SameWider(m, m', p, n, i);
    EntryNameFrame(m, m', p, i, j);
    SegmentFrame(m, m', p, Entry(p, n), EntryName(m, p, j));
  }

  lemma SliceKept(m: Bytes, m': Bytes, lo: nat, hi: nat, a: nat, b: nat)
    requires Same(m, m', lo, hi) && Apart(a, b, lo, hi) && a <= b <= |m|
    ensures |m'| == |m| && m[a..b] == m'[a..b]
  {
  }

  lemma SectionKept(m: Bytes, m': Bytes, p: nat, n: nat, i: nat, j: nat)
    requires Patchable(m, p, n) && i < n && j < n && Same(m, m', Entry(p, i), Entry(p, i) + 8)
    ensures EntryName(m, p, j) == EntryName(m', p, j)
    ensures Segment(m, EntryName(m, p, j)) == Segment(m', EntryName(m', p, j))
    ensures SectionBytes(m, p, j) == SectionBytes(m', p, j)
  {
    LookupKept(m, m', p, n, i, j);
    var (size, off) := Segment(m, EntryName(m, p, j));
    if size > 0 { SliceKept(m, m', p, Entry(p, n), off, off + size); }
  }

  /** It also leaves every other entry as it was. */
  lemma HoldsFrame(m: Bytes, m': Bytes, p: nat, n: nat, i: nat, j: nat, code: Bytes)
    requires Patchable(m, p, n) && i < n && j < n && i != j && Same(m, m', Entry(p, i), Entry(p, i) + 8)
    requires Holds(m, p, j, code)
    ensures Holds(m', p, j, code)
  {
    SectionKept(m, m', p, n, i, j);
    var e := Entry(p, j);
    if Segment(m, EntryName(m, p, j)).0 > 0 {
      assert m[e..e + 4] == m'[e..e + 4] && m[e + FILEOFFSET..e + 8] == m'[e + FILEOFFSET..e + 8];
    }
  }

  /** Store the CRC word and the file offset in an entry. */
  method PatchEntry(a: array<byte>, e: nat, code: Bytes, where: Bytes)
    requires e + 8 <= a.Length && |code| == |where| == 4
    modifies a
    ensures Same(old(a[..]), a[..], e, e + 8)
    ensures a[..][e..e + 4] == code && a[..][e + FILEOFFSET..e + 8] == where
  {
    a[e], a[e + 1], a[e + 2], a[e + 3] := code[0], code[1], code[2], code[3];
    a[e + 4], a[e + 5], a[e + 6], a[e + 7] := where[0], where[1], where[2], where[3];
  }

  /** A code and an offset have been written at `e`, and nothing else. */
  predicate Patched(m: Bytes, m': Bytes, e: nat, code: Bytes, off: nat) {
    && e + 8 <= |m'| && Same(m, m', e, e + 8)
    && m'[e..e + 4] == code && m'[e + FILEOFFSET..e + 8] == WordBytes(off)
  }

  lemma EntryStored(m: Bytes, m': Bytes, p: nat, n: nat, j: nat, code: Bytes, off: nat)
    requires Patchable(m, p, n) && j < n && off == Segment(m, EntryName(m, p, j)).1
    requires Patched(m, m', Entry(p, j), code, off)
    ensures Same(m, m', Entry(p, j), Entry(p, j) + 8) && Holds(m', p, j, code)
  {
    SectionKept(m, m', p, n, j, j);
    assert SectionApart(m, p, n, j);
  }

  lemma SectionFound(m: Bytes, p: nat, n: nat, j: nat, size: int, off: nat)
    requires Patchable(m, p, n) && j < n && (size, off) == Segment(m, EntryName(m, p, j)) && size > 0
    ensures off + size <= |m| && m[off..off + size] == SectionBytes(m, p, j) && off < 0x100000000
    ensures Entry(p, j) + 8 <= |m|
  {
    assert SectionApart(m, p, n, j);
  }

  lemma NotFound(m: Bytes, p: nat, j: nat, code: Bytes)
    requires Segment(m, EntryName(m, p, j)).0 <= 0
    ensures Holds(m, p, j, code)
  {
  }

  method StoreCrc(a: array<byte>, e: nat, size: nat, off: nat, ghost data: Bytes)
    requires e + 8 <= a.Length && off + size <= a.Length && a[..][off..off + size] == data
    modifies a
    ensures Patched(old(a[..]), a[..], e, CrcCode(data), off)
  {
    var crc := CalcCrcOf(a[..][off..off + size]);
    PatchEntry(a, e, WordBytes(crc), WordBytes(off));
  }

  method FixFound(a: array<byte>, p: nat, ghost n: nat, j: nat, ghost m: Bytes, size: nat, off: nat)
    requires m == a[..] && Patchable(m, p, n) && j < n && (size, off) == Segment(m, EntryName(m, p, j)) && size > 0
    modifies a
    ensures Same(m, a[..], Entry(p, j), Entry(p, j) + 8)
    ensures Holds(a[..], p, j, CrcCode(SectionBytes(m, p, j)))
  {
    SectionFound(m, p, n, j, size, off);
    StoreCrc(a, Entry(p, j), size, off, SectionBytes(m, p, j));
    EntryStored(m, a[..], p, n, j, CrcCode(SectionBytes(m, p, j)), off);
  }

  /** One turn of the loop of fix_segments. */
  method FixEntry(a: array<byte>, p: nat, ghost n: nat, j: nat, ghost m: Bytes)
    requires m == a[..] && Patchable(m, p, n) && j < n
    modifies a
    ensures Same(m, a[..], Entry(p, j), Entry(p, j) + 8)
    ensures Holds(a[..], p, j, CrcCode(SectionBytes(m, p, j)))
  {
    var size, off := FindSegment(a[..], EntryName(a[..], p, j));
    if size > 0 {
      FixFound(a, p, n, j, m, size, off);
    } else {
      NotFound(m, p, j, CrcCode(SectionBytes(m, p, j)));
    }
  }

  /** The name ".crc32". */
  const CRC_NAME: Bytes := [0x2E, 0x63, 0x72, 0x63, 0x33, 0x32]

  ghost function Codes(m: Bytes, p: nat, n: nat): (c: seq<Bytes>)
    ensures |c| == n && forall j :: 0 <= j < n ==> c[j] == CrcCode(SectionBytes(m, p, j))
  {
    seq(n, j requires 0 <= j < n => CrcCode(SectionBytes(m, p, j)))
  }

  /** The first `i` entries hold their codes, and no section has changed. */
  ghost predicate Progress(m: Bytes, now: Bytes, p: nat, n: nat, i: nat, codes: seq<Bytes>) {
    && i <= n == |codes|
    && Patchable(now, p, n) && Same(m, now, p, Entry(p, n))
    && (forall j :: 0 <= j < n ==> SectionBytes(now, p, j) == SectionBytes(m, p, j))
    && (forall j :: 0 <= j < i ==> Holds(now, p, j, codes[j]))
  }

  lemma ProgressStep(m: Bytes, now: Bytes, next: Bytes, p: nat, n: nat, i: nat, codes: seq<Bytes>)
    requires Progress(m, now, p, n, i, codes) && i < n && Same(now, next, Entry(p, i), Entry(p, i) + 8)
    requires Holds(next, p, i, codes[i])
    ensures Progress(m, next, p, n, i + 1, codes)
  {
    PatchableFrame(now, next, p, n, i);
    forall j | 0 <= j < n ensures SectionBytes(next, p, j) == SectionBytes(m, p, j) {
      SectionKept(now, next, p, n, i, j);
    }
    forall j | 0 <= j < i ensures Holds(next, p, j, codes[j]) {
      HoldsFrame(now, next, p, n, i, j, codes[j]);
    }
  }

  /** The loop of fix_segments. */
  method FixEntries(a: array<byte>, p: nat, n: nat, ghost m: Bytes, ghost codes: seq<Bytes>)
    requires m == a[..] && Progress(m, m, p, n, 0, codes)
    requires forall j :: 0 <= j < n ==> codes[j] == CrcCode(SectionBytes(m, p, j))
    modifies a
    ensures Progress(m, a[..], p, n, n, codes)
  {
    var i := 0;
    while i < n
      invariant 0 <= i <= n
      invariant Progress(m, a[..], p, n, i, codes)
    {
      ghost var now := a[..];
      FixEntry(a, p, n, i, now);
      assert SectionBytes(now, p, i) == SectionBytes(m, p, i);
      ProgressStep(m, now, a[..], p, n, i, codes);
      i := i + 1;
    }
  }

  /** fix_segments: afterwards every entry whose section was found holds the CRC of that section
      as it is in the final file, and nothing outside the table changed. */
  method FixSegments(a: array<byte>) returns (done: bool)
    requires var (size, p) := Segment(a[..], CRC_NAME); size >= ENTRY ==> Patchable(a[..], p, size / ENTRY)
    modifies a
    ensures done == (old(Segment(a[..], CRC_NAME)).0 >= ENTRY)
    ensures !done ==> a[..] == old(a[..])
    ensures done ==>
              var (size, p) := old(Segment(a[..], CRC_NAME)); var n := size / ENTRY;
              && Same(old(a[..]), a[..], p, Entry(p, n))
              && Segment(a[..], CRC_NAME) == (size, p)
              && forall j :: 0 <= j < n ==> EntryFixed(a[..], p, j)
  {
    ghost var m := a[..];
    var size, p := FindSegment(a[..], CRC_NAME);
    if size < ENTRY {
      return false;
    }
    var sections := size / ENTRY;
    ghost var codes := Codes(m, p, sections);
    FixEntries(a, p, sections, m, codes);
    forall j | 0 <= j < sections ensures EntryFixed(a[..], p, j) {
      assert codes[j] == CrcCode(SectionBytes(m, p, j)) && Holds(a[..], p, j, codes[j]);
    }
    SegmentFrame(m, a[..], p, Entry(p, sections), CRC_NAME);
    return true;
  }

  // --------------------------------------------------------------- crc32check

  function EntryStart(table: Bytes, j: nat): nat { U32(table, Entry(0, j) + START) }
  function EntryEnd(table: Bytes, j: nat): nat { U32(table, Entry(0, j) + END) }

  /** The stored CRC is that of the memory the entry delimits. */
  predicate EntryPasses(mem: Bytes, table: Bytes, j: nat)
    requires EntryStart(table, j) <= EntryEnd(table, j) <= |mem|
  {
    U32(table, Entry(0, j)) == CrcOf(mem[EntryStart(table, j)..EntryEnd(table, j)])
  }

  /** crc32check over the `n` compiled-in entries: 0 exactly when every stored CRC matches. */
  method Crc32Check(mem: Bytes, table: Bytes, n: nat) returns (r: int)
    requires forall j :: 0 <= j < n ==> EntryStart(table, j) <= EntryEnd(table, j) <= |mem|
    ensures r == 0 || r == -1
    ensures r == 0 <==> forall j :: 0 <= j < n ==> EntryPasses(mem, table, j)
  {
    var i := 0;
    while i < n
      invariant 0 <= i <= n
      invariant forall j :: 0 <= j < i ==> EntryPasses(mem, table, j)
    {
      var value := CalcCrcOf(mem[EntryStart(table, i)..EntryEnd(table, i)]);
      if U32(table, Entry(0, i)) != value {
        assert !EntryPasses(mem, table, i);
        return -1;
      }
      i := i + 1;
    }
    return 0;
  }

  lemma CodeIsWord(table: Bytes, k: nat, data: Bytes)
    requires k + 4 <= |table| && table[k..k + 4] == CrcCode(data)
    ensures U32(table, k) == CrcOf(data)
  {
    StoredWord(table, k, CrcOf(data));
  }

  /** The four bytes of a table entry, in the file and in the table. */
  lemma TableCode(file: Bytes, p: nat, n: nat, j: nat)
    requires j < n && Entry(p, n) <= |file|
    ensures Entry(p, j) + 4 <= Entry(p, n)
    ensures file[p..Entry(p, n)][Entry(0, j)..Entry(0, j) + 4] == file[Entry(p, j)..Entry(p, j) + 4]
  {
  }

  /** A fixed entry passes the check on any memory that holds its section unchanged. */
  lemma FixedEntryPasses(file: Bytes, table: Bytes, p: nat, n: nat, j: nat, mem: Bytes)
    requires j < n && Entry(p, n) <= |file| && table == file[p..Entry(p, n)]
    ensures EntryFixed(file, p, j) && InMemory(mem, file, table, p, j) ==> EntryPasses(mem, table, j)
  {
    TableCode(file, p, n, j);
    if EntryFixed(file, p, j) && InMemory(mem, file, table, p, j) {
      CodeIsWord(table, Entry(0, j), SectionBytes(file, p, j));
    }
  }

  /** The section of entry `j` was found, and memory holds it where the table says. */
  ghost predicate InMemory(mem: Bytes, file: Bytes, table: Bytes, p: nat, j: nat) {
    && EntryStart(table, j) <= EntryEnd(table, j) <= |mem|
    && Segment(file, EntryName(file, p, j)).0 > 0
    && mem[EntryStart(table, j)..EntryEnd(table, j)] == SectionBytes(file, p, j)
  }

  /** Memory that holds the image of `file`: its copy of the table, and every found section. */
  ghost predicate ImageOf(mem: Bytes, file: Bytes, p: nat, n: nat)
    requires Entry(p, n) <= |file|
  {
    forall j :: 0 <= j < n ==> InMemory(mem, file, file[p..Entry(p, n)], p, j)
  }

  /** So after fix_segments the check succeeds on an unchanged image. */
  method CheckFixedImage(file: Bytes, p: nat, n: nat, mem: Bytes) returns (r: int)
    requires Entry(p, n) <= |file| && (forall j :: 0 <= j < n ==> EntryFixed(file, p, j)) && ImageOf(mem, file, p, n)
    ensures r == 0
  {
    ghost var table := file[p..Entry(p, n)];
    assert forall j :: 0 <= j < n ==> InMemory(mem, file, table, p, j);
    forall j | 0 <= j < n
      ensures EntryStart(table, j) <= EntryEnd(table, j) <= |mem| && EntryPasses(mem, table, j)
    {
      assert InMemory(mem, file, table, p, j);
      FixedEntryPasses(file, table, p, n, j, mem);
    }
    r := Crc32Check(mem, file[p..Entry(p, n)], n);
  }
}
