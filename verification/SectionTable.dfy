/**
  What the section table says, by the bytes and words of the files: section headers of 40 bytes at
  e_shoff (byte 32), their number e_shnum (48), the section with the names e_shstrndx (50); in a header
  sh_name, sh_offset and sh_size at 0, 16 and 20; in a table entry of 48 bytes the CRC, the file offset,
  start, end and the name of the section at 0, 4, 8, 12 and 16.
 */
module SectionTable {
  import opened ByteImage
  import opened ShiftRegister
  import opened CrcTerms
  import opened CrcSections

  // -------------------------------------------------------------------- lookup

  predicate CharAt(m: Bytes, k: nat, name: Bytes, j: nat) {
    j < |name| && k + j < |m| && m[k + j] == name[j] && name[j] != 0
  }

  /** The bytes from `k` on are `name`, up to a NUL or the end. */
  predicate Spells(m: Bytes, k: nat, name: Bytes) {
    (forall j :: 0 <= j < |name| ==> CharAt(m, k, name, j)) && (k + |name| < |m| ==> m[k + |name|] == 0)
  }

  lemma {:induction false} CStringSpells(m: Bytes, k: nat)
    ensures Spells(m, k, CString(m, k))
    decreases |m| - k
  {
    if k < |m| && m[k] != 0 {
      var s, t := CString(m, k + 1), CString(m, k);
      CStringSpells(m, k + 1);
      forall j | 0 <= j < |t| ensures CharAt(m, k, t, j) {
        if j > 0 { assert CharAt(m, k + 1, s, j - 1); }
      }
    }
  }

  lemma NotLonger(m: Bytes, k: nat, a: Bytes, b: Bytes)
    requires Spells(m, k, a) && Spells(m, k, b)
    ensures |b| <= |a|
  {
    assert |a| < |b| ==> CharAt(m, k, b, |a|);
  }

  lemma SpellsOne(m: Bytes, k: nat, a: Bytes, b: Bytes)
    requires Spells(m, k, a) && Spells(m, k, b)
    ensures a == b
  {
    NotLonger(m, k, a, b);
    NotLonger(m, k, b, a);
    forall j | 0 <= j < |a| ensures a[j] == b[j] { assert CharAt(m, k, a, j) && CharAt(m, k, b, j); }
  }

  lemma CStringExact(m: Bytes, k: nat, name: Bytes)
    ensures CString(m, k) == name <==> Spells(m, k, name)
  {
    CStringSpells(m, k);
    if Spells(m, k, name) { SpellsOne(m, k, CString(m, k), name); }
  }

  /** Section `i` has the name. */
  predicate Named(m: Bytes, i: nat, name: Bytes) {
    var headers := U32(m, 32);
    Spells(m, U32(m, headers + 40 * U16(m, 50) + 16) + U32(m, headers + 40 * i), name)
  }

  lemma NamedExact(m: Bytes, i: nat, name: Bytes)
    ensures SectionName(m, i) == name <==> Named(m, i, name)
  {
    CStringExact(m, NameOffset(m, i), name);
  }

  predicate IsElf(m: Bytes) {
    At(m, 0) == 0x7F && At(m, 1) == 'E' as int && At(m, 2) == 'L' as int && At(m, 3) == 'F' as int
  }

  /** Section `i` is the first of the name in an ELF file. */
  predicate Found(m: Bytes, i: nat, name: Bytes) {
    IsElf(m) && i < U16(m, 48) && Named(m, i, name) && forall k :: 0 <= k < i ==> !Named(m, k, name)
  }

  function SizeOf(m: Bytes, i: nat): int {
    var size := U32(m, U32(m, 32) + 40 * i + 20);
    if size >= 0x80000000 then size - 0x100000000 else size
  }

  lemma FirstIs(m: Bytes, name: Bytes, i: nat)
    requires i < U16(m, 48) && Named(m, i, name) && forall k :: 0 <= k < i ==> !Named(m, k, name)
    ensures FirstNamed(m, name, 0) == i
  {
    var r := FirstNamed(m, name, 0);
    NamedExact(m, i, name);
    NamedExact(m, r, name);
  }

  lemma NoneNamed(m: Bytes, name: Bytes)
    requires forall k :: 0 <= k < U16(m, 48) ==> !Named(m, k, name)
    ensures FirstNamed(m, name, 0) == U16(m, 48)
  {
    NamedExact(m, FirstNamed(m, name, 0), name);
  }

  /** find_segment gives size and file offset of the first section of the name, the size as a signed
      number, or -1 if the file is no ELF file or has none. */
  lemma SegmentExact(m: Bytes, name: Bytes, i: nat)
    ensures Found(m, i, name) ==> Segment(m, name) == (SizeOf(m, i), OffsetOf(m, i))
    ensures (!IsElf(m) || forall k :: 0 <= k < U16(m, 48) ==> !Named(m, k, name)) ==> Segment(m, name) == (-1, 0)
  {
    if Found(m, i, name) { FirstIs(m, name, i); }
    if forall k :: 0 <= k < U16(m, 48) ==> !Named(m, k, name) { NoneNamed(m, name); }
  }

  /** The table is the section ".crc32". */
  lemma TableName()
    ensures |CRC_NAME| == 6 && forall i :: 0 <= i < 6 ==> CRC_NAME[i] == ".crc32"[i] as int
  {
  }

  // ------------------------------------------------------------------- entries

  function OffsetOf(m: Bytes, i: nat): nat {
    U32(m, U32(m, 32) + 40 * i + 16)
  }

  /** What fix_segments leaves in entry `j` of the table at `p`, that is, at `e`: if its section is found
      and not empty, the CRC of that section and its file offset. */
  lemma FixedByWords(file: Bytes, p: nat, j: nat, e: nat, i: nat, name: Bytes, size: int, off: nat)
    requires EntryFixed(file, p, j) && e == p + 48 * j && Spells(file, e + 16, name) && Found(file, i, name)
    requires size == SizeOf(file, i) > 0 && off == OffsetOf(file, i)
    ensures off + size <= |file| && U32(file, e) == CrcOf(file[off..off + size]) && U32(file, e + 4) == off
  {
    EntrySection(file, p, j, e, i, name);
    EntryWords(file, p, j, e, size, off);
  }

  lemma EntrySection(file: Bytes, p: nat, j: nat, e: nat, i: nat, name: Bytes)
    requires e == p + 48 * j && Spells(file, e + 16, name) && Found(file, i, name)
    ensures Segment(file, EntryName(file, p, j)) == (SizeOf(file, i), OffsetOf(file, i)) && OffsetOf(file, i) < 0x100000000
  {
    CStringExact(file, e + 16, name);
    SegmentExact(file, name, i);
  }

  predicate EntryAt(file: Bytes, e: nat, code: Bytes, off: nat) {
    e + 8 <= |file| && file[e..e + 4] == code && file[e + 4..e + 8] == WordBytes(off)
  }

  lemma EntryBytes(file: Bytes, p: nat, j: nat, e: nat, size: int, off: nat)
    requires EntryFixed(file, p, j) && e == Entry(p, j) && (size, off) == Segment(file, EntryName(file, p, j)) && size > 0
    ensures off + size <= |file| && SectionBytes(file, p, j) == file[off..off + size]
    ensures EntryAt(file, e, CrcCode(SectionBytes(file, p, j)), off)
  {
  }

  lemma EntryWords(file: Bytes, p: nat, j: nat, e: nat, size: int, off: nat)
    requires EntryFixed(file, p, j) && e == p + 48 * j && (size, off) == Segment(file, EntryName(file, p, j))
    requires size > 0 && off < 0x100000000
    ensures off + size <= |file| && U32(file, e) == CrcOf(file[off..off + size]) && U32(file, e + 4) == off
  {
    EntryBytes(file, p, j, e, size, off);
    TwoWords(file, e, CrcOf(SectionBytes(file, p, j)), off);
  }

  lemma TwoWords(m: Bytes, e: nat, x: nat, y: nat)
    requires x < 0x100000000 && y < 0x100000000 && EntryAt(m, e, WordBytes(x), y)
    ensures U32(m, e) == x && U32(m, e + 4) == y
  {
    StoredWord(m, e, x);
    StoredWord(m, e + 4, y);
  }

  /** What crc32check compares. */
  lemma PassesByWords(mem: Bytes, table: Bytes, j: nat)
    requires U32(table, 48 * j + 8) <= U32(table, 48 * j + 12) <= |mem|
    ensures EntryStart(table, j) <= EntryEnd(table, j) <= |mem|
    ensures EntryPasses(mem, table, j) <==> U32(table, 48 * j) == CrcOf(mem[U32(table, 48 * j + 8)..U32(table, 48 * j + 12)])
  {
  }

  // ----------------------------------------------------------------------- CRC

  lemma ByteValue(x: byte, b: bv8)
    requires b as int == x
    ensures b == x as bv8
  {
  }

  /** The word that is the remainder of the bits of the bytes by the IEEE 802.3 generator is their CRC. */
  lemma CrcOfExact(data: Bytes, bits: seq<bv8>, message: Bits, low: Bits, r: Bits, v: bv32)
    requires |bits| == |data| && forall i :: 0 <= i < |data| ==> bits[i] as int == data[i]
    requires IsMessage(message, bits) && IsGenerator(low) && IsWord(r, v)
    ensures IsRemainder(low, message, r) ==> CrcOf(data) == v as int
  {
    forall i | 0 <= i < |data| ensures bits[i] == data[i] as bv8 { ByteValue(data[i], bits[i]); }
    assert bits == seq(|data|, i requires 0 <= i < |data| => data[i] as bv8);
    if IsRemainder(low, message, r) { CrcOnlyByExponents(bits, message, low, r, v); }
  }
}
