/**
  Loading a 32-bit ELF kernel: the check of its program headers against a memory window, the
  copy of its segments to physical memory, and the verification that follows.
 */
module ElfLoader {
  import opened ByteImage

  const ELFMAGIC: nat := 0x464C457F
  const PT_LOAD: nat := 1
  const EHDR: nat := 52
  const PHDR: nat := 32
  const LIMIT: nat := 0x8000000
  const U32MAX: nat := 0x1_0000_0000

  /** A program header, with the physical address that paddr stands for. */
  datatype Phdr = Phdr(kind: nat, offset: nat, paddr: nat, dest: nat, filesz: nat, memsz: nat)

  function PhdrAt(buf: Bytes, pos: nat): Phdr {
    Phdr(U32(buf, pos), U32(buf, pos + 4), U32(buf, pos + 12), Phys(U32(buf, pos + 12)),
         U32(buf, pos + 16), U32(buf, pos + 20))
  }

  function Entry(buf: Bytes): nat { U32(buf, 24) }
  function Phnum(buf: Bytes): nat { U16(buf, 44) }

  /** The program headers, which the loader takes to follow the file header. */
  function Headers(buf: Bytes): (hs: seq<Phdr>)
    ensures |hs| == Phnum(buf)
  {
    seq(Phnum(buf), i requires 0 <= i => PhdrAt(buf, EHDR + PHDR * i))
  }

  /** PHYSADDR */
  function Phys(a: nat): nat { a % 0x1000_0000 }

  /** KSEG0 and KSEG1 are the areas the loader can reach. */
  predicate Reachable(a: nat) {
    a / 0x1000_0000 == 8 || a / 0x1000_0000 == 0xA
  }

  predicate Loads(h: Phdr) {
    h.kind == PT_LOAD && h.memsz != 0
  }

  function Size(h: Phdr): nat {
    if h.memsz < h.filesz then h.filesz else h.memsz
  }

  function Wrapped(x: int): int {
    if x >= U32MAX then x - U32MAX else if x < 0 then x + U32MAX else x
  }

  /** The 32-bit sum dest + size. */
  function Last(h: Phdr): int {
    Wrapped(h.dest + Size(h))
  }

  /** memsz - filesz as an int computed from a 32-bit difference. */
  function Rest(h: Phdr): int {
    var d := Wrapped(h.memsz - h.filesz);
    if d < 0x8000_0000 then d else d - U32MAX
  }

  /** The byte count of the zero fill. */
  function Fill(h: Phdr): nat {
    if Rest(h) > 0 then Rest(h) else 0
  }

  // ------------------------------------------------------------------ check

  function HeaderCode(h: Phdr, filesize: nat, start: nat, end: nat): int {
    if !Loads(h) then 0
    else if h.filesz != 0 && h.filesz > LIMIT then -31
    else if h.filesz != 0 && h.offset > LIMIT then -31
    else if h.filesz != 0 && h.offset + h.filesz >= filesize then -30
    else if !Reachable(h.paddr) then -2
    else if h.dest < start then -3
    else if Last(h) >= end then -4
    else 0
  }

  predicate CoversEntry(h: Phdr, entry: nat) {
    Loads(h) && h.dest <= entry < Last(h)
  }

  /** The code of the first bad header, or 0. */
  function TableCode(hs: seq<Phdr>, filesize: nat, start: nat, end: nat): int {
    if hs == [] then 0
    else
      var n := |hs| - 1;
      var c := TableCode(hs[..n], filesize, start, end);
      if c != 0 then c else HeaderCode(hs[n], filesize, start, end)
  }

  predicate Covered(hs: seq<Phdr>, entry: nat) {
    exists i :: 0 <= i < |hs| && CoversEntry(hs[i], entry)
  }

  function CheckCode(buf: Bytes, filesize: nat, start: nat, end: nat): int {
    var entry := Phys(Entry(buf));
    var c := TableCode(Headers(buf), filesize, start, end);
    if U32(buf, 0) != ELFMAGIC then -1
    else if !Reachable(Entry(buf)) then -20
    else if entry < start || entry >= end then -21
    else if c != 0 then c
    else if !Covered(Headers(buf), entry) then -5
    else 0
  }

  function Highest(hs: seq<Phdr>): int {
    if hs == [] then 0
    else
      var n := |hs| - 1;
      var m := Highest(hs[..n]);
      if Loads(hs[n]) && m < Last(hs[n]) then Last(hs[n]) else m
  }

  // ------------------------------------------------------------------- load

  function Zeros(n: nat): (z: Bytes)
    ensures |z| == n && forall i :: 0 <= i < n ==> z[i] == 0
  {
    seq(n, _ => 0)
  }

  function FileBytes(buf: Bytes, h: Phdr): Bytes {
    if h.filesz != 0 && h.offset + h.filesz <= |buf| then buf[h.offset..h.offset + h.filesz] else []
  }

  /** The bytes a segment puts into memory. */
  function Image(buf: Bytes, h: Phdr): Bytes {
    FileBytes(buf, h) + Zeros(Fill(h))
  }

  function Place(m: Bytes, at: int, data: Bytes): (r: Bytes)
    ensures |r| == |m|
  {
    if 0 <= at && at + |data| <= |m| then m[..at] + data + m[at + |data|..] else m
  }

  /** Memory `m`, whose first byte has physical address `base`, after loading one header. */
  function Loaded(m: Bytes, buf: Bytes, h: Phdr, base: nat): (r: Bytes)
    ensures |r| == |m|
  {
    if Loads(h) then Place(m, h.dest - base, Image(buf, h)) else m
  }

  /** The same after loading the headers in order. */
  function Load(m: Bytes, buf: Bytes, hs: seq<Phdr>, base: nat): (r: Bytes)
    ensures |r| == |m|
  {
    if hs == [] then m else Loaded(Load(m, buf, hs[..|hs| - 1], base), buf, hs[|hs| - 1], base)
  }

  predicate NoWrap(hs: seq<Phdr>) {
    forall i :: 0 <= i < |hs| && Loads(hs[i]) ==> hs[i].dest + Size(hs[i]) < U32MAX
  }

  // ------------------------------------------------------------------ methods

  method KMemCpy(dest: array<byte>, at: nat, src: Bytes, from: nat, size: nat)
    requires at + size <= dest.Length && from + size <= |src|
    modifies dest
    ensures dest[..] == Place(old(dest[..]), at, src[from..from + size])
  {
    ghost var m := dest[..];
    var i := 0;
    while i < size
      invariant 0 <= i <= size
      invariant forall k :: 0 <= k < dest.Length ==> dest[k] == if at <= k < at + i then src[from + k - at] else m[k]
    {
      dest[at + i] := src[from + i];
      i := i + 1;
    }
  }

  method MemSet(dest: array<byte>, at: nat, size: nat)
    requires at + size <= dest.Length
    modifies dest
    ensures dest[..] == Place(old(dest[..]), at, Zeros(size))
  {
    ghost var m := dest[..];
    var i := 0;
    while i < size
      invariant 0 <= i <= size
      invariant forall k :: 0 <= k < dest.Length ==> dest[k] == if at <= k < at + i then 0 else m[k]
    {
      dest[at + i] := 0;
      i := i + 1;
    }
  }

  lemma PlaceTwice(m: Bytes, at: nat, a: Bytes, b: Bytes)
    requires at + |a| + |b| <= |m|
    ensures Place(Place(m, at, a), at + |a|, b) == Place(m, at, a + b)
  {
  }

  /** File bytes, then zeros: the copy that check_sections32 and copy_sections32 share. */
  method CopySegment(dest: array<byte>, at: nat, buf: Bytes, h: Phdr)
    requires h.filesz != 0 ==> h.offset + h.filesz <= |buf|
    requires at + |Image(buf, h)| <= dest.Length
    modifies dest
    ensures dest[..] == Place(old(dest[..]), at, Image(buf, h))
  {
    ghost var m, file := dest[..], FileBytes(buf, h);
    CopyFile(dest, at, buf, h);
    var size := Rest(h);
    if size > 0 {
      MemSet(dest, at + h.filesz, size);
    } else {
      PlaceNothing(dest[..], at + |file|);
    }
    PlaceTwice(m, at, file, Zeros(Fill(h)));
  }

  lemma PlaceNothing(m: Bytes, at: nat)
    ensures Place(m, at, []) == m && Place(m, at, Zeros(0)) == m
  {
    assert Zeros(0) == [];
  }

  method CopyFile(dest: array<byte>, at: nat, buf: Bytes, h: Phdr)
    requires h.filesz != 0 ==> h.offset + h.filesz <= |buf| && at + h.filesz <= dest.Length
    modifies dest
    ensures dest[..] == Place(old(dest[..]), at, FileBytes(buf, h)) && |FileBytes(buf, h)| == h.filesz
  {
    if h.filesz != 0 {
      assert FileBytes(buf, h) == buf[h.offset..h.offset + h.filesz];
      KMemCpy(dest, at, buf, h.offset, h.filesz);
    } else {
      assert FileBytes(buf, h) == [];
      PlaceNothing(dest[..], at);
    }
  }

  lemma ImageFits(buf: Bytes, h: Phdr, filesize: nat, start: nat, end: nat)
    requires Loads(h) && HeaderCode(h, filesize, start, end) == 0 && filesize <= |buf|
    requires h.dest + Size(h) < U32MAX
    ensures start <= h.dest && h.dest + |Image(buf, h)| <= h.dest + Size(h) == Last(h) < end
    ensures h.filesz != 0 ==> h.offset + h.filesz <= |buf|
  {
  }

  /** The body of the loop of check_sections32 up to the entry test. */
  method CheckHeader(h: Phdr, filesize: nat, start: nat, end: nat, highest0: int) returns (code: int, highest: int)
    ensures code == HeaderCode(h, filesize, start, end)
    ensures code == 0 ==> highest == if Loads(h) && highest0 < Last(h) then Last(h) else highest0
  {
    highest := highest0;
    if h.kind == PT_LOAD && h.memsz != 0 {
      var size := h.memsz;
      if size < h.filesz {
        size := h.filesz;
      }
      if h.filesz != 0 {
        if h.filesz > LIMIT {
          return -31, highest;
        }
        if h.offset > LIMIT {
          return -31, highest;
        }
        if h.offset + h.filesz >= filesize {
          return -30, highest;
        }
      }
      var area := h.paddr / 0x1000_0000;
      if area != 8 && area != 0xA {
        return -2, highest;
      }
      var dest := h.dest;
      if dest < start {
        return -3, highest;
      }
      var last := Wrapped(dest + size);
      if highest < last {
        highest := last;
      }
      if last >= end {
        return -4, highest;
      }
    }
    return 0, highest;
  }

  lemma HeaderAt(buf: Bytes, i: nat)
    requires i < Phnum(buf)
    ensures Headers(buf)[i] == PhdrAt(buf, EHDR + PHDR * i)
    ensures Headers(buf)[..i + 1][..i] == Headers(buf)[..i] && Headers(buf)[..i + 1][i] == Headers(buf)[i]
  {
  }

  /** What the loop of check_sections32 has established after `i` headers. */
  ghost predicate Checked(buf: Bytes, hs: seq<Phdr>, start: nat, end: nat, entry: nat, highest: int, covered: bool) {
    && TableCode(hs, |buf|, start, end) == 0
    && highest == Highest(hs)
    && covered == Covered(hs, entry)
  }

  lemma CheckedNext(buf: Bytes, hs: seq<Phdr>, i: nat, j: nat, start: nat, end: nat, entry: nat, h0: int, c0: bool, h1: int, c1: bool)
    requires j == i + 1 <= |hs| && Checked(buf, hs[..i], start, end, entry, h0, c0)
    requires HeaderCode(hs[i], |buf|, start, end) == 0
    requires h1 == (if Loads(hs[i]) && h0 < Last(hs[i]) then Last(hs[i]) else h0) && c1 == (c0 || CoversEntry(hs[i], entry))
    ensures Checked(buf, hs[..j], start, end, entry, h1, c1)
  {
    assert hs[..j][..i] == hs[..i];
    CoveredNext(hs, i, entry);
  }

  lemma LoadNext(m: Bytes, buf: Bytes, hs: seq<Phdr>, i: nat, j: nat, base: nat)
    requires j == i + 1 <= |hs|
    ensures Load(m, buf, hs[..j], base) == Loaded(Load(m, buf, hs[..i], base), buf, hs[i], base)
  {
    assert hs[..j][..i] == hs[..i];
  }

  lemma TableStops(hs: seq<Phdr>, i: nat, filesize: nat, start: nat, end: nat)
    requires i < |hs| && TableCode(hs[..i], filesize, start, end) == 0
    requires HeaderCode(hs[i], filesize, start, end) != 0
    ensures TableCode(hs, filesize, start, end) == HeaderCode(hs[i], filesize, start, end)
  {
    assert hs[..i + 1][..i] == hs[..i];
    TableCodePrefix(hs, i + 1, filesize, start, end);
  }

  /** An accepted segment is written inside a buffer of `len` bytes.  This is what the caller owes:
      outside of it the copy would leave the buffer. */
  predicate FitsIn(buf: Bytes, h: Phdr, start: nat, end: nat, len: nat) {
    Loads(h) && HeaderCode(h, |buf|, start, end) == 0 ==> h.dest - start + |Image(buf, h)| <= len
  }

  predicate AllFitIn(buf: Bytes, hs: seq<Phdr>, start: nat, end: nat, len: nat) {
    forall i :: 0 <= i < |hs| ==> FitsIn(buf, hs[i], start, end, len)
  }

  /** A buffer of the size of the window is enough when no sum wraps. */
  lemma WindowFits(buf: Bytes, hs: seq<Phdr>, start: nat, end: nat, len: nat)
    requires NoWrap(hs) && len >= end - start
    ensures AllFitIn(buf, hs, start, end, len)
  {
    forall i | 0 <= i < |hs| ensures FitsIn(buf, hs[i], start, end, len) {
      if Loads(hs[i]) && HeaderCode(hs[i], |buf|, start, end) == 0 { ImageFits(buf, hs[i], |buf|, start, end); }
    }
  }

  /** The body of that loop. */
  method CheckAndLoad(h: Phdr, buf: Bytes, start: nat, end: nat, entry: nat, dest: array?<byte>, h0: int, c0: bool)
    returns (code: int, highest: int, covered: bool)
    requires dest != null ==> FitsIn(buf, h, start, end, dest.Length)
    modifies if dest != null then {dest} else {}
    ensures code == HeaderCode(h, |buf|, start, end)
    ensures code == 0 ==> highest == if Loads(h) && h0 < Last(h) then Last(h) else h0
    ensures code == 0 ==> covered == (c0 || CoversEntry(h, entry))
    ensures code == 0 && dest != null ==> dest[..] == Loaded(old(dest[..]), buf, h, start)
  {
    covered := c0;
    code, highest := CheckHeader(h, |buf|, start, end, h0);
    if code != 0 {
      return;
    }
    if Loads(h) {
      if h.dest <= entry && Wrapped(h.dest + Size(h)) > entry {
        covered := true;
      }
      if dest != null {
        CopySegment(dest, h.dest - start, buf, h);
      }
    }
  }

  /** One turn of the loop, with what it adds to the turns before it. */
  method CheckNext(buf: Bytes, ghost hs: seq<Phdr>, ghost i: nat, ghost j: nat, pos: nat, start: nat, end: nat, entry: nat,
                   dest: array?<byte>, ghost m: Bytes, h0: int, c0: bool)
    returns (code: int, highest: int, covered: bool)
    requires hs == Headers(buf) && j == i + 1 <= |hs| && pos == EHDR + PHDR * i
    requires Checked(buf, hs[..i], start, end, entry, h0, c0)
    requires dest != null ==> AllFitIn(buf, hs, start, end, dest.Length) && dest[..] == Load(m, buf, hs[..i], start)
    modifies if dest != null then {dest} else {}
    ensures code != 0 ==> code == TableCode(hs, |buf|, start, end)
    ensures code == 0 ==> Checked(buf, hs[..j], start, end, entry, highest, covered)
    ensures code == 0 && dest != null ==> dest[..] == Load(m, buf, hs[..j], start)
  {
    var h := PhdrAt(buf, pos);
    HeaderAt(buf, i);
    code, highest, covered := CheckAndLoad(h, buf, start, end, entry, dest, h0, c0);
    if code != 0 {
      TableStops(hs, i, |buf|, start, end);
    } else {
      LoadNext(m, buf, hs, i, j, start);
      CheckedNext(buf, hs, i, j, start, end, entry, h0, c0, highest, covered);
    }
  }

  /** The loop of check_sections32. */
  method CheckTable(buf: Bytes, start: nat, end: nat, entry: nat, dest: array?<byte>)
    returns (code: int, highest: int, covered: bool)
    requires dest != null ==> AllFitIn(buf, Headers(buf), start, end, dest.Length)
    modifies if dest != null then {dest} else {}
    ensures code == TableCode(Headers(buf), |buf|, start, end)
    ensures code == 0 ==> Checked(buf, Headers(buf), start, end, entry, highest, covered)
    ensures code == 0 && dest != null ==> dest[..] == Load(old(dest[..]), buf, Headers(buf), start)
  {
    ghost var hs := Headers(buf);
    ghost var m := if dest != null then dest[..] else [];
    highest, covered := 0, false;
    var pos, i := EHDR, 0;
    assert hs[..0] == [];
    while i < Phnum(buf)
      invariant 0 <= i <= |hs| && pos == EHDR + PHDR * i
      invariant Checked(buf, hs[..i], start, end, entry, highest, covered)
      invariant dest != null ==> dest[..] == Load(m, buf, hs[..i], start)
    {
      var done := i;
      i := i + 1;
      code, highest, covered := CheckNext(buf, hs, done, i, pos, start, end, entry, dest, m, highest, covered);
      pos := pos + PHDR;
      if code != 0 {
        return;
      }
    }
    assert hs[..i] == hs;
    code := 0;
  }

  /** check_sections32; a null destination only checks.  Accepting with a destination means: it
      holds its old contents overlaid with the segments in order. */
  method CheckSections32(buf: Bytes, start: nat, end: nat, dest: array?<byte>) returns (code: int, highest: int)
    requires EHDR + PHDR * Phnum(buf) <= |buf|
    requires dest != null ==> AllFitIn(buf, Headers(buf), start, end, dest.Length)
    modifies if dest != null then {dest} else {}
    ensures code == CheckCode(buf, |buf|, start, end)
    ensures code == 0 ==> highest == Highest(Headers(buf))
    ensures code == 0 && dest != null ==> dest[..] == Load(old(dest[..]), buf, Headers(buf), start)
    ensures code == 0 && dest != null && WellFormed(Headers(buf)) && SmallFills(Headers(buf)) ==>
              AllLoaded(dest[..], buf, Headers(buf), start)
  {
    highest := 0;
    if U32(buf, 0) != ELFMAGIC {
      return -1, highest;
    }
    var entry := Entry(buf);
    if !Reachable(entry) {
      return -20, highest;
    }
    entry := Phys(entry);
    if entry < start || entry >= end {
      return -21, highest;
    }
    var covered;
    code, highest, covered := CheckTable(buf, start, end, entry, dest);
    if code != 0 {
      return;
    }
    if !covered {
      return -5, highest;
    }
    if dest != null && WellFormed(Headers(buf)) && SmallFills(Headers(buf)) {
      CheckLoaded(old(dest[..]), buf, Headers(buf), start, end);
    }
  }

  predicate SmallFills(hs: seq<Phdr>) {
    forall i :: 0 <= i < |hs| && Loads(hs[i]) ==> hs[i].memsz < hs[i].filesz + 0x8000_0000 && hs[i].memsz < U32MAX
  }

  lemma CheckLoaded(m: Bytes, buf: Bytes, hs: seq<Phdr>, start: nat, end: nat)
    requires TableCode(hs, |buf|, start, end) == 0 && WellFormed(hs) && SmallFills(hs) && AllFitIn(buf, hs, start, end, |m|)
    ensures AllLoaded(Load(m, buf, hs, start), buf, hs, start)
  {
    forall i | 0 <= i < |hs| && Loads(hs[i]) { CheckedBytes(m, buf, hs, start, end, i); }
  }

  lemma {:induction false} TableCodePrefix(hs: seq<Phdr>, i: nat, filesize: nat, start: nat, end: nat)
    requires i <= |hs| && TableCode(hs[..i], filesize, start, end) != 0
    ensures TableCode(hs, filesize, start, end) == TableCode(hs[..i], filesize, start, end)
  {
    if i < |hs| {
      var t := hs[..|hs| - 1];
      assert t[..i] == hs[..i];
      TableCodePrefix(t, i, filesize, start, end);
    } else {
      assert hs[..i] == hs;
    }
  }

  lemma CoveredNext(hs: seq<Phdr>, i: nat, entry: nat)
    requires i < |hs|
    ensures Covered(hs[..i + 1], entry) <==> Covered(hs[..i], entry) || CoversEntry(hs[i], entry)
  {
    if Covered(hs[..i], entry) {
      var k :| 0 <= k < i && CoversEntry(hs[..i][k], entry);
      assert CoversEntry(hs[..i + 1][k], entry);
    }
    if CoversEntry(hs[i], entry) { assert CoversEntry(hs[..i + 1][i], entry); }
    if Covered(hs[..i + 1], entry) {
      var k :| 0 <= k < i + 1 && CoversEntry(hs[..i + 1][k], entry);
      assert k < i ==> CoversEntry(hs[..i][k], entry);
    }
  }

  // ------------------------------------------------- what an accepted table means

  lemma {:induction false} TableAccepted(hs: seq<Phdr>, filesize: nat, start: nat, end: nat, i: nat)
    requires TableCode(hs, filesize, start, end) == 0 && i < |hs|
    ensures HeaderCode(hs[i], filesize, start, end) == 0
  {
    if i < |hs| - 1 { TableAccepted(hs[..|hs| - 1], filesize, start, end, i); }
  }

  lemma {:induction false} HighestBounds(hs: seq<Phdr>, i: nat)
    requires i < |hs| && Loads(hs[i])
    ensures Last(hs[i]) <= Highest(hs)
  {
    if i < |hs| - 1 { HighestBounds(hs[..|hs| - 1], i); }
  }

  lemma {:induction false} HighestReached(hs: seq<Phdr>)
    ensures Highest(hs) == 0 || exists i :: 0 <= i < |hs| && Loads(hs[i]) && Highest(hs) == Last(hs[i])
  {
    if hs != [] {
      var t := hs[..|hs| - 1];
      HighestReached(t);
      if Highest(hs) == Highest(t) && Highest(t) != 0 {
        var i :| 0 <= i < |t| && Loads(t[i]) && Highest(t) == Last(t[i]);
        assert Loads(hs[i]) && Highest(hs) == Last(hs[i]);
      }
    }
  }

  /** `highest` is the maximum segment end. */
  lemma HighestIsMaximum(hs: seq<Phdr>, filesize: nat, start: nat, end: nat, i: nat)
    requires TableCode(hs, filesize, start, end) == 0 && i < |hs| && Loads(hs[i])
    ensures Last(hs[i]) <= Highest(hs) && (Highest(hs) == 0 || Highest(hs) < end)
    ensures Highest(hs) == 0 || exists k :: 0 <= k < |hs| && Loads(hs[k]) && Highest(hs) == Last(hs[k])
  {
    HighestBounds(hs, i);
    HighestReached(hs);
    if Highest(hs) != 0 {
      var k :| 0 <= k < |hs| && Loads(hs[k]) && Highest(hs) == Last(hs[k]);
      TableAccepted(hs, filesize, start, end, k);
    }
  }

  /** The entry point of an accepted kernel lies in a loaded segment. */
  lemma EntryLoaded(buf: Bytes, filesize: nat, start: nat, end: nat)
    requires CheckCode(buf, filesize, start, end) == 0
    ensures exists i :: 0 <= i < |Headers(buf)| && CoversEntry(Headers(buf)[i], Phys(Entry(buf)))
    ensures TableCode(Headers(buf), filesize, start, end) == 0
  {
  }

  predicate Inside(h: Phdr, start: nat, end: nat) {
    Loads(h) ==> start <= h.dest && h.dest + Size(h) < end
  }

  /** An accepted table keeps every segment inside the window exactly when no 32-bit sum wraps. */
  lemma InsideIffNoWrap(hs: seq<Phdr>, filesize: nat, start: nat, end: nat)
    requires TableCode(hs, filesize, start, end) == 0 && end <= U32MAX
    ensures NoWrap(hs) <==> forall i :: 0 <= i < |hs| ==> Inside(hs[i], start, end)
  {
    forall i | 0 <= i < |hs| ensures Loads(hs[i]) ==> start <= hs[i].dest && Last(hs[i]) < end {
      TableAccepted(hs, filesize, start, end, i);
    }
    if forall i :: 0 <= i < |hs| ==> Inside(hs[i], start, end) {
      forall i | 0 <= i < |hs| && Loads(hs[i]) ensures hs[i].dest + Size(hs[i]) < U32MAX {
        assert Inside(hs[i], start, end);
      }
    }
  }

  /** A whole file that is accepted although a segment passes the end of the window: a file header
      and two program headers, the second of which has a wrapped sum. */
  const WRAPPED_WORDS: seq<nat> :=
    [ELFMAGIC, 0, 0, 0, 0, 0, 0x80100000, 0, 0, 0, 0, 2, 0] + WRAPPED_FIRST + WRAPPED_SECOND
  const WRAPPED_FIRST: seq<nat> := [PT_LOAD, 0, 0, 0x80100000, 0, 0x1000, 0, 0]
  const WRAPPED_SECOND: seq<nat> := [PT_LOAD, 0, 0, 0x80100000, 0, 0xFFF00000, 0, 0]

  lemma WrappedWords()
    ensures |WRAPPED_WORDS| == 29
    ensures WRAPPED_WORDS[0] == ELFMAGIC && WRAPPED_WORDS[6] == 0x80100000 && WRAPPED_WORDS[11] == 2
    ensures HeaderWords(WRAPPED_WORDS, 13, WRAPPED_FIRST) && HeaderWords(WRAPPED_WORDS, 21, WRAPPED_SECOND)
  {
  }

  /** The eight words of a program header, at word `k` of a file. */
  predicate HeaderWords(ws: seq<nat>, k: nat, h: seq<nat>) {
    |h| == 8 && k + 8 <= |ws| && ws[k..k + 8] == h && forall i :: 0 <= i < 8 ==> h[i] < 0x100000000
  }

  lemma HeaderRead(ws: seq<nat>, k: nat, h: seq<nat>)
    requires HeaderWords(ws, k, h)
    ensures PhdrAt(Words(ws), 4 * k) == Phdr(h[0], h[1], h[3], Phys(h[3]), h[4], h[5])
  {
    assert ws[k] == h[0] && ws[k + 1] == h[1] && ws[k + 3] == h[3] && ws[k + 4] == h[4] && ws[k + 5] == h[5];
    WordRead(ws, k);
    WordRead(ws, k + 1);
    WordRead(ws, k + 3);
    WordRead(ws, k + 4);
    WordRead(ws, k + 5);
  }

  lemma TwoHeaders(ws: seq<nat>, g: seq<nat>, h: seq<nat>) returns (buf: Bytes, hs: seq<Phdr>)
    requires |ws| == 29 && ws[0] == ELFMAGIC && ws[6] == 0x80100000 && ws[11] == 2
    requires HeaderWords(ws, 13, g) && HeaderWords(ws, 21, h)
    ensures buf == Words(ws) && |buf| == 116 && hs == Headers(buf) && |hs| == 2
    ensures U32(buf, 0) == ELFMAGIC && Entry(buf) == 0x80100000
    ensures hs[0] == Phdr(g[0], g[1], g[3], Phys(g[3]), g[4], g[5]) && hs[1] == Phdr(h[0], h[1], h[3], Phys(h[3]), h[4], h[5])
  {
    buf, hs := Words(ws), Headers(Words(ws));
    WordRead(ws, 0);
    WordRead(ws, 6);
    HalfRead(ws, 11);
    HeaderRead(ws, 13, g);
    HeaderRead(ws, 21, h);
  }

  lemma WrappedTable(hs: seq<Phdr>)
    requires |hs| == 2 && hs[0] == Phdr(PT_LOAD, 0, 0x80100000, 0x100000, 0, 0x1000)
    requires hs[1] == Phdr(PT_LOAD, 0, 0x80100000, 0x100000, 0, 0xFFF00000)
    ensures TableCode(hs, 116, 0x10000, 0x2000000) == 0 && Covered(hs, 0x100000) && !Inside(hs[1], 0x10000, 0x2000000)
  {
    assert hs[..1][..0] == [] && TableCode(hs[..1], 116, 0x10000, 0x2000000) == 0;
    assert CoversEntry(hs[0], 0x100000);
  }

  lemma WrappedKernel()
    ensures var buf := Words(WRAPPED_WORDS);
            && CheckCode(buf, |buf|, 0x10000, 0x2000000) == 0
            && |Headers(buf)| == 2 && !Inside(Headers(buf)[1], 0x10000, 0x2000000)
  {
    WrappedWords();
    var buf := WrappedFile(WRAPPED_WORDS, WRAPPED_FIRST, WRAPPED_SECOND);
  }

  lemma WrappedFile(ws: seq<nat>, g: seq<nat>, h: seq<nat>) returns (buf: Bytes)
    requires |ws| == 29 && ws[0] == ELFMAGIC && ws[6] == 0x80100000 && ws[11] == 2
    requires HeaderWords(ws, 13, g) && HeaderWords(ws, 21, h)
    requires g[0] == h[0] == PT_LOAD && g[1] == h[1] == 0 && g[3] == h[3] == 0x80100000 && g[4] == h[4] == 0
    requires g[5] == 0x1000 && h[5] == 0xFFF00000
    ensures buf == Words(ws) && CheckCode(buf, |buf|, 0x10000, 0x2000000) == 0
    ensures |Headers(buf)| == 2 && !Inside(Headers(buf)[1], 0x10000, 0x2000000)
  {
    var hs;
    buf, hs := TwoHeaders(ws, g, h);
    WrappedHeader(hs[0], g, 0x1000);
    WrappedHeader(hs[1], h, 0xFFF00000);
    WrappedAccepted(buf, hs);
  }

  lemma WrappedHeader(p: Phdr, g: seq<nat>, size: nat)
    requires |g| == 8 && g[0] == PT_LOAD && g[1] == 0 && g[3] == 0x80100000 && g[4] == 0 && g[5] == size
    requires p == Phdr(g[0], g[1], g[3], Phys(g[3]), g[4], g[5])
    ensures p == Phdr(PT_LOAD, 0, 0x80100000, 0x100000, 0, size)
  {
  }

  lemma WrappedAccepted(buf: Bytes, hs: seq<Phdr>)
    requires |buf| == 116 && hs == Headers(buf) && U32(buf, 0) == ELFMAGIC && Entry(buf) == 0x80100000
    requires |hs| == 2 && hs[0] == Phdr(PT_LOAD, 0, 0x80100000, 0x100000, 0, 0x1000)
    requires hs[1] == Phdr(PT_LOAD, 0, 0x80100000, 0x100000, 0, 0xFFF00000)
    ensures CheckCode(buf, |buf|, 0x10000, 0x2000000) == 0 && !Inside(hs[1], 0x10000, 0x2000000)
  {
    WrappedTable(hs);
  }

  // ------------------------------------------------------------ copy and verify

  /** Physical bytes a loaded segment occupies. */
  predicate InSegment(h: Phdr, x: int) {
    Loads(h) && h.dest <= x < h.dest + Size(h)
  }

  /** The segment writes no more bytes than it occupies. */
  predicate Bounded(buf: Bytes, h: Phdr) {
    Loads(h) ==> |Image(buf, h)| <= Size(h)
  }

  lemma LoadedFrame(m: Bytes, buf: Bytes, h: Phdr, base: nat, x: nat)
    requires x < |m| && !InSegment(h, x + base) && Bounded(buf, h)
    ensures Loaded(m, buf, h, base)[x] == m[x]
  {
  }

  /** Only bytes of segments are written. */
  lemma {:induction false} LoadFrame(m: Bytes, buf: Bytes, hs: seq<Phdr>, base: nat, x: nat)
    requires x < |m| && forall i :: 0 <= i < |hs| ==> !InSegment(hs[i], x + base) && Bounded(buf, hs[i])
    ensures Load(m, buf, hs, base)[x] == m[x]
  {
    if hs != [] {
      var n := |hs| - 1;
      var h, before := hs[n], Load(m, buf, hs[..n], base);
      LoadFrame(m, buf, hs[..n], base, x);
      assert !InSegment(h, x + base) && Bounded(buf, h);
      LoadedFrame(before, buf, h, base, x);
    }
  }

  predicate Apart(g: Phdr, h: Phdr) {
    Loads(g) && Loads(h) ==> g.dest + Size(g) <= h.dest || h.dest + Size(h) <= g.dest
  }

  predicate Disjoint(hs: seq<Phdr>) {
    forall i, j :: 0 <= i < j < |hs| ==> Apart(hs[i], hs[j])
  }

  /** What a segment writes lies in a memory of `size` bytes, whose first byte has address `base`, and
      is no more than it occupies. */
  predicate Fits(buf: Bytes, h: Phdr, base: nat, size: nat) {
    Bounded(buf, h) && (Loads(h) ==> base <= h.dest && h.dest - base + |Image(buf, h)| <= size)
  }

  predicate AllFit(buf: Bytes, hs: seq<Phdr>, base: nat, size: nat) {
    forall k :: 0 <= k < |hs| ==> Fits(buf, hs[k], base, size)
  }

  lemma FitPrefix(buf: Bytes, hs: seq<Phdr>, base: nat, size: nat, n: nat)
    requires AllFit(buf, hs, base, size) && Disjoint(hs) && n <= |hs|
    ensures AllFit(buf, hs[..n], base, size) && Disjoint(hs[..n])
  {
  }

  /** With disjoint segments each one is in memory as it was placed. */
  lemma {:induction false} LoadHolds(m: Bytes, buf: Bytes, hs: seq<Phdr>, base: nat, i: nat, x: nat, at: nat)
    requires i < |hs| && Loads(hs[i]) && x < |Image(buf, hs[i])| && Disjoint(hs) && AllFit(buf, hs, base, |m|)
    requires at + base == hs[i].dest + x
    ensures at < |m| && Load(m, buf, hs, base)[at] == Image(buf, hs[i])[x]
  {
    var n := |hs| - 1;
    var h, last, before := hs[i], hs[n], Load(m, buf, hs[..n], base);
    assert Fits(buf, h, base, |m|);
    if i < n {
      FitPrefix(buf, hs, base, |m|, n);
      LoadHolds(m, buf, hs[..n], base, i, x, at);
      assert Apart(h, last) && Fits(buf, last, base, |m|);
      LoadedFrame(before, buf, last, base, at);
    } else {
      LoadedReads(before, buf, h, base, x, at);
    }
  }

  lemma LoadedReads(m: Bytes, buf: Bytes, h: Phdr, base: nat, x: nat, at: nat)
    requires Loads(h) && Fits(buf, h, base, |m|) && x < |Image(buf, h)| && at + base == h.dest + x
    ensures at < |m| && Loaded(m, buf, h, base)[at] == Image(buf, h)[x]
  {
  }

  // --------------------------------------------- the segments by file and memory bytes

  /** Byte `k` of a segment in memory `m`, whose first byte has address `base`: file byte
      `offset + k`, or zero behind the file part. */
  predicate ByteLoaded(m: Bytes, buf: Bytes, h: Phdr, base: nat, k: nat) {
    && 0 <= h.dest + k - base < |m|
    && if k < h.filesz then h.offset + k < |buf| && m[h.dest + k - base] == buf[h.offset + k] else m[h.dest + k - base] == 0
  }

  /** The whole segment is there. */
  predicate SegmentLoaded(m: Bytes, buf: Bytes, h: Phdr, base: nat) {
    forall k :: 0 <= k < h.memsz ==> ByteLoaded(m, buf, h, base, k)
  }

  /** The zero fill is computed in a signed integer: it is the whole rest of the segment if and only
      if that is below 2^31. */
  lemma FillExact(h: Phdr)
    requires h.filesz <= h.memsz < U32MAX
    ensures Fill(h) == h.memsz - h.filesz <==> h.memsz - h.filesz < 0x8000_0000
  {
  }

  lemma ImageByte(buf: Bytes, h: Phdr, k: nat)
    requires k < h.memsz && h.filesz <= h.memsz < h.filesz + 0x8000_0000 && h.memsz < U32MAX
    requires h.filesz != 0 ==> h.offset + h.filesz <= |buf|
    ensures k < |Image(buf, h)| && Image(buf, h)[k] == if k < h.filesz then buf[h.offset + k] else 0
  {
    FillExact(h);
  }

  /** The header describes a segment that is copied and filled as it says. */
  predicate Regular(buf: Bytes, h: Phdr) {
    && (h.filesz != 0 ==> h.offset + h.filesz <= |buf|)
    && h.filesz <= h.memsz < h.filesz + 0x8000_0000 && h.memsz < U32MAX
  }

  lemma ByteIs(r: Bytes, buf: Bytes, h: Phdr, base: nat, k: nat, at: nat)
    requires Regular(buf, h) && k < h.memsz && k < |Image(buf, h)| && at + base == h.dest + k && at < |r| && r[at] == Image(buf, h)[k]
    ensures ByteLoaded(r, buf, h, base, k)
  {
    ImageByte(buf, h, k);
  }

  lemma ByteInside(buf: Bytes, h: Phdr, base: nat, size: nat, k: nat) returns (at: nat)
    requires Loads(h) && Fits(buf, h, base, size) && Regular(buf, h) && k < h.memsz
    ensures k < |Image(buf, h)| && at + base == h.dest + k
  {
    ImageByte(buf, h, k);
    at := h.dest + k - base;
  }

  lemma LoadByte(m: Bytes, buf: Bytes, hs: seq<Phdr>, base: nat, i: nat, k: nat)
    requires i < |hs| && Loads(hs[i]) && Disjoint(hs) && AllFit(buf, hs, base, |m|) && Regular(buf, hs[i]) && k < hs[i].memsz
    ensures ByteLoaded(Load(m, buf, hs, base), buf, hs[i], base, k)
  {
    var at := ByteInside(buf, hs[i], base, |m|, k);
    LoadHolds(m, buf, hs, base, i, k, at);
    ByteIs(Load(m, buf, hs, base), buf, hs[i], base, k, at);
  }

  /** After loading disjoint segments into a memory that holds them, each one is there, byte by byte. */
  lemma LoadBytes(m: Bytes, buf: Bytes, hs: seq<Phdr>, base: nat, i: nat)
    requires i < |hs| && Loads(hs[i]) && Disjoint(hs) && AllFit(buf, hs, base, |m|) && Regular(buf, hs[i])
    ensures SegmentLoaded(Load(m, buf, hs, base), buf, hs[i], base)
  {
    forall k | 0 <= k < hs[i].memsz { LoadByte(m, buf, hs, base, i, k); }
  }

  /** The bytes from the file are in memory. */
  predicate FilePart(m: Bytes, buf: Bytes, h: Phdr) {
    h.dest + h.filesz <= |m| && m[h.dest..h.dest + h.filesz] == FileBytes(buf, h)
  }

  /** The zero fill is tested at its first byte only. */
  predicate FillPart(m: Bytes, h: Phdr) {
    h.memsz != h.filesz ==> At(m, h.dest + h.filesz) == 0
  }

  /** The test verify_sections32 makes on one header. */
  predicate HeaderVerifies(m: Bytes, buf: Bytes, h: Phdr) {
    Loads(h) ==> FilePart(m, buf, h) && FillPart(m, h)
  }

  predicate DiffersAt(m: Bytes, buf: Bytes, h: Phdr, k: nat)
    requires h.offset + k < |buf| && h.dest + k < |m|
  {
    m[h.dest + k] != buf[h.offset + k]
  }

  /** What makes verify_sections32 panic, by file and memory bytes. */
  predicate Differs(m: Bytes, buf: Bytes, h: Phdr)
    requires h.filesz != 0 ==> h.offset + h.filesz <= |buf|
    requires h.dest + h.filesz < |m|
  {
    || (exists k :: 0 <= k < h.filesz && DiffersAt(m, buf, h, k))
    || (h.memsz != h.filesz && m[h.dest + h.filesz] != 0)
  }

  lemma DiffersExactly(m: Bytes, buf: Bytes, h: Phdr)
    requires Loads(h) && (h.filesz != 0 ==> h.offset + h.filesz <= |buf|) && h.dest + h.filesz < |m|
    ensures Differs(m, buf, h) <==> !HeaderVerifies(m, buf, h)
  {
    var x, f := m[h.dest..h.dest + h.filesz], FileBytes(buf, h);
    assert |f| == h.filesz;
    forall k | 0 <= k < h.filesz ensures DiffersAt(m, buf, h, k) <==> x[k] != f[k] {}
  }

  /** The memory of the segment is exactly its image. */
  predicate Held(m: Bytes, buf: Bytes, h: Phdr) {
    h.dest + h.memsz <= |m| && m[h.dest..h.dest + h.memsz] == Image(buf, h)
  }

  /** A segment that is in memory passes the test. */
  lemma HeldVerifies(m: Bytes, buf: Bytes, h: Phdr)
    requires Held(m, buf, h) && |FileBytes(buf, h)| == h.filesz <= h.memsz
    ensures HeaderVerifies(m, buf, h)
  {
    var x, y := m[h.dest..h.dest + h.memsz], Image(buf, h);
    assert m[h.dest..h.dest + h.filesz] == x[..h.filesz] && FileBytes(buf, h) == y[..h.filesz];
    if h.memsz != h.filesz {
      assert x[h.filesz] == y[h.filesz];
    }
  }

  lemma VerifiedHeld(m: Bytes, buf: Bytes, h: Phdr)
    requires Loads(h) && HeaderVerifies(m, buf, h) && h.filesz <= h.memsz <= h.filesz + 1 && h.dest + h.memsz <= |m|
    requires |FileBytes(buf, h)| == h.filesz
    ensures Held(m, buf, h)
  {
    var x, y := m[h.dest..h.dest + h.memsz], Image(buf, h);
    assert |y| == h.memsz;
    assert m[h.dest..h.dest + h.filesz] == x[..h.filesz] && FileBytes(buf, h) == y[..h.filesz];
    forall k | 0 <= k < |x| ensures x[k] == y[k] {
      if k < h.filesz { assert x[..h.filesz][k] == y[..h.filesz][k]; }
    }
  }

  /** Because one byte is tested for all of the fill, verification is exact only for a fill of at
      most one byte. */
  lemma VerifyExact(m: Bytes, buf: Bytes, h: Phdr)
    requires Loads(h) && h.filesz <= h.memsz <= h.filesz + 1 && h.dest + h.memsz <= |m|
    requires |FileBytes(buf, h)| == h.filesz
    ensures HeaderVerifies(m, buf, h) <==> Held(m, buf, h)
  {
    if HeaderVerifies(m, buf, h) {
      VerifiedHeld(m, buf, h);
    }
    if Held(m, buf, h) {
      HeldVerifies(m, buf, h);
    }
  }

  /** With a longer fill a dirty last byte goes unnoticed, whatever the segment. */
  lemma DirtyFillPasses(m: Bytes, buf: Bytes, h: Phdr, dirt: byte)
    requires Loads(h) && h.memsz > h.filesz + 1 && |FileBytes(buf, h)| == h.filesz && Held(m, buf, h) && dirt != 0
    ensures var m' := m[h.dest + h.memsz - 1 := dirt]; HeaderVerifies(m', buf, h) && !Held(m', buf, h)
  {
    var e := h.dest + h.memsz - 1;
    var m', y := m[e := dirt], Image(buf, h);
    var x := m[h.dest..h.dest + h.memsz];
    assert x[h.filesz] == y[h.filesz] == 0;
    assert m'[h.dest..h.dest + h.filesz] == x[..h.filesz] == y[..h.filesz];
    assert m'[h.dest..h.dest + h.memsz][h.memsz - 1] == dirt && y[h.memsz - 1] == 0;
  }

  predicate FileFits(h: Phdr) {
    Loads(h) ==> h.filesz <= h.memsz
  }

  /** An accepted table none of whose sums wraps. */
  ghost predicate Accepted(buf: Bytes, hs: seq<Phdr>, start: nat, end: nat) {
    TableCode(hs, |buf|, start, end) == 0 && NoWrap(hs) && end <= 0x2000_0000
  }

  /** Segments are apart from each other and no file part is longer than its segment. */
  predicate WellFormed(hs: seq<Phdr>) {
    Disjoint(hs) && forall i :: 0 <= i < |hs| ==> FileFits(hs[i])
  }

  lemma AcceptedSegment(buf: Bytes, hs: seq<Phdr>, start: nat, end: nat, i: nat)
    requires Accepted(buf, hs, start, end) && i < |hs| && Loads(hs[i])
    ensures var h := hs[i];
            && start <= h.dest && h.dest + Size(h) <= Highest(hs) < end
            && |FileBytes(buf, h)| == h.filesz && |Image(buf, h)| == Size(h)
  {
    TableAccepted(hs, |buf|, start, end, i);
    HighestIsMaximum(hs, |buf|, start, end, i);
  }

  /** The copy writes nothing below the window and nothing from `highest` on: not the ELF file, not
      the loader, not an initrd placed behind the kernel. */
  lemma CopyStaysBelow(m: Bytes, buf: Bytes, hs: seq<Phdr>, start: nat, end: nat, x: nat)
    requires Accepted(buf, hs, start, end) && x < |m| && (x < start || x >= Highest(hs))
    ensures Load(m, buf, hs, 0)[x] == m[x]
  {
    forall i | 0 <= i < |hs| ensures !InSegment(hs[i], x) && Bounded(buf, hs[i]) {
      if Loads(hs[i]) { AcceptedSegment(buf, hs, start, end, i); }
    }
    LoadFrame(m, buf, hs, 0, x);
  }

  /** Byte `k` of `f` is in place, at `d`. */
  predicate InPlace(r: Bytes, d: nat, f: Bytes, k: nat) {
    k < |f| && d + k < |r| && r[d + k] == f[k]
  }

  lemma SameSlice(r: Bytes, f: Bytes, d: nat, at: nat)
    requires at == d + |f| <= |r| && forall k :: 0 <= k < |f| ==> InPlace(r, d, f, k)
    ensures r[d..at] == f
  {
    forall k | 0 <= k < |f| ensures r[d..at][k] == f[k] { assert InPlace(r, d, f, k); }
  }

  lemma SegmentByte(m: Bytes, buf: Bytes, hs: seq<Phdr>, start: nat, end: nat, i: nat, x: nat)
    requires Accepted(buf, hs, start, end) && WellFormed(hs) && end <= |m| && i < |hs| && Loads(hs[i]) && x < |Image(buf, hs[i])|
    ensures InPlace(Load(m, buf, hs, 0), hs[i].dest, Image(buf, hs[i]), x)
  {
    AcceptedFits(buf, hs, start, end, |m|);
    LoadHolds(m, buf, hs, 0, i, x, hs[i].dest + x);
  }

  lemma AcceptedFits(buf: Bytes, hs: seq<Phdr>, start: nat, end: nat, size: nat)
    requires Accepted(buf, hs, start, end) && end <= size
    ensures AllFit(buf, hs, 0, size)
  {
    forall k | 0 <= k < |hs| ensures Fits(buf, hs[k], 0, size) {
      if Loads(hs[k]) { AcceptedSegment(buf, hs, start, end, k); }
    }
  }

  /** After the copy every segment is in memory. */
  lemma SegmentHeld(m: Bytes, buf: Bytes, hs: seq<Phdr>, start: nat, end: nat, i: nat)
    requires Accepted(buf, hs, start, end) && WellFormed(hs) && end <= |m| && i < |hs| && Loads(hs[i])
    ensures Held(Load(m, buf, hs, 0), buf, hs[i]) && |FileBytes(buf, hs[i])| == hs[i].filesz <= hs[i].memsz
  {
    assert FileFits(hs[i]);
    AcceptedSegment(buf, hs, start, end, i);
    forall x | 0 <= x < |Image(buf, hs[i])| { SegmentByte(m, buf, hs, start, end, i, x); }
    SameSlice(Load(m, buf, hs, 0), Image(buf, hs[i]), hs[i].dest, hs[i].dest + hs[i].memsz);
  }

  /** Every segment is there, byte by byte. */
  predicate AllLoaded(m: Bytes, buf: Bytes, hs: seq<Phdr>, base: nat) {
    forall i :: 0 <= i < |hs| && Loads(hs[i]) ==> SegmentLoaded(m, buf, hs[i], base)
  }

  lemma CopyBytes(m: Bytes, buf: Bytes, hs: seq<Phdr>, start: nat, end: nat)
    requires Accepted(buf, hs, start, end) && WellFormed(hs) && end <= |m|
    ensures AllLoaded(Load(m, buf, hs, 0), buf, hs, 0)
  {
    AcceptedFits(buf, hs, start, end, |m|);
    forall i | 0 <= i < |hs| && Loads(hs[i]) ensures SegmentLoaded(Load(m, buf, hs, 0), buf, hs[i], 0) {
      assert FileFits(hs[i]);
      AcceptedSegment(buf, hs, start, end, i);
      LoadBytes(m, buf, hs, 0, i);
    }
  }

  /** The same for the destination of check_sections32, which stands for the memory from `start` on;
      a zero fill of 2^31 bytes or more is not made. */
  lemma CheckedBytes(m: Bytes, buf: Bytes, hs: seq<Phdr>, start: nat, end: nat, i: nat)
    requires TableCode(hs, |buf|, start, end) == 0 && WellFormed(hs) && AllFitIn(buf, hs, start, end, |m|)
    requires i < |hs| && Loads(hs[i]) && hs[i].memsz < hs[i].filesz + 0x8000_0000 && hs[i].memsz < U32MAX
    ensures SegmentLoaded(Load(m, buf, hs, start), buf, hs[i], start)
  {
    forall k | 0 <= k < |hs| ensures Fits(buf, hs[k], start, |m|) { CheckedFits(buf, hs, start, end, |m|, k); }
    assert FileFits(hs[i]);
    TableAccepted(hs, |buf|, start, end, i);
    LoadBytes(m, buf, hs, start, i);
  }

  lemma CheckedFits(buf: Bytes, hs: seq<Phdr>, start: nat, end: nat, size: nat, k: nat)
    requires TableCode(hs, |buf|, start, end) == 0 && WellFormed(hs) && AllFitIn(buf, hs, start, end, size) && k < |hs|
    ensures Fits(buf, hs[k], start, size)
  {
    if Loads(hs[k]) {
      assert FileFits(hs[k]) && FitsIn(buf, hs[k], start, end, size);
      TableAccepted(hs, |buf|, start, end, k);
    }
  }

  /** So every header verifies, and verify_sections32 does not panic. */
  lemma CopyVerifies(m: Bytes, buf: Bytes, hs: seq<Phdr>, start: nat, end: nat, i: nat)
    requires Accepted(buf, hs, start, end) && WellFormed(hs) && end <= |m| && i < |hs|
    ensures HeaderVerifies(Load(m, buf, hs, 0), buf, hs[i])
  {
    if Loads(hs[i]) {
      SegmentHeld(m, buf, hs, start, end, i);
      HeldVerifies(Load(m, buf, hs, 0), buf, hs[i]);
    }
  }

  // --------------------------------------------------------- the kernel in memory

  /** Copying a prefix of the table leaves the ELF file, which lies behind the window, alone. */
  lemma FileUntouched(m: Bytes, buf: Bytes, hs: seq<Phdr>, k: nat, start: nat, end: nat, b: nat)
    requires Accepted(buf, hs, start, end) && k <= |hs| && end <= b && b + |buf| <= |m| && m[b..b + |buf|] == buf
    ensures Load(m, buf, hs[..k], 0)[b..b + |buf|] == buf
  {
    var r := Load(m, buf, hs[..k], 0);
    forall x | b <= x < b + |buf| ensures r[x] == m[x] {
      forall i | 0 <= i < k ensures !InSegment(hs[..k][i], x) && Bounded(buf, hs[..k][i]) {
        if Loads(hs[i]) { AcceptedSegment(buf, hs, start, end, i); }
      }
      LoadFrame(m, buf, hs[..k], 0, x);
    }
    assert r[b..b + |buf|] == m[b..b + |buf|];
  }

  /** What one turn of the copy finds. */
  lemma CopyTurn(m: Bytes, now: Bytes, buf: Bytes, hs: seq<Phdr>, i: nat, j: nat, start: nat, end: nat, b: nat, e: nat)
    requires Accepted(buf, hs, start, end) && hs == Headers(buf) && j == i + 1 <= |hs|
    requires end <= b && e == b + |buf| <= |m| && m[b..e] == buf && now == Load(m, buf, hs[..i], 0)
    ensures now[b..e] == buf && PhdrAt(buf, EHDR + PHDR * i) == hs[i]
    ensures Load(m, buf, hs[..j], 0) == Loaded(now, buf, hs[i], 0)
    ensures Loads(hs[i]) ==> (hs[i].filesz != 0 ==> hs[i].offset + hs[i].filesz <= |buf|) && hs[i].dest + |Image(buf, hs[i])| <= |m|
  {
    FileUntouched(m, buf, hs, i, start, end, b);
    HeaderAt(buf, i);
    LoadNext(m, buf, hs, i, j, 0);
    if Loads(hs[i]) {
      AcceptedSegment(buf, hs, start, end, i);
      TableAccepted(hs, |buf|, start, end, i);
    }
  }

  /** One turn of the loop of copy_sections32: the header is read from memory as the copy left it. */
  method CopyHeader(mem: array<byte>, b: nat, size: nat, pos: nat, ghost m: Bytes, ghost buf: Bytes, ghost i: nat, ghost j: nat,
                    ghost start: nat, ghost end: nat)
    requires Accepted(buf, Headers(buf), start, end) && j == i + 1 <= |Headers(buf)| && pos == EHDR + PHDR * i
    requires size == |buf| && end <= b && b + size <= |m| && m[b..b + size] == buf
    requires mem[..] == Load(m, buf, Headers(buf)[..i], 0)
    modifies mem
    ensures mem[..] == Load(m, buf, Headers(buf)[..j], 0)
  {
    CopyTurn(m, mem[..], buf, Headers(buf), i, j, start, end, b, b + size);
    var file := mem[..][b..b + size];
    var h := PhdrAt(file, pos);
    if Loads(h) {
      CopySegment(mem, h.dest, file, h);
    }
  }

  /** copy_sections32; 0 stands for NULL. */
  method CopySections32(mem: array<byte>, b: nat, ghost buf: Bytes, ghost start: nat, ghost end: nat, size: nat) returns (entry: nat)
    requires b + size <= mem.Length && mem[b..b + size] == buf && end <= b
    requires Accepted(buf, Headers(buf), start, end)
    modifies mem
    ensures mem[..] == if U32(buf, 0) == ELFMAGIC then Load(old(mem[..]), buf, Headers(buf), 0) else old(mem[..])
    ensures entry == if U32(buf, 0) == ELFMAGIC then Entry(buf) else 0
    ensures U32(buf, 0) == ELFMAGIC && WellFormed(Headers(buf)) ==> AllLoaded(mem[..], buf, Headers(buf), 0)
  {
    ghost var m, hs := mem[..], Headers(buf);
    var file := mem[b..b + size];
    if U32(file, 0) != ELFMAGIC {
      return 0;
    }
    entry := Entry(file);
    var pos, i, phnum := EHDR, 0, Phnum(file);
    assert hs[..0] == [] && m[b..b + size] == buf;
    while i < phnum
      invariant 0 <= i <= |hs| == phnum && pos == EHDR + PHDR * i
      invariant mem[..] == Load(m, buf, hs[..i], 0)
    {
      CopyHeader(mem, b, size, pos, m, buf, i, i + 1, start, end);
      pos := pos + PHDR;
      i := i + 1;
    }
    assert hs[..i] == hs;
    if WellFormed(hs) { CopyBytes(m, buf, hs, start, end); }
  }

  /** The bytes that verify_sections32 compares are there. */
  predicate Readable(mem: Bytes, buf: Bytes) {
    forall i :: 0 <= i < |Headers(buf)| && Loads(Headers(buf)[i]) ==>
      && Headers(buf)[i].dest + Headers(buf)[i].filesz < |mem|
      && (Headers(buf)[i].filesz != 0 ==> Headers(buf)[i].offset + Headers(buf)[i].filesz <= |buf|)
  }

  lemma VerifyMeaning(mem: Bytes, buf: Bytes)
    requires Readable(mem, buf)
    ensures (forall i :: 0 <= i < |Headers(buf)| ==> HeaderVerifies(mem, buf, Headers(buf)[i])) <==>
            forall i :: 0 <= i < |Headers(buf)| && Loads(Headers(buf)[i]) ==> !Differs(mem, buf, Headers(buf)[i])
  {
    forall i | 0 <= i < |Headers(buf)| && Loads(Headers(buf)[i])
      ensures Differs(mem, buf, Headers(buf)[i]) <==> !HeaderVerifies(mem, buf, Headers(buf)[i])
    {
      DiffersExactly(mem, buf, Headers(buf)[i]);
    }
  }

  /** The body of the loop of verify_sections32. */
  method VerifyHeader(mem: Bytes, buf: Bytes, h: Phdr) returns (panicked: bool)
    requires h.filesz < U32MAX && h.memsz < U32MAX
    requires Loads(h) ==> h.dest + h.filesz < |mem| && (h.filesz != 0 ==> h.offset + h.filesz <= |buf|)
    ensures !panicked <==> HeaderVerifies(mem, buf, h)
  {
    if Loads(h) {
      if h.filesz != 0 && mem[h.dest..h.dest + h.filesz] != buf[h.offset..h.offset + h.filesz] {
        return true;
      }
      assert FilePart(mem, buf, h);
      var size := Wrapped(h.memsz - h.filesz);
      var j := 0;
      while j < size
        invariant 0 <= j && (j > 0 ==> mem[h.dest + h.filesz] == 0)
      {
        if mem[h.dest + h.filesz] != 0 {
          return true;
        }
        j := j + 1;
      }
    }
    return false;
  }

  lemma HeaderRange(buf: Bytes, i: nat)
    requires i < Phnum(buf)
    ensures Headers(buf)[i] == PhdrAt(buf, EHDR + PHDR * i)
    ensures Headers(buf)[i].filesz < U32MAX && Headers(buf)[i].memsz < U32MAX
  {
  }

  method VerifyTable(mem: Bytes, buf: Bytes) returns (panicked: bool)
    requires Readable(mem, buf)
    ensures !panicked <==> forall i :: 0 <= i < |Headers(buf)| ==> HeaderVerifies(mem, buf, Headers(buf)[i])
  {
    var pos, i := EHDR, 0;
    while i < Phnum(buf)
      invariant 0 <= i <= Phnum(buf) && pos == EHDR + PHDR * i
      invariant forall k :: 0 <= k < i ==> HeaderVerifies(mem, buf, Headers(buf)[k])
    {
      HeaderRange(buf, i);
      var failed := VerifyHeader(mem, buf, PhdrAt(buf, pos));
      if failed {
        return true;
      }
      pos := pos + PHDR;
      i := i + 1;
    }
    return false;
  }

  /** verify_sections32 panics exactly on a wrong magic, or if some loaded header has a byte of its
      file part that differs from memory or a first fill byte that is not zero. */
  method VerifySections32(mem: Bytes, buf: Bytes) returns (panicked: bool)
    requires Readable(mem, buf)
    ensures !panicked <==>
            U32(buf, 0) == ELFMAGIC && forall i :: 0 <= i < |Headers(buf)| ==> HeaderVerifies(mem, buf, Headers(buf)[i])
    ensures !panicked <==>
            U32(buf, 0) == ELFMAGIC
            && forall i :: 0 <= i < |Headers(buf)| && Loads(Headers(buf)[i]) ==> !Differs(mem, buf, Headers(buf)[i])
  {
    VerifyMeaning(mem, buf);
    if U32(buf, 0) != ELFMAGIC {
      return true;
    }
    panicked := VerifyTable(mem, buf);
  }

  const KERNEL_START: nat := 0x10000
  const NORMAL_MEMORY_START: nat := 0x80000
  const PAGE: nat := 4096

  /** The eight-byte initrd header goes to the end of the page that holds the end of the kernel. */
  function InitrdHeader(highest: nat, lowest: nat): int {
    var base := (highest + PAGE - 1) / PAGE * PAGE - 8;
    if highest < lowest && highest >= NORMAL_MEMORY_START && base > highest then base else -1
  }

  /** There is room for it exactly if the kernel ends at 0x80000 or later, below `lowest`, and inside a
      page with more than eight bytes to go; then it is the last eight bytes of that page. */
  lemma InitrdExact(highest: nat, lowest: nat)
    ensures var h := InitrdHeader(highest, lowest);
            && (h != -1 <==> 0x80000 <= highest < lowest && 0 < highest % 4096 < 4088)
            && (h != -1 ==> h / 4096 == highest / 4096 && h % 4096 == 4088)
  {
    var q, r := highest / 4096, highest % 4096;
    assert highest == 4096 * q + r;
    if r > 0 { assert (highest + 4095) / 4096 == q + 1; } else { assert (highest + 4095) / 4096 == q; }
  }

  /** What the copy of an accepted kernel leaves in memory. */
  ghost predicate Copied(m: Bytes, m': Bytes, b: nat, buf: Bytes, end: nat) {
    && |m'| == |m| && end <= b && end <= |m| && b + |buf| <= |m| && m[b..b + |buf|] == buf
    && Accepted(buf, Headers(buf), KERNEL_START, end)
    && m' == Load(m, buf, Headers(buf), 0)
  }

  lemma CopiedFrame(m: Bytes, m': Bytes, b: nat, buf: Bytes, end: nat, x: nat)
    requires Copied(m, m', b, buf, end) && x < |m| && (x < KERNEL_START || x >= Highest(Headers(buf)))
    ensures m'[x] == m[x]
  {
    CopyStaysBelow(m, buf, Headers(buf), KERNEL_START, end, x);
  }

  lemma CopiedFile(m: Bytes, m': Bytes, b: nat, buf: Bytes, end: nat)
    requires Copied(m, m', b, buf, end)
    ensures m'[b..b + |buf|] == buf
  {
    var hs := Headers(buf);
    assert hs[..|hs|] == hs;
    FileUntouched(m, buf, hs, |hs|, KERNEL_START, end, b);
  }

  lemma CopiedReadable(m: Bytes, m': Bytes, b: nat, buf: Bytes, end: nat)
    requires Copied(m, m', b, buf, end)
    ensures Readable(m', buf)
  {
    var hs := Headers(buf);
    forall i | 0 <= i < |hs| && Loads(hs[i])
      ensures hs[i].dest + hs[i].filesz < |m'| && (hs[i].filesz != 0 ==> hs[i].offset + hs[i].filesz <= |buf|)
    {
      AcceptedSegment(buf, hs, KERNEL_START, end, i);
    }
  }

  lemma CopiedVerifies(m: Bytes, m': Bytes, b: nat, buf: Bytes, end: nat)
    requires Copied(m, m', b, buf, end) && WellFormed(Headers(buf))
    ensures forall i :: 0 <= i < |Headers(buf)| ==> HeaderVerifies(m', buf, Headers(buf)[i])
  {
    var hs := Headers(buf);
    forall i | 0 <= i < |hs| ensures HeaderVerifies(m', buf, hs[i]) {
      CopyVerifies(m, buf, hs, KERNEL_START, end, i);
    }
  }

  /** All of it together. */
  lemma AfterCopy(m: Bytes, m': Bytes, b: nat, buf: Bytes, end: nat)
    requires Copied(m, m', b, buf, end)
    ensures forall x :: 0 <= x < |m| && (x < KERNEL_START || x >= Highest(Headers(buf))) ==> m'[x] == m[x]
    ensures m'[b..b + |buf|] == buf && Readable(m', buf)
    ensures WellFormed(Headers(buf)) ==> forall i :: 0 <= i < |Headers(buf)| ==> HeaderVerifies(m', buf, Headers(buf)[i])
  {
    forall x | 0 <= x < |m| && (x < KERNEL_START || x >= Highest(Headers(buf))) ensures m'[x] == m[x] {
      CopiedFrame(m, m', b, buf, end, x);
    }
    CopiedFile(m, m', b, buf, end);
    CopiedReadable(m, m', b, buf, end);
    if WellFormed(Headers(buf)) { CopiedVerifies(m, m', b, buf, end); }
  }

  /** The part of real_loader around the kernel: check, copy, verify.  `lowest` is the lower of the
      loader text and the ELF file.  An accepted kernel none of whose sums wraps never overwrites
      either, nor anything from the initrd header on; if its segments are also apart, with no file
      part longer than its segment, its verification does not panic. */
  method LoadKernel(mem: array<byte>, b: nat, size: nat, ftext: nat) returns (code: int, initrd: int, panicked: bool)
    requires b + size <= mem.Length && ftext <= mem.Length && b <= 0x2000_0000
    requires EHDR + PHDR * Phnum(mem[b..b + size]) <= size
    requires CheckCode(mem[b..b + size], size, 0x10000, if ftext > b then b else ftext) == 0 ==> NoWrap(Headers(mem[b..b + size]))
    modifies mem
    ensures code == old(CheckCode(mem[b..b + size], size, 0x10000, if ftext > b then b else ftext))
    ensures code != 0 ==> mem[..] == old(mem[..])
    ensures code == 0 && old(WellFormed(Headers(mem[b..b + size]))) ==>
              !panicked && AllLoaded(mem[..], old(mem[b..b + size]), old(Headers(mem[b..b + size])), 0)
    ensures code == 0 ==> forall x :: 0 <= x < mem.Length && (x >= ftext || x >= b || x < 0x10000) ==> mem[x] == old(mem[x])
    ensures code == 0 && initrd != -1 ==> forall x :: 0 <= initrd <= x < mem.Length ==> mem[x] == old(mem[x])
  {
    var lowest := ftext;
    if lowest > b {
      lowest := b;
    }
    ghost var buf := mem[b..b + size];
    initrd, panicked := -1, false;
    var highest;
    code, highest := CheckSections32(mem[b..b + size], KERNEL_START, lowest, null);
    if code != 0 {
      return;
    }
    KernelAccepted(buf, KERNEL_START, lowest);
    initrd := InitrdHeader(highest, lowest);
    panicked := CopyAndVerify(mem, b, size, lowest, buf);
  }

  /** The kernel has been accepted: copy and verify it. */
  method CopyAndVerify(mem: array<byte>, b: nat, size: nat, ghost lowest: nat, ghost buf: Bytes) returns (panicked: bool)
    requires b + size <= mem.Length && mem[b..b + size] == buf && lowest <= b && lowest <= mem.Length
    requires Accepted(buf, Headers(buf), KERNEL_START, lowest) && U32(buf, 0) == ELFMAGIC
    modifies mem
    ensures WellFormed(Headers(buf)) ==> !panicked && AllLoaded(mem[..], buf, Headers(buf), 0)
    ensures forall x :: 0 <= x < mem.Length && (x < KERNEL_START || x >= Highest(Headers(buf))) ==> mem[x] == old(mem[x])
  {
    ghost var m := mem[..];
    assert buf == m[b..b + |buf|];
    var entry := CopySections32(mem, b, buf, KERNEL_START, lowest, size);
    AfterCopy(m, mem[..], b, buf, lowest);
    assert mem[b..b + size] == mem[..][b..b + |buf|];
    panicked := VerifySections32(mem[..], mem[b..b + size]);
    forall x | 0 <= x < mem.Length && (x < KERNEL_START || x >= Highest(Headers(buf))) ensures mem[x] == m[x] {
      assert mem[..][x] == m[x];
    }
  }

  lemma KernelAccepted(buf: Bytes, start: nat, end: nat)
    requires CheckCode(buf, |buf|, start, end) == 0 && end <= 0x2000_0000 && NoWrap(Headers(buf))
    ensures Accepted(buf, Headers(buf), start, end) && U32(buf, 0) == ELFMAGIC
    ensures 0 < Highest(Headers(buf)) < end
  {
    EntryLoaded(buf, |buf|, start, end);
    var hs := Headers(buf);
    var i :| 0 <= i < |hs| && CoversEntry(hs[i], Phys(Entry(buf)));
    AcceptedSegment(buf, hs, start, end, i);
  }
}
