/**
  count_used_blocks: all bitmap blocks of all subpartitions, and what getting or freeing a block
  does to the result.
 */
module UsedBlocks {
  import opened ByteImage
  import opened BlockBitmap

  /** The bits set in consecutive bitmap blocks. */
  function UsedIn(blocks: seq<Bytes>): nat {
    if blocks == [] then 0
    else UsedIn(blocks[..|blocks| - 1]) + Used(blocks[|blocks| - 1], 8 * |blocks[|blocks| - 1]|)
  }

  /** The same over the subpartitions, each a sequence of bitmap blocks. */
  function UsedInAll(parts: seq<seq<Bytes>>): nat {
    if parts == [] then 0 else UsedInAll(parts[..|parts| - 1]) + UsedIn(parts[|parts| - 1])
  }

  const U32MAX: nat := 0x1_0000_0000

  /** An unsigned 32-bit result returned as a signed one. */
  function AsLong(x: int): int {
    var u := x % U32MAX;
    if u < 0x8000_0000 then u else u - U32MAX
  }

  lemma AsLongExact(x: int)
    requires -0x8000_0000 <= x < 0x8000_0000
    ensures AsLong(x) == x
  {
  }

  lemma ModTimes(x: int, p: nat)
    ensures (x % U32MAX) * p % U32MAX == x * p % U32MAX
  {
    var q, r := x / U32MAX, x % U32MAX;
    assert x == U32MAX * q + r;
    assert x * p == U32MAX * (q * p) + r * p;
    ModPlus(r * p, q * p);
  }

  lemma ModPlus(a: int, k: int)
    ensures (U32MAX * k + a) % U32MAX == a % U32MAX
  {
    assert U32MAX * k + a == U32MAX * (k + a / U32MAX) + a % U32MAX;
  }

  /** The block loop of count_used_blocks: it gives up at the first block that cannot be read. */
  method CountBlocks(blocks: seq<Bytes>, readable: int -> bool) returns (ok: bool, count: nat)
    ensures ok <==> forall i :: 0 <= i < |blocks| ==> readable(i)
    ensures ok ==> count == UsedIn(blocks)
  {
    count := 0;
    var i := 0;
    while i < |blocks|
      invariant 0 <= i <= |blocks| && count == UsedIn(blocks[..i])
      invariant forall k :: 0 <= k < i ==> readable(k)
    {
      if !readable(i) {
        return false, count;
      }
      var c := CountBytes(blocks[i]);
      assert blocks[..i + 1][..i] == blocks[..i];
      count := count + c;
      i := i + 1;
    }
    assert blocks[..i] == blocks;
    return true, count;
  }

  ghost predicate AllReadable(parts: seq<seq<Bytes>>, readable: (int, int) -> bool) {
    forall p, i :: 0 <= p < |parts| && 0 <= i < |parts[p]| ==> readable(p, i)
  }

  /** The result of count_used_blocks when everything can be read. */
  function Counted(parts: seq<seq<Bytes>>, rootInode: nat, blockShift: nat): int {
    AsLong((UsedInAll(parts) - rootInode) * Pow2(blockShift))
  }

  /** count_used_blocks over the bitmaps of all subpartitions, in hardware blocks and 32 bits. */
  method CountUsedBlocks(parts: seq<seq<Bytes>>, readable: (int, int) -> bool, rootInode: nat, blockShift: nat) returns (r: int)
    ensures AllReadable(parts, readable) ==> r == Counted(parts, rootInode, blockShift)
    ensures !AllReadable(parts, readable) ==> r == -5
  {
    var count, part := 0, 0;
    while part < |parts|
      invariant 0 <= part <= |parts| && count == UsedInAll(parts[..part])
      invariant forall p, i :: 0 <= p < part && 0 <= i < |parts[p]| ==> readable(p, i)
    {
      var here := part;
      var inPart := i => readable(here, i);
      var ok, c := CountBlocks(parts[part], inPart);
      if !ok {
        ghost var k :| 0 <= k < |parts[part]| && !inPart(k);
        assert !readable(part, k);
        return -EIO;
      }
      forall i | 0 <= i < |parts[part]| ensures readable(part, i) { assert inPart(i); }
      assert parts[..part + 1][..part] == parts[..part];
      count := count + c;
      part := part + 1;
    }
    assert parts[..part] == parts;
    var difference := (count - rootInode) % U32MAX;
    ModTimes(count - rootInode, Pow2(blockShift));
    var shifted := difference * Pow2(blockShift) % U32MAX;
    return if shifted < 0x8000_0000 then shifted else shifted - U32MAX;
  }

  // -------------------------------------------- block lists and the one map

  /** The bitmap blocks one after the other: the map that blocks are got from and freed in. */
  function Flat(blocks: seq<Bytes>): Bytes {
    if blocks == [] then [] else Flat(blocks[..|blocks| - 1]) + blocks[|blocks| - 1]
  }

  lemma {:induction false} UsedPrefix(a: Bytes, b: Bytes, n: nat)
    requires n <= 8 * |a|
    ensures Used(a + b, n) == Used(a, n)
  {
    if n > 0 { UsedPrefix(a, b, n - 1); }
  }

  lemma {:induction false} UsedAppend(a: Bytes, b: Bytes, n: nat)
    requires n <= 8 * |b|
    ensures Used(a + b, 8 * |a| + n) == Used(a, 8 * |a|) + Used(b, n)
  {
    if n == 0 {
      UsedPrefix(a, b, 8 * |a|);
    } else {
      UsedAppend(a, b, n - 1);
      var i := 8 * |a| + (n - 1);
      assert i / 8 == |a| + (n - 1) / 8 && i % 8 == (n - 1) % 8;
      assert Bit(a + b, i) == Bit(b, n - 1);
    }
  }

  /** Counting block by block is counting the map. */
  lemma {:induction false} FlatUsed(blocks: seq<Bytes>)
    ensures UsedIn(blocks) == Used(Flat(blocks), 8 * |Flat(blocks)|)
  {
    if blocks != [] {
      var front, last := blocks[..|blocks| - 1], blocks[|blocks| - 1];
      FlatUsed(front);
      UsedAppend(Flat(front), last, 8 * |last|);
    }
  }

  lemma OneMore(size: nat, n: nat, m: nat)
    requires m == n + 1
    ensures size * m == size * n + size
  {
  }

  /** All maps one after the other. */
  function FlatAll(parts: seq<seq<Bytes>>): Bytes {
    if parts == [] then [] else FlatAll(parts[..|parts| - 1]) + Flat(parts[|parts| - 1])
  }

  /** The bits that are set. */
  function Marked(m: Bytes, n: nat): set<nat> {
    set i: nat | i < n && Bit(m, i)
  }

  lemma MarkedNext(m: Bytes, k: nat, n: nat)
    requires n == k + 1
    ensures Marked(m, n) == if Bit(m, k) then Marked(m, k) + {k} else Marked(m, k)
  {
    forall i: nat ensures i in Marked(m, n) <==> i in Marked(m, k) || (i == k && Bit(m, k)) {}
  }

  lemma {:induction false} UsedIsSize(m: Bytes, n: nat)
    ensures Used(m, n) == |Marked(m, n)|
  {
    if n == 0 {
      assert Marked(m, 0) == {};
    } else {
      UsedIsSize(m, n - 1);
      MarkedNext(m, n - 1, n);
    }
  }

  lemma {:induction false} FlatAllUsed(parts: seq<seq<Bytes>>)
    ensures UsedInAll(parts) == Used(FlatAll(parts), 8 * |FlatAll(parts)|)
  {
    if parts != [] {
      var front, last := parts[..|parts| - 1], Flat(parts[|parts| - 1]);
      FlatAllUsed(front);
      FlatUsed(parts[|parts| - 1]);
      UsedAppend(FlatAll(front), last, 8 * |last|);
    }
  }

  /** The result of count_used_blocks: the number of set bits in all maps, less the root inode, in
      hardware blocks. */
  lemma CountedExact(parts: seq<seq<Bytes>>, rootInode: nat, blockShift: nat)
    ensures Counted(parts, rootInode, blockShift) ==
            AsLong((|Marked(FlatAll(parts), 8 * |FlatAll(parts)|)| - rootInode) * Pow2(blockShift))
  {
    FlatAllUsed(parts);
    UsedIsSize(FlatAll(parts), 8 * |FlatAll(parts)|);
  }

  lemma {:induction false} FlatLength(blocks: seq<Bytes>, size: nat, n: nat)
    requires n == |blocks| && forall k :: 0 <= k < |blocks| ==> |blocks[k]| == size
    ensures |Flat(blocks)| == size * n
  {
    if n > 0 {
      FlatLength(blocks[..n - 1], size, n - 1);
      OneMore(size, n - 1, n);
    }
  }

  /** Part `b` of a map at `at` replaced. */
  function Splice(m: Bytes, at: nat, b: Bytes): (r: Bytes)
    requires at + |b| <= |m|
    ensures |r| == |m|
  {
    m[..at] + b + m[at + |b|..]
  }

  lemma {:induction false} FlatSplice(blocks: seq<Bytes>, j: nat, b: Bytes, at: nat)
    requires j < |blocks| && |b| == |blocks[j]| && at == |Flat(blocks[..j])|
    ensures at + |b| <= |Flat(blocks)| && Flat(blocks)[at..at + |b|] == blocks[j]
    ensures Flat(blocks[j := b]) == Splice(Flat(blocks), at, b)
  {
    var n := |blocks| - 1;
    var front, last := blocks[..n], blocks[n];
    if j == n {
      assert blocks[j := b][..n] == front;
      assert Flat(blocks) == Flat(front) + last;
    } else {
      assert front[..j] == blocks[..j];
      FlatSplice(front, j, b, at);
      assert blocks[j := b][..n] == front[j := b];
      assert Flat(blocks)[at..at + |b|] == Flat(front)[at..at + |b|];
      assert Flat(blocks)[at + |b|..] == Flat(front)[at + |b|..] + last;
    }
  }

  lemma SplitBit(at: nat, i: nat)
    ensures (8 * at + i) / 8 == at + i / 8 && (8 * at + i) % 8 == i % 8
  {
  }

  lemma SpliceBit(m: Bytes, at: nat, b: Bytes, i: nat, n: nat)
    requires at + |b| <= |m| && m[at..at + |b|] == b && i < 8 * |b| && n == 8 * at + i
    ensures Splice(m, at, SetBit(b, i)) == SetBit(m, n)
    ensures Splice(m, at, ClearBit(b, i)) == ClearBit(m, n)
    ensures Bit(m, n) == Bit(b, i)
  {
    SplitBit(at, i);
    assert m[at + i / 8] == b[i / 8];
  }

  lemma FlatChange(blocks: seq<Bytes>, j: nat, i: nat, at: nat, n: nat)
    requires j < |blocks| && i < 8 * |blocks[j]| && at == |Flat(blocks[..j])| && n == 8 * at + i
    ensures n < 8 * |Flat(blocks)|
    ensures Flat(blocks[j := SetBit(blocks[j], i)]) == SetBit(Flat(blocks), n)
    ensures Flat(blocks[j := ClearBit(blocks[j], i)]) == ClearBit(Flat(blocks), n)
    ensures Bit(Flat(blocks), n) == Bit(blocks[j], i)
  {
    FlatSplice(blocks, j, SetBit(blocks[j], i), at);
    FlatSplice(blocks, j, ClearBit(blocks[j], i), at);
    SpliceBit(Flat(blocks), at, blocks[j], i, n);
  }

  /** Changing one bit in one bitmap block, as the driver does, changes the bit of that number in the map. */
  lemma FlatUpdate(blocks: seq<Bytes>, size: nat, j: nat, i: nat, at: nat, n: nat)
    requires j < |blocks| && i < 8 * size && at == size * j && n == 8 * at + i
    requires forall k :: 0 <= k < |blocks| ==> |blocks[k]| == size
    ensures n < 8 * |Flat(blocks)|
    ensures Flat(blocks[j := SetBit(blocks[j], i)]) == SetBit(Flat(blocks), n)
    ensures Flat(blocks[j := ClearBit(blocks[j], i)]) == ClearBit(Flat(blocks), n)
    ensures Bit(Flat(blocks), n) == Bit(blocks[j], i)
  {
    FlatLength(blocks[..j], size, j);
    FlatChange(blocks, j, i, at, n);
  }

  // ---------------------------------------------------------- what an update moves

  /** Only the subpartition that changes matters. */
  lemma {:induction false} PartMoves(parts: seq<seq<Bytes>>, p: nat, part: seq<Bytes>)
    requires p < |parts|
    ensures UsedInAll(parts[p := part]) == UsedInAll(parts) - UsedIn(parts[p]) + UsedIn(part)
  {
    var n := |parts| - 1;
    if p < n {
      PartMoves(parts[..n], p, part);
      assert parts[p := part][..n] == parts[..n][p := part];
    } else {
      assert parts[p := part][..n] == parts[..n];
    }
  }

  /** Blocks used in all subpartitions move by one exactly when a bit changes. */
  lemma AllMove(parts: seq<seq<Bytes>>, p: nat, part: seq<Bytes>, i: nat)
    requires p < |parts| && i < 8 * |Flat(parts[p])|
    ensures Flat(part) == SetBit(Flat(parts[p]), i) ==>
              UsedInAll(parts[p := part]) == UsedInAll(parts) + if Bit(Flat(parts[p]), i) then 0 else 1
    ensures Flat(part) == ClearBit(Flat(parts[p]), i) ==>
              UsedInAll(parts[p := part]) == UsedInAll(parts) - if Bit(Flat(parts[p]), i) then 1 else 0
  {
    var m := Flat(parts[p]);
    PartMoves(parts, p, part);
    FlatUsed(parts[p]);
    FlatUsed(part);
    UsedUpdate(m, i, 8 * |m|);
  }

  lemma AsLongPlus(x: int, d: int)
    ensures AsLong(AsLong(x) + d) == AsLong(x + d)
  {
    var k := x / U32MAX;
    var c := if AsLong(x) < 0 then 1 else 0;
    assert x + d == U32MAX * (k + c) + (AsLong(x) + d);
    ModPlus(AsLong(x) + d, k + c);
  }

  lemma Scaled(u: int, d: int, unit: int)
    ensures (u + d) * unit == u * unit + d * unit
  {
  }

  /** The result that the counted number of blocks should give, in the range of the type. */
  predicate InRange(x: int) {
    -0x8000_0000 <= x < 0x8000_0000
  }

  lemma ResultMoves(used: int, d: int, unit: int)
    ensures AsLong((used + d) * unit) == AsLong(AsLong(used * unit) + d * unit)
    ensures InRange(used * unit) && InRange((used + d) * unit) ==> AsLong((used + d) * unit) == AsLong(used * unit) + d * unit
  {
    Scaled(used, d, unit);
    AsLongPlus(used * unit, d * unit);
    if InRange(used * unit) && InRange((used + d) * unit) {
      AsLongExact(used * unit);
      AsLongExact((used + d) * unit);
    }
  }

  /** Getting a block moves the result of count_used_blocks by one file system block, freeing one
      moves it back, and neither moves it if the bit does not change; in 32 bits, and as plain
      numbers while they fit. */
  lemma CountMoves(parts: seq<seq<Bytes>>, p: nat, part: seq<Bytes>, i: nat, rootInode: nat, blockShift: nat, d: int)
    requires p < |parts| && i < 8 * |Flat(parts[p])|
    requires || (Flat(part) == SetBit(Flat(parts[p]), i) && d == if Bit(Flat(parts[p]), i) then 0 else 1)
             || (Flat(part) == ClearBit(Flat(parts[p]), i) && d == if Bit(Flat(parts[p]), i) then -1 else 0)
    ensures var unit := Pow2(blockShift); var used := UsedInAll(parts) - rootInode;
            var before, after := Counted(parts, rootInode, blockShift), Counted(parts[p := part], rootInode, blockShift);
            && after == AsLong(before + d * unit)
            && (InRange(used * unit) && InRange((used + d) * unit) ==> after == before + d * unit)
  {
    AllMove(parts, p, part, i);
    ResultMoves(UsedInAll(parts) - rootInode, d, Pow2(blockShift));
  }
}
