/**
  The ps2fs allocation bitmap of one subpartition: bit 0 (0x01) is the first block of a byte.
  The bytes are those of the consecutive bitmap blocks; reads and writes of a block may fail.
 */
module BlockBitmap {
  import opened ByteImage

  const EIO: int := 5
  const ENOSPC: int := 28

  // -------------------------------------------------------------- bits of a byte

  function Pow2(n: nat): (p: nat)
    ensures p >= 1
  {
    if n == 0 then 1 else 2 * Pow2(n - 1)
  }

  predicate BitOf(b: nat, k: nat)
    decreases k
  {
    if k == 0 then b % 2 == 1 else BitOf(b / 2, k - 1)
  }

  /** b | (1 << k) */
  function WithBit(b: nat, k: nat): nat
    decreases k
  {
    if k == 0 then b / 2 * 2 + 1 else b % 2 + 2 * WithBit(b / 2, k - 1)
  }

  /** b & ~(1 << k) */
  function WithoutBit(b: nat, k: nat): nat
    decreases k
  {
    if k == 0 then b / 2 * 2 else b % 2 + 2 * WithoutBit(b / 2, k - 1)
  }

  lemma {:induction false} SetBits(b: nat, k: nat, j: nat)
    ensures BitOf(WithBit(b, k), j) == (j == k || BitOf(b, j))
    decreases k
  {
    if k > 0 && j > 0 {
      SetBits(b / 2, k - 1, j - 1);
      assert WithBit(b, k) / 2 == WithBit(b / 2, k - 1);
    }
  }

  lemma {:induction false} ClearBits(b: nat, k: nat, j: nat)
    ensures BitOf(WithoutBit(b, k), j) == (j != k && BitOf(b, j))
    decreases k
  {
    if k > 0 && j > 0 {
      ClearBits(b / 2, k - 1, j - 1);
      assert WithoutBit(b, k) / 2 == WithoutBit(b / 2, k - 1);
    }
  }

  lemma {:induction false} WithRange(b: nat, k: nat, n: nat)
    requires k < n && b < Pow2(n)
    ensures WithBit(b, k) < Pow2(n)
    decreases k
  {
    if k > 0 {
      assert b / 2 < Pow2(n - 1);
      WithRange(b / 2, k - 1, n - 1);
    }
  }

  lemma {:induction false} WithoutRange(b: nat, k: nat, n: nat)
    requires k < n && b < Pow2(n)
    ensures WithoutBit(b, k) < Pow2(n)
    decreases k
  {
    if k > 0 {
      assert b / 2 < Pow2(n - 1);
      WithoutRange(b / 2, k - 1, n - 1);
    }
  }

  lemma BitRange(b: nat, k: nat, n: nat)
    requires k < n && b < Pow2(n)
    ensures WithBit(b, k) < Pow2(n) && WithoutBit(b, k) < Pow2(n)
  {
    WithRange(b, k, n);
    WithoutRange(b, k, n);
  }

  lemma {:induction false} SetThenClear(b: nat, k: nat)
    requires !BitOf(b, k)
    ensures WithoutBit(WithBit(b, k), k) == b
    decreases k
  {
    if k > 0 { SetThenClear(b / 2, k - 1); }
  }

  /** The bits set among the lowest `n`. */
  function Ones(b: nat, n: nat): nat
    decreases n
  {
    if n == 0 then 0 else b % 2 + Ones(b / 2, n - 1)
  }

  /** The number of low one bits: where the scan of get_new_block stops. */
  function LowOnes(b: nat): nat {
    if b % 2 == 0 then 0 else 1 + LowOnes(b / 2)
  }

  /** Any byte but 0xFF has a clear bit, and the scan finds the lowest. */
  lemma {:induction false} LowOnesClear(b: nat, n: nat)
    requires b < Pow2(n) - 1
    ensures LowOnes(b) < n && !BitOf(b, LowOnes(b)) && forall j :: 0 <= j < LowOnes(b) ==> BitOf(b, j)
    decreases n
  {
    if b % 2 == 1 {
      LowOnesClear(b / 2, n - 1);
      forall j | 0 <= j < LowOnes(b) ensures BitOf(b, j) {
        if j > 0 { assert BitOf(b / 2, j - 1); }
      }
    }
  }

  lemma {:induction false} FullByte(n: nat, j: nat)
    requires j < n
    ensures BitOf(Pow2(n) - 1, j)
    decreases n
  {
    var p := Pow2(n - 1);
    assert Pow2(n) == 2 * p;
    DoubledLess(p);
    if j > 0 { FullByte(n - 1, j - 1); }
  }

  lemma DoubledLess(p: nat)
    requires p >= 1
    ensures (2 * p - 1) % 2 == 1 && (2 * p - 1) / 2 == p - 1
  {
  }

  lemma Eight()
    ensures Pow2(8) == 0x100
  {
    assert Pow2(4) == 16;
  }

  // ------------------------------------------------------------ bits of the map

  predicate Bit(m: Bytes, i: nat) {
    i / 8 < |m| && BitOf(m[i / 8], i % 8)
  }

  function SetBit(m: Bytes, i: nat): (r: Bytes)
    requires i < 8 * |m|
    ensures |r| == |m|
  {
    Eight();
    BitRange(m[i / 8], i % 8, 8);
    m[i / 8 := WithBit(m[i / 8], i % 8)]
  }

  function ClearBit(m: Bytes, i: nat): (r: Bytes)
    requires i < 8 * |m|
    ensures |r| == |m|
  {
    Eight();
    BitRange(m[i / 8], i % 8, 8);
    m[i / 8 := WithoutBit(m[i / 8], i % 8)]
  }

  /** Setting or clearing a bit changes that bit and no other. */
  lemma BitUpdate(m: Bytes, i: nat, j: nat)
    requires i < 8 * |m| && j < 8 * |m|
    ensures Bit(SetBit(m, i), j) == (j == i || Bit(m, j))
    ensures Bit(ClearBit(m, i), j) == (j != i && Bit(m, j))
  {
    SetBits(m[i / 8], i % 8, j % 8);
    ClearBits(m[i / 8], i % 8, j % 8);
  }

  /** free_block undoes get_new_block. */
  lemma FreeUndoesGet(m: Bytes, i: nat)
    requires i < 8 * |m| && !Bit(m, i)
    ensures ClearBit(SetBit(m, i), i) == m
  {
    SetThenClear(m[i / 8], i % 8);
  }

  /** The lowest clear bit from `i` on, or the number of bits. */
  function FirstClear(m: Bytes, i: nat): (r: nat)
    requires i <= 8 * |m|
    ensures i <= r <= 8 * |m|
    ensures forall k :: i <= k < r ==> Bit(m, k)
    ensures r < 8 * |m| ==> !Bit(m, r)
    decreases 8 * |m| - i
  {
    if i == 8 * |m| || !Bit(m, i) then i else FirstClear(m, i + 1)
  }

  lemma {:induction false} FirstClearFrom(m: Bytes, i: nat, r: nat)
    requires i <= r <= 8 * |m| && (forall k :: i <= k < r ==> Bit(m, k)) && (r < 8 * |m| ==> !Bit(m, r))
    ensures FirstClear(m, i) == r
    decreases r - i
  {
    if i < r { FirstClearFrom(m, i + 1, r); }
  }

  /** The scan covers padding bits behind the `valid` blocks of the partition: it hands one out
      exactly when all blocks are used and a padding bit is clear. */
  lemma PaddingScanned(m: Bytes, valid: nat)
    requires valid <= 8 * |m|
    ensures valid <= FirstClear(m, 0) < 8 * |m| <==>
            (forall k :: 0 <= k < valid ==> Bit(m, k)) && exists k :: valid <= k < 8 * |m| && !Bit(m, k)
  {
    var r := FirstClear(m, 0);
    if r < valid { assert !Bit(m, r); }
  }

  // --------------------------------------------------------------- get_new_block

  /** Which bitmap blocks can be read, and whether the write back succeeds. */
  datatype Io = Io(readable: int -> bool, writable: bool)

  /** The byte loop of get_new_block on one block: the first byte that is not 0xFF. */
  method ScanBlock(m: array<byte>, lo: nat, hi: nat) returns (s: nat)
    requires lo <= hi <= m.Length
    ensures lo <= s <= hi
    ensures forall k :: 8 * lo <= k < 8 * s ==> Bit(m[..], k)
    ensures s < hi ==> m[s] != 0xFF
  {
    s := lo;
    while s < hi
      invariant lo <= s <= hi
      invariant forall k :: 8 * lo <= k < 8 * s ==> Bit(m[..], k)
    {
      if m[s] != 0xFF {
        break;
      }
      forall k | 8 * s <= k < 8 * (s + 1) ensures Bit(m[..], k) {
        Eight();
        FullByte(8, k % 8);
        assert k / 8 == s;
      }
      s := s + 1;
    }
  }

  /** The bit loop of get_new_block. */
  method ScanByte(b: byte) returns (bit: nat)
    requires b != 0xFF
    ensures bit == LowOnes(b) && bit <= 7
  {
    bit := 0;
    var val: nat := b;
    while val % 2 == 1
      invariant LowOnes(b) == bit + LowOnes(val)
      decreases val
    {
      bit := bit + 1;
      val := val / 2;
    }
    Eight();
    LowOnesClear(b, 8);
  }

  /** The bitmap block that holds the bit of a file system block can be read. */
  predicate Readable(io: Io, size: nat, block: int)
    requires size > 0
  {
    block >= 0 && io.readable(block / (8 * size))
  }

  /** The bitmap blocks up to the one with bit `f` can be read. */
  ghost predicate Reaches(io: Io, size: nat, blocks: nat, f: nat) {
    forall k :: 0 <= k < blocks && 8 * (size * k) <= f ==> io.readable(k)
  }

  /** get_new_block with any block acceptable: the lowest clear bit is set and returned, if the bitmap
      blocks up to it can be read; there is no space if there is no such bit; and an error of the final
      write comes after the change. */
  method GetNewBlock(m: array<byte>, size: nat, blocks: nat, io: Io) returns (r: int)
    requires size > 0 && m.Length == size * blocks
    modifies m
    ensures var f := old(FirstClear(m[..], 0)); var ok := Reaches(io, size, blocks, f);
            && (r == -5 <==> !ok || (f < 8 * m.Length && !io.writable))
            && (r == -28 <==> ok && f == 8 * m.Length)
            && (r >= 0 <==> ok && f < 8 * m.Length && io.writable) && (r >= 0 ==> r == f)
            && m[..] == if ok && f < 8 * m.Length then SetBit(old(m[..]), f) else old(m[..])
  {
    var i, base := 0, 0;
    ghost var f := FirstClear(m[..], 0);
    while i < blocks
      invariant 0 <= i <= blocks && base == size * i && base <= m.Length && m[..] == old(m[..])
      invariant (forall k :: 0 <= k < i ==> io.readable(k)) && 8 * base <= f
    {
      if !io.readable(i) {
        assert 8 * (size * i) <= f;
        return -EIO;
      }
      NextBase(size, i, blocks);
      var s := ScanBlock(m, base, base + size);
      AllSet(m[..], base, s, f);
      if s < base + size {
        var bit := ScanByte(m[s]);
        FoundBit(m[..], s, bit);
        BlocksRead(io, size, blocks, f, i);
        ghost var before := m[..];
        Eight();
        BitRange(m[s], bit, 8);
        m[s] := WithBit(m[s], bit);
        assert m[..] == SetBit(before, 8 * s + bit);
        if !io.writable {
          return -EIO;
        }
        return 8 * base + (s - base) * 8 + bit;
      }
      i, base := i + 1, base + size;
    }
    return -ENOSPC;
  }

  /** Bits that are set lie below the first clear one. */
  lemma AllSet(m: Bytes, base: nat, s: nat, f: nat)
    requires f == FirstClear(m, 0) && base <= s <= |m| && 8 * base <= f && forall k :: 8 * base <= k < 8 * s ==> Bit(m, k)
    ensures 8 * s <= f && forall k :: 0 <= k < 8 * s ==> Bit(m, k)
  {
  }

  lemma BlocksRead(io: Io, size: nat, blocks: nat, f: nat, i: nat)
    requires size > 0 && f < 8 * (size * (i + 1)) && forall k :: 0 <= k <= i ==> io.readable(k)
    ensures Reaches(io, size, blocks, f)
  {
    forall k | 0 <= k < blocks && 8 * (size * k) <= f ensures io.readable(k) {
      if k > i { NextBase(size, i, k); }
    }
  }

  lemma NextBase(size: nat, i: nat, blocks: nat)
    requires i < blocks
    ensures size * (i + 1) == size * i + size && size * (i + 1) <= size * blocks
  {
    Distributes(size, i, 1);
    Distributes(size, i + 1, blocks - (i + 1));
  }

  lemma Distributes(x: nat, a: nat, b: nat)
    ensures x * (a + b) == x * a + x * b && x * b >= 0
  {
  }

  lemma OnesBelow(m: Bytes, s: nat, bit: nat)
    requires s < |m| && bit <= 8 && forall k :: 0 <= k < 8 * s ==> Bit(m, k)
    requires forall k :: 0 <= k < bit ==> BitOf(m[s], k)
    ensures forall k :: 0 <= k < 8 * s + bit ==> Bit(m, k)
  {
    forall k | 8 * s <= k < 8 * s + bit ensures Bit(m, k) {
      assert k / 8 == s && k % 8 == k - 8 * s && BitOf(m[s], k - 8 * s);
    }
  }

  lemma FoundBit(m: Bytes, s: nat, bit: nat)
    requires s < |m| && m[s] != 0xFF && bit == LowOnes(m[s]) && forall k :: 0 <= k < 8 * s ==> Bit(m, k)
    ensures bit < 8 && (8 * s + bit) / 8 == s && (8 * s + bit) % 8 == bit
    ensures FirstClear(m, 0) == 8 * s + bit
  {
    Eight();
    LowOnesClear(m[s], 8);
    OnesBelow(m, s, bit);
    FirstClearFrom(m, 0, 8 * s + bit);
  }

  /** A block that can be read is one of the `length` bytes there are.  Neither call checks the
      block number against the bitmap: `m` goes on to the end of the device. */
  predicate OnDevice(length: nat, size: nat, block: int, io: Io)
    requires size > 0
  {
    Readable(io, size, block) ==> block < 8 * length
  }

  /** get_new_block for one particular block, which must be free. */
  method GetDesiredBlock(m: array<byte>, size: nat, desired: int, io: Io) returns (r: int)
    requires size > 0 && desired != 0 && OnDevice(m.Length, size, desired, io)
    modifies m
    ensures var read := desired >= 0 && io.readable(desired / (8 * size)); var used := desired >= 0 && old(Bit(m[..], desired));
            && (r == -28 <==> desired < 0 || (read && used))
            && (r == -5 <==> desired >= 0 && (!read || (!used && !io.writable)))
            && (r >= 0 <==> read && !used && io.writable) && (r >= 0 ==> r == desired)
            && m[..] == if read && !used then SetBit(old(m[..]), desired) else old(m[..])
  {
    if desired < 0 {
      return -ENOSPC;
    }
    if !Readable(io, size, desired) {
      return -EIO;
    }
    if BitOf(m[desired / 8], desired % 8) {
      return -ENOSPC;
    }
    Eight();
    BitRange(m[desired / 8], desired % 8, 8);
    m[desired / 8] := WithBit(m[desired / 8], desired % 8);
    if !io.writable {
      return -EIO;
    }
    return desired;
  }

  /** free_block: freeing a free block only warns. */
  method FreeBlock(m: array<byte>, size: nat, block: int, io: Io) returns (r: int)
    requires size > 0 && OnDevice(m.Length, size, block, io)
    modifies m
    ensures var read := block >= 0 && io.readable(block / (8 * size));
            && (r == 0 || r == -5) && (r == 0 <==> read && (io.writable || !old(Bit(m[..], block))))
            && m[..] == if read then ClearBit(old(m[..]), block) else old(m[..])
  {
    if block < 0 {
      return -EIO;
    }
    if !Readable(io, size, block) {
      return -EIO;
    }
    Eight();
    BitRange(m[block / 8], block % 8, 8);
    if BitOf(m[block / 8], block % 8) {
      m[block / 8] := WithoutBit(m[block / 8], block % 8);
      if !io.writable {
        return -EIO;
      }
    } else {
      ClearedAlready(m[block / 8], block % 8);
    }
    return 0;
  }

  lemma {:induction false} ClearedAlready(b: nat, k: nat)
    requires !BitOf(b, k)
    ensures WithoutBit(b, k) == b
    decreases k
  {
    if k > 0 { ClearedAlready(b / 2, k - 1); }
  }

  // ----------------------------------------------------------- count_used_blocks

  /** The bits set among the first `n` of the map, one by one. */
  function Used(m: Bytes, n: nat): nat {
    if n == 0 then 0 else Used(m, n - 1) + if Bit(m, n - 1) then 1 else 0
  }

  /** Each change of a bit moves the count by one. */
  lemma {:induction false} UsedUpdate(m: Bytes, i: nat, n: nat)
    requires i < 8 * |m| && n <= 8 * |m|
    ensures Used(SetBit(m, i), n) == Used(m, n) + if i < n && !Bit(m, i) then 1 else 0
    ensures Used(ClearBit(m, i), n) == Used(m, n) - if i < n && Bit(m, i) then 1 else 0
  {
    if n > 0 {
      UsedUpdate(m, i, n - 1);
      BitUpdate(m, i, n - 1);
    }
  }

  /** The rows of the table of bit counts; each is used for several values of the upper three bits. */
  const ROW0: seq<nat> :=
    [0, 1, 1, 2, 1, 2, 2, 3, 1, 2, 2, 3, 2, 3, 3, 4, 1, 2, 2, 3, 2, 3, 3, 4, 2, 3, 3, 4, 3, 4, 4, 5]
  const ROW1: seq<nat> :=
    [1, 2, 2, 3, 2, 3, 3, 4, 2, 3, 3, 4, 3, 4, 4, 5, 2, 3, 3, 4, 3, 4, 4, 5, 3, 4, 4, 5, 4, 5, 5, 6]
  const ROW2: seq<nat> :=
    [2, 3, 3, 4, 3, 4, 4, 5, 3, 4, 4, 5, 4, 5, 5, 6, 3, 4, 4, 5, 4, 5, 5, 6, 4, 5, 5, 6, 5, 6, 6, 7]
  const ROW3: seq<nat> :=
    [3, 4, 4, 5, 4, 5, 5, 6, 4, 5, 5, 6, 5, 6, 6, 7, 4, 5, 5, 6, 5, 6, 6, 7, 5, 6, 6, 7, 6, 7, 7, 8]

  const BITCOUNT: seq<seq<nat>> := [ROW0, ROW1, ROW1, ROW2, ROW1, ROW2, ROW2, ROW3]

  function BitCount(b: byte): nat {
    BITCOUNT[b / 32][b % 32]
  }

  lemma OnesPeel(x: nat, y: nat, bit: nat, n: nat)
    requires x == 2 * y + bit && bit < 2
    ensures Ones(x, n + 1) == bit + Ones(y, n)
  {
    assert x / 2 == y && x % 2 == bit;
  }

  lemma HalfOf(x: nat, p: nat, h: nat, l: nat) returns (y: nat)
    requires x == 2 * p * h + l
    ensures y == p * h + l / 2 && x == 2 * y + l % 2
  {
    y := p * h + l / 2;
    assert 2 * p * h == 2 * (p * h);
  }

  /** The ones of a number, counted in its low and its high part. */
  lemma {:induction false} OnesSplit(x: nat, h: nat, l: nat, low: nat, high: nat)
    requires l < Pow2(low) && x == Pow2(low) * h + l
    ensures Ones(x, low + high) == Ones(l, low) + Ones(h, high)
    decreases low
  {
    if low > 0 {
      var y := HalfOf(x, Pow2(low - 1), h, l);
      OnesSplit(y, h, l / 2, low - 1, high);
      OnesPeel(x, y, l % 2, low - 1 + high);
      OnesPeel(l, l / 2, l % 2, low - 1);
    }
  }

  lemma OnesTwo(x: nat, y: nat, c: nat, d: nat, n: nat)
    requires c < 2 && d < 2 && x == 2 * (2 * y + c) + d
    ensures Ones(x, n + 2) == d + c + Ones(y, n)
  {
    OnesPeel(x, 2 * y + c, d, n + 1);
    OnesPeel(2 * y + c, y, c, n);
  }

  lemma OnesFour(i: nat, a: nat, b: nat, c: nat, d: nat)
    requires a < 2 && b < 2 && c < 2 && d < 2 && i == 8 * a + 4 * b + 2 * c + d
    ensures Ones(i, 4) == a + b + c + d
  {
    var y := 2 * a + b;
    OnesTwo(i, y, c, d, 2);
    OnesTwo(y, 0, a, b, 0);
  }

  lemma RowZeroEntry(i: nat, a: nat, b: nat, c: nat, d: nat)
    requires a < 2 && b < 2 && c < 2 && d < 2 && i == 8 * a + 4 * b + 2 * c + d
    ensures ROW0[i] == a + b + c + d
  {
    if a == 0 { if b == 0 {} else {} } else { if b == 0 {} else {} }
  }

  lemma RowZeroHigh(i: nat)
    requires i < 16
    ensures ROW0[i + 16] == ROW0[i] + 1
  {
  }

  lemma NibbleBits(i: nat) returns (a: nat, b: nat, c: nat, d: nat)
    requires i < 16
    ensures a < 2 && b < 2 && c < 2 && d < 2 && i == 8 * a + 4 * b + 2 * c + d
  {
    a, b, c, d := i / 8, i / 4 % 2, i / 2 % 2, i % 2;
  }

  lemma RowZeroLow(i: nat)
    requires i < 16
    ensures ROW0[i] == Ones(i, 4)
  {
    var a, b, c, d := NibbleBits(i);
    OnesFour(i, a, b, c, d);
    RowZeroEntry(i, a, b, c, d);
  }

  lemma RowZero(t: nat, i: nat)
    requires t < 2 && i < 16
    ensures ROW0[16 * t + i] == t + Ones(i, 4)
  {
    RowZeroLow(i);
    if t == 1 { RowZeroHigh(i); }
  }

  lemma OnesFive(t: nat, i: nat)
    requires t < 2 && i < 16
    ensures Ones(16 * t + i, 5) == t + Ones(i, 4)
  {
    assert Pow2(4) == 16;
    OnesSplit(16 * t + i, t, i, 4, 1);
    OnesPeel(t, 0, t, 0);
  }

  lemma RowOnes(l: nat)
    requires l < 32
    ensures ROW0[l] == Ones(l, 5)
  {
    var t, i := l / 16, l % 16;
    RowZero(t, i);
    OnesFive(t, i);
  }

  lemma OnesByte(b: nat, h: nat, l: nat)
    requires l < 32 && b == 32 * h + l
    ensures Ones(b, 8) == Ones(l, 5) + Ones(h, 3)
  {
    assert Pow2(5) == 32;
    OnesSplit(b, h, l, 5, 3);
  }

  lemma RowOne(i: nat)
    requires i < 32
    ensures ROW1[i] == ROW0[i] + 1
  {
  }

  lemma RowTwo(i: nat)
    requires i < 32
    ensures ROW2[i] == ROW0[i] + 2
  {
  }

  lemma RowThree(i: nat)
    requires i < 32
    ensures ROW3[i] == ROW0[i] + 3
  {
  }

  lemma RowOf(h: nat, i: nat)
    requires h < 8 && i < 32
    ensures BITCOUNT[h][i] == ROW0[i] + Ones(h, 3)
  {
    RowOne(i);
    RowTwo(i);
    RowThree(i);
    if h == 0 { assert Ones(0, 3) == 0; } else if h == 1 { assert Ones(1, 3) == 1; }
    else if h == 2 { assert Ones(2, 3) == 1; } else if h == 3 { assert Ones(3, 3) == 2; }
    else if h == 4 { assert Ones(4, 3) == 1; } else if h == 5 { assert Ones(5, 3) == 2; }
    else if h == 6 { assert Ones(6, 3) == 2; } else { assert h == 7 && Ones(7, 3) == 3; }
  }

  /** The table is right. */
  lemma BitCountOnes(b: byte)
    ensures BitCount(b) == Ones(b, 8)
  {
    var h, l := b / 32, b % 32;
    RowOf(h, l);
    RowOnes(l);
    OnesByte(b, h, l);
  }

  lemma {:induction false} OnesNext(b: nat, n: nat)
    ensures Ones(b, n + 1) == Ones(b, n) + if BitOf(b, n) then 1 else 0
    decreases n
  {
    if n > 0 { OnesNext(b / 2, n - 1); }
  }

  lemma {:induction false} UsedByte(m: Bytes, s: nat, n: nat)
    requires s < |m| && n <= 8
    ensures Used(m, 8 * s + n) == Used(m, 8 * s) + Ones(m[s], n)
  {
    if n > 0 {
      UsedByte(m, s, n - 1);
      OnesNext(m[s], n - 1);
      var i := 8 * s + (n - 1);
      assert i / 8 == s && i % 8 == n - 1;
    }
  }

  lemma NextByte(m: Bytes, s: nat, bits: nat, ones: nat, at: nat, next: nat)
    requires s < |m| && bits == 8 && ones == Ones(m[s], bits) && at == 8 * s && next == at + bits
    ensures Used(m, next) == Used(m, at) + ones
  {
    UsedByte(m, s, bits);
  }

  /** One look into the table. */
  method CountByte(b: byte) returns (ones: nat)
    ensures ones == Ones(b, 8)
  {
    BitCountOnes(b);
    ones := BitCount(b);
  }

  /** The table-driven loop over the bytes of a bitmap counts its set bits. */
  method CountBytes(m: Bytes) returns (count: nat)
    ensures count == Used(m, 8 * |m|)
  {
    count := 0;
    var s := 0;
    while s < |m|
      invariant 0 <= s <= |m| && count == Used(m, 8 * s)
    {
      var ones := CountByte(m[s]);
      NextByte(m, s, 8, ones, 8 * s, 8 * s + 8);
      count := count + ones;
      s := s + 1;
    }
  }
}
