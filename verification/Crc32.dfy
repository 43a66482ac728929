/**
  The CRC of the generator and of the loader: a 32-bit shift register with generator polynomial
  0x04C11DB7, initial value zero and no final complement, fed with the low bit of each byte first.
 */
module Crc32 {
  import opened ShiftRegister

  const MASK: bv32 := 0x04C11DB7

  // ----------------------------------------------- words and bytes as bits

  /** The bit of a word at position `i`, the most significant first. */
  function Bit(i: nat): bv32 {
    if i == 0 then 0x80000000 else Bit(i - 1) >> 1
  }

  predicate Has(v: bv32, i: nat) {
    v & Bit(i) != 0
  }

  function ToBits(v: bv32): (b: Bits)
    ensures |b| == 32
  {
    seq(32, i requires 0 <= i < 32 => Has(v, i))
  }

  lemma HalfBit(m: bv32)
    requires m & (m - 1) == 0
    ensures (m >> 1) & ((m >> 1) - 1) == 0
  {
  }

  lemma {:induction false} SingleBit(i: nat)
    ensures Bit(i) & (Bit(i) - 1) == 0
  {
    if i > 0 {
      SingleBit(i - 1);
      HalfBit(Bit(i - 1));
    }
  }

  lemma LastBit()
    ensures Bit(31) == 1
  {
    assert Bit(4) == 0x08000000 && Bit(8) == 0x00800000 && Bit(12) == 0x00080000 && Bit(16) == 0x00008000;
    assert Bit(20) == 0x00000800 && Bit(24) == 0x00000080 && Bit(28) == 0x00000008;
  }

  lemma XorWord(a: bv32, b: bv32, m: bv32)
    requires m & (m - 1) == 0
    ensures ((a ^ b) & m != 0) == ((a & m != 0) != (b & m != 0))
  {
  }

  lemma ShiftWord(v: bv32, s: bv32, m: bv32, h: bv32)
    requires s == v << 1 && h == m >> 1
    ensures (s & m != 0) == (v & h != 0)
  {
  }

  lemma XorHas(a: bv32, b: bv32, c: bv32, i: nat)
    requires c == a ^ b
    ensures Has(c, i) == (Has(a, i) != Has(b, i))
  {
    SingleBit(i);
    XorWord(a, b, Bit(i));
  }

  lemma XorBits(a: bv32, b: bv32, c: bv32)
    requires c == a ^ b
    ensures ToBits(c) == Xor(ToBits(a), ToBits(b))
  {
    forall i: nat | i < 32 ensures ToBits(c)[i] == (ToBits(a)[i] != ToBits(b)[i]) { XorHas(a, b, c, i); }
  }

  lemma TwoBits(i: nat) returns (m: bv32, h: bv32)
    ensures m == Bit(i) && h == Bit(i + 1) && h == m >> 1
  {
    m, h := Bit(i), Bit(i + 1);
  }

  lemma ShiftHas(v: bv32, s: bv32, i: nat)
    requires s == v << 1
    ensures Has(s, i) == Has(v, i + 1)
  {
    var m, h := TwoBits(i);
    ShiftWord(v, s, m, h);
  }

  lemma ShiftBits(v: bv32, s: bv32)
    requires s == v << 1
    ensures ToBits(s) == Shifted(ToBits(v))
  {
    forall i: nat | i < 31 ensures ToBits(s)[i] == ToBits(v)[i + 1] { ShiftHas(v, s, i); }
    ShiftedIn(v, s);
    ShiftedBits(ToBits(v), ToBits(s));
  }

  lemma ShiftedIn(v: bv32, s: bv32)
    requires s == v << 1
    ensures !ToBits(s)[31]
  {
    LastBit();
    LowBit(v);
  }

  lemma LowBit(v: bv32)
    ensures (v << 1) & 1 == 0
  {
  }

  lemma TopWord(v: bv32)
    ensures v >> 31 == 0 || v >> 31 == 1
    ensures v >> 31 == 1 <==> v & 0x80000000 != 0
  {
  }

  lemma TopBit(v: bv32)
    ensures v >> 31 == 0 || v >> 31 == 1
    ensures v >> 31 == 1 <==> ToBits(v)[0]
  {
    TopWord(v);
    assert Bit(0) == 0x80000000;
  }

  lemma ZeroWord(m: bv32)
    ensures 0 & m == 0
  {
  }

  lemma ZeroBits()
    ensures ToBits(0) == Zeros(32)
  {
    forall i | 0 <= i < 32 ensures !ToBits(0)[i] { ZeroWord(Bit(i)); }
  }

  /** The eight bits of a byte in the order they are processed. */
  function ByteBits(b: bv8): (r: Bits)
    ensures |r| == 8
  {
    [b & 1 != 0, b & 2 != 0, b & 4 != 0, b & 8 != 0, b & 16 != 0, b & 32 != 0, b & 64 != 0, b & 128 != 0]
  }

  lemma DataBit(b: bv8, n: nat)
    requires n < 8
    ensures (b >> n) & 1 == 0 || (b >> n) & 1 == 1
    ensures (b >> n) & 1 == 1 <==> ByteBits(b)[n]
  {
    if n == 0 {} else if n == 1 {} else if n == 2 {} else if n == 3 {}
    else if n == 4 {} else if n == 5 {} else if n == 6 {} else { assert n == 7; }
  }

  /** The message polynomial. */
  function MessageBits(data: seq<bv8>): (m: Bits)
    ensures |m| == 8 * |data|
  {
    if data == [] then [] else MessageBits(data[..|data| - 1]) + ByteBits(data[|data| - 1])
  }

  lemma LowTerm()
    ensures MASK & 1 != 0
  {
  }

  function Low(): (low: Bits)
    ensures Odd(low)
  {
    LastBit();
    LowTerm();
    ToBits(MASK)
  }

  // -------------------------------------------------------------- calc_crc

  /** One turn of the inner loop of calc_crc. */
  function FeedBit(crc: bv32, d: bool): bv32 {
    if (crc >> 31 == 1) != d then (crc << 1) ^ MASK else crc << 1
  }

  function Feed(crc: bv32, m: Bits): bv32 {
    if m == [] then crc else FeedBit(Feed(crc, m[..|m| - 1]), m[|m| - 1])
  }

  /** The word calc_crc returns. */
  function Crc(data: seq<bv8>): bv32 {
    Feed(0, MessageBits(data))
  }

  lemma StepWord(crc: bv32, d: bool)
    ensures ToBits(FeedBit(crc, d)) == RegStep(Low(), ToBits(crc), d)
  {
    var s, x := StepWords(crc);
    StepChoice(crc, d, s, x);
    StepRegister(crc, s, x, FeedBit(crc, d), d);
  }

  lemma StepChoice(crc: bv32, d: bool, s: bv32, x: bv32)
    requires s == crc << 1 && x == s ^ MASK
    ensures FeedBit(crc, d) == if ToBits(crc)[0] != d then x else s
  {
    TopBit(crc);
  }

  lemma StepWords(crc: bv32) returns (s: bv32, x: bv32)
    ensures s == crc << 1 && x == s ^ MASK
    ensures ToBits(s) == Shifted(ToBits(crc)) && ToBits(x) == Xor(ToBits(s), Low())
  {
    s := crc << 1;
    x := s ^ MASK;
    ShiftBits(crc, s);
    XorBits(s, MASK, x);
  }

  lemma StepRegister(crc: bv32, s: bv32, x: bv32, v: bv32, d: bool)
    requires ToBits(s) == Shifted(ToBits(crc)) && ToBits(x) == Xor(ToBits(s), Low())
    requires v == if ToBits(crc)[0] != d then x else s
    ensures ToBits(v) == RegStep(Low(), ToBits(crc), d)
  {
    StepBits(Low(), ToBits(crc), ToBits(s), ToBits(x), d);
  }

  /** The word is the register. */
  lemma {:induction false} FeedRegister(crc: bv32, m: Bits)
    ensures ToBits(Feed(crc, m)) == Register(Low(), ToBits(crc), m)
  {
    if m != [] {
      var m' := m[..|m| - 1];
      FeedRegister(crc, m');
      StepWord(Feed(crc, m'), m[|m| - 1]);
    }
  }

  lemma {:induction false} FeedSplit(crc: bv32, a: Bits, b: Bits)
    ensures Feed(crc, a + b) == Feed(Feed(crc, a), b)
  {
    if b == [] {
      assert a + b == a;
    } else {
      var b' := b[..|b| - 1];
      FeedSplit(crc, a, b');
      assert (a + b)[..|a + b| - 1] == a + b';
    }
  }

  lemma FeedNext(crc: bv32, m: Bits, n: nat)
    requires n < |m|
    ensures Feed(crc, m[..n + 1]) == FeedBit(Feed(crc, m[..n]), m[n])
  {
    assert m[..n + 1][..n] == m[..n];
  }

  lemma LoopBody(crc: bv32, b: bv8, n: nat)
    requires n < 8
    ensures FeedBit(crc, ByteBits(b)[n]) == if crc >> 31 != ((b >> n) & 1) as bv32 then (crc << 1) ^ MASK else crc << 1
  {
    DataBit(b, n);
    TopBit(crc);
  }

  /** The inner loop of calc_crc: the eight bits of one byte. */
  method FeedByte(crc0: bv32, b: bv8) returns (crc: bv32)
    ensures crc == Feed(crc0, ByteBits(b))
  {
    crc := crc0;
    var n := 0;
    ghost var bits := ByteBits(b);
    while n < 8
      invariant 0 <= n <= 8
      invariant crc == Feed(crc0, bits[..n])
    {
      var bit := crc >> 31;
      var databit := (b >> n) & 1;
      FeedNext(crc0, bits, n);
      LoopBody(crc, b, n);
      if bit != databit as bv32 {
        crc := (crc << 1) ^ MASK;
      } else {
        crc := crc << 1;
      }
      n := n + 1;
    }
    assert bits[..8] == bits;
  }

  lemma CrcNext(data: seq<bv8>, i: nat)
    requires i < |data|
    ensures Crc(data[..i + 1]) == Feed(Crc(data[..i]), ByteBits(data[i]))
  {
    assert data[..i + 1][..i] == data[..i];
    FeedSplit(0, MessageBits(data[..i]), ByteBits(data[i]));
  }

  method CalcCrc(data: seq<bv8>) returns (crc: bv32)
    ensures crc == Crc(data)
  {
    crc := 0;
    var i := 0;
    while i < |data|
      invariant 0 <= i <= |data|
      invariant crc == Crc(data[..i])
    {
      CrcNext(data, i);
      crc := FeedByte(crc, data[i]);
      i := i + 1;
    }
    assert data[..i] == data;
  }

  // ------------------------------------------------------ what it computes

  lemma CrcRegister(data: seq<bv8>)
    ensures ToBits(Crc(data)) == Register(Low(), Zeros(32), MessageBits(data))
  {
    FeedRegister(0, MessageBits(data));
    ZeroBits();
  }

  /** calc_crc returns a remainder of the message times x^32; by `RemainderUnique`, the remainder. */
  lemma CrcIsRemainder(data: seq<bv8>)
    ensures IsRemainder(Low(), MessageBits(data), ToBits(Crc(data)))
  {
    CrcRegister(data);
    var q := RegisterDivides(Low(), Zeros(32), MessageBits(data));
  }

  lemma ByteInjective(a: bv8, b: bv8)
    ensures ByteBits(a) == ByteBits(b) ==> a == b
  {
    var x, y := ByteBits(a), ByteBits(b);
    if x == y {
      assert x[0] == y[0] && x[1] == y[1] && x[2] == y[2] && x[3] == y[3];
      assert x[4] == y[4] && x[5] == y[5] && x[6] == y[6] && x[7] == y[7];
    }
  }

  /** Different buffers are different messages. */
  lemma {:induction false} MessageInjective(a: seq<bv8>, b: seq<bv8>)
    requires |a| == |b|
    ensures MessageBits(a) == MessageBits(b) ==> a == b
  {
    if a != [] && MessageBits(a) == MessageBits(b) {
      var n := |a| - 1;
      LastByte(a, n);
      LastByte(b, n);
      ByteInjective(a[n], b[n]);
      MessageInjective(a[..n], b[..n]);
      assert a == a[..n] + [a[n]] && b == b[..n] + [b[n]];
    }
  }

  lemma LastByte(a: seq<bv8>, n: nat)
    requires |a| == n + 1
    ensures |MessageBits(a)| == 8 * n + 8
    ensures MessageBits(a)[..8 * n] == MessageBits(a[..n]) && MessageBits(a)[8 * n..] == ByteBits(a[n])
  {
  }

  /** Two buffers of one length that differ, and only inside a window of at most 32 processed
      bits, have different CRCs. */
  lemma BurstDetected(a: seq<bv8>, b: seq<bv8>, lo: nat, len: nat)
    requires |a| == |b| && a != b && len <= 32 && lo + len <= 8 * |a|
    requires forall i :: 0 <= i < 8 * |a| && !(lo <= i < lo + len) ==> MessageBits(a)[i] == MessageBits(b)[i]
    ensures Crc(a) != Crc(b)
  {
    var x, y := MessageBits(a), MessageBits(b);
    MessageInjective(a, b);
    assert x[..lo] == y[..lo] && x[lo + len..] == y[lo + len..];
    BurstInBits(Low(), Zeros(32), x, y, lo, lo + len);
    CrcRegister(a);
    CrcRegister(b);
  }
}
