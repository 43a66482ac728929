/**
  The CRC by exponents.  The generator is that of section 3.2.9 of IEEE 802.3; words, bytes and
  generator are given here by the powers of x they stand for.
 */
module CrcTerms {
  import opened ShiftRegister
  import opened Crc32

  /** The powers of x in the generator below x^32. */
  const GENERATOR: set<nat> := {26, 23, 22, 16, 12, 11, 10, 8, 7, 5, 4, 2, 1, 0}

  /** The bit of weight 2^e of a word. */
  predicate Term(v: bv32, e: nat)
    decreases e
  {
    if e == 0 then v & 1 == 1 else Term(v >> 1, e - 1)
  }

  predicate ByteTerm(b: bv8, e: nat)
    decreases e
  {
    if e == 0 then b & 1 == 1 else ByteTerm(b >> 1, e - 1)
  }

  // ------------------------------------------------------------ words by exponent

  lemma HalfOfZero(m: bv32)
    requires m == 0
    ensures m >> 1 == 0
  {
  }

  lemma {:induction false} BitThere(i: nat)
    requires i <= 31
    ensures Bit(i) != 0
    decreases 31 - i
  {
    if i == 31 {
      LastBit();
    } else {
      BitThere(i + 1);
      var m, h := TwoBits(i);
      if m == 0 { HalfOfZero(m); }
    }
  }

  lemma EvenWord(m: bv32)
    requires m & (m - 1) == 0 && m >> 1 != 0
    ensures m & 1 == 0
  {
  }

  lemma HalfWord(v: bv32, m: bv32, h: bv32)
    requires h == m >> 1 && m & 1 == 0
    ensures (v & m != 0) == ((v >> 1) & h != 0)
  {
  }

  lemma HalfHas(v: bv32, i: nat)
    requires i < 31
    ensures Has(v, i) == Has(v >> 1, i + 1)
  {
    var m, h := TwoBits(i);
    SingleBit(i);
    BitThere(i + 1);
    EvenWord(m);
    HalfWord(v, m, h);
  }

  lemma LowHas(v: bv32)
    ensures (v & 1 == 1) == (v & 1 != 0)
  {
  }

  lemma {:induction false} TermHas(v: bv32, e: nat, i: nat)
    requires i + e == 31
    ensures Has(v, i) == Term(v, e)
    decreases e
  {
    if e == 0 {
      LastBit();
      LowHas(v);
    } else {
      HalfHas(v, i);
      TermHas(v >> 1, e - 1, i + 1);
    }
  }

  lemma WordTerms(v: bv32, e: nat)
    requires e < 32
    ensures ToBits(v)[31 - e] == Term(v, e)
  {
    TermHas(v, e, 31 - e);
  }

  // ----------------------------------------------------------------- the generator

  lemma FourShifts(v: bv32)
    ensures (((v >> 1) >> 1) >> 1) >> 1 == v >> 4
  {
  }

  lemma Skip(v: bv32, w: bv32, e: nat, n: nat)
    requires n == e + 4 && w == v >> 4
    ensures Term(v, n) == Term(w, e)
  {
    FourShifts(v);
    assert Term(v, n) == Term(v >> 1, e + 3) == Term((v >> 1) >> 1, e + 2) == Term(((v >> 1) >> 1) >> 1, e + 1);
  }

  /** The lowest four bits of a word. */
  lemma Nibble(v: bv32, a: bool, b: bool, c: bool, d: bool, e: nat)
    requires a == (v & 1 != 0) && b == (v & 2 != 0) && c == (v & 4 != 0) && d == (v & 8 != 0) && e < 4
    ensures Term(v, e) == if e == 0 then a else if e == 1 then b else if e == 2 then c else d
  {
    NibbleWords(v);
    assert Term(v, 1) == Term(v >> 1, 0) && Term(v, 2) == Term(v >> 1, 1) == Term((v >> 1) >> 1, 0);
    assert Term(v, 3) == Term(v >> 1, 2) == Term((v >> 1) >> 1, 1) == Term(((v >> 1) >> 1) >> 1, 0);
  }

  lemma NibbleWords(v: bv32)
    ensures (v & 1 == 1) == (v & 1 != 0) && ((v >> 1) & 1 == 1) == (v & 2 != 0)
    ensures (((v >> 1) >> 1) & 1 == 1) == (v & 4 != 0) && ((((v >> 1) >> 1) >> 1) & 1 == 1) == (v & 8 != 0)
  {
  }

  /** Bits 16 to 31 of the mask. */
  lemma UpperTerms(e: nat)
    requires e < 16
    ensures Term(0x04C1, e) <==> e in {10, 7, 6, 0}
  {
    if e < 4 {
      Nibble(0x04C1, true, false, false, false, e);
    } else if e < 8 {
      Skip(0x04C1, 0x04C, e - 4, e);
      Nibble(0x04C, false, false, true, true, e - 4);
    } else {
      Skip(0x04C1, 0x04C, e - 4, e);
      Skip(0x04C, 0x04, e - 8, e - 4);
      TopTerms(e - 8);
    }
  }

  lemma TopTerms(e: nat)
    requires e < 8
    ensures Term(0x04, e) <==> e == 2
  {
    if e < 4 {
      Nibble(0x04, false, false, true, false, e);
    } else {
      Skip(0x04, 0, e - 4, e);
      Nibble(0, false, false, false, false, e - 4);
    }
  }

  /** The mask is the generator without x^32. */
  lemma MaskTerms(e: nat)
    requires e < 32
    ensures Term(MASK, e) <==> e in GENERATOR
  {
    if e < 4 {
      Nibble(MASK, true, true, true, false, e);
    } else if e < 8 {
      Skip(MASK, 0x04C11DB, e - 4, e);
      Nibble(0x04C11DB, true, true, false, true, e - 4);
    } else {
      Skip(MASK, 0x04C11DB, e - 4, e);
      Skip(0x04C11DB, 0x04C11D, e - 8, e - 4);
      MiddleTerms(e);
    }
  }

  lemma MiddleTerms(e: nat)
    requires 8 <= e < 32
    ensures Term(0x04C11D, e - 8) <==> e in GENERATOR
  {
    if e < 12 {
      Nibble(0x04C11D, true, false, true, true, e - 8);
    } else if e < 16 {
      Skip(0x04C11D, 0x04C11, e - 12, e - 8);
      Nibble(0x04C11, true, false, false, false, e - 12);
    } else {
      Skip(0x04C11D, 0x04C11, e - 12, e - 8);
      Skip(0x04C11, 0x04C1, e - 16, e - 12);
      UpperTerms(e - 16);
    }
  }

  // ------------------------------------------------------------------- messages

  lemma ByteWords(b: bv8)
    ensures (b & 1 == 1) == (b & 1 != 0) && ((b >> 1) & 1 == 1) == (b & 2 != 0)
    ensures (((b >> 1) >> 1) & 1 == 1) == (b & 4 != 0) && ((((b >> 1) >> 1) >> 1) & 1 == 1) == (b & 8 != 0)
    ensures (((((b >> 1) >> 1) >> 1) >> 1) & 1 == 1) == (b & 16 != 0) && ((((b >> 1) >> 1) >> 1) >> 1) == b >> 4
  {
  }

  lemma {:induction false} ByteLow(b: bv8, n: nat)
    requires n < 4
    ensures ByteTerm(b, n) == (if n == 0 then b & 1 != 0 else if n == 1 then b & 2 != 0 else if n == 2 then b & 4 != 0 else b & 8 != 0)
  {
    ByteWords(b);
    assert ByteTerm(b, 1) == ByteTerm(b >> 1, 0) && ByteTerm(b, 2) == ByteTerm(b >> 1, 1) == ByteTerm((b >> 1) >> 1, 0);
    assert ByteTerm(b, 3) == ByteTerm(b >> 1, 2) == ByteTerm((b >> 1) >> 1, 1) == ByteTerm(((b >> 1) >> 1) >> 1, 0);
  }

  lemma ByteSkip(b: bv8, n: nat)
    ensures ByteTerm(b, n + 4) == ByteTerm(b >> 4, n)
  {
    ByteWords(b);
    assert ByteTerm(b, n + 4) == ByteTerm(b >> 1, n + 3) == ByteTerm((b >> 1) >> 1, n + 2) == ByteTerm(((b >> 1) >> 1) >> 1, n + 1);
  }

  lemma ByteHigh(b: bv8)
    ensures ((b >> 4) & 1 != 0) == (b & 16 != 0) && ((b >> 4) & 2 != 0) == (b & 32 != 0)
    ensures ((b >> 4) & 4 != 0) == (b & 64 != 0) && ((b >> 4) & 8 != 0) == (b & 128 != 0)
  {
  }

  lemma ByteTerms(b: bv8, n: nat)
    requires n < 8
    ensures ByteBits(b)[n] == ByteTerm(b, n)
  {
    if n < 4 {
      ByteLow(b, n);
    } else {
      ByteSkip(b, n - 4);
      ByteLow(b >> 4, n - 4);
      ByteHigh(b);
    }
  }

  /** Bit `8 * i + n` of the message, in the order of processing, is bit `n` of byte `i`. */
  lemma {:induction false} MessageTerms(data: seq<bv8>, i: nat, n: nat, k: nat)
    requires i < |data| && n < 8 && k == 8 * i + n
    ensures k < 8 * |data| && MessageBits(data)[k] == ByteTerm(data[i], n)
  {
    var last := |data| - 1;
    LastByte(data, last);
    if i == last {
      ByteTerms(data[i], n);
      assert MessageBits(data)[8 * last..][n] == ByteBits(data[last])[n];
    } else {
      MessageTerms(data[..last], i, n, k);
      assert MessageBits(data)[..8 * last][k] == MessageBits(data[..last])[k];
    }
  }

  // -------------------------------------------------------------------- the result

  /** The coefficients of the message, the generator and a word, highest power first. */
  ghost predicate IsMessage(m: Bits, data: seq<bv8>) {
    |m| == 8 * |data| && forall i, n :: 0 <= i < |data| && 0 <= n < 8 ==> MessageBit(m, 8 * i + n) == ByteTerm(data[i], n)
  }

  predicate MessageBit(m: Bits, k: int) {
    0 <= k < |m| && m[k]
  }

  ghost predicate IsGenerator(low: Bits) {
    |low| == 32 && forall e :: 0 <= e < 32 ==> (low[31 - e] <==> e in GENERATOR)
  }

  ghost predicate IsWord(r: Bits, v: bv32) {
    |r| == 32 && forall e :: 0 <= e < 32 ==> r[31 - e] == Term(v, e)
  }

  lemma OneMessage(data: seq<bv8>, m: Bits)
    requires IsMessage(m, data)
    ensures m == MessageBits(data)
  {
    forall k | 0 <= k < |m| ensures m[k] == MessageBits(data)[k] {
      MessageTerms(data, k / 8, k % 8, k);
      assert MessageBit(m, 8 * (k / 8) + k % 8) == ByteTerm(data[k / 8], k % 8);
    }
  }

  lemma OneGenerator(low: Bits)
    requires IsGenerator(low)
    ensures low == Low()
  {
    forall i | 0 <= i < 32 ensures low[i] == Low()[i] {
      WordTerms(MASK, 31 - i);
      MaskTerms(31 - i);
      assert low[31 - (31 - i)] == low[i];
    }
  }

  lemma OneWord(r: Bits, v: bv32)
    requires IsWord(r, v)
    ensures r == ToBits(v)
  {
    forall i | 0 <= i < 32 ensures r[i] == ToBits(v)[i] {
      WordTerms(v, 31 - i);
      assert r[31 - (31 - i)] == r[i];
    }
  }

  /** calc_crc divides: read as polynomials, the message times x^32 is a multiple of the generator
      x^32 + x^26 + x^23 + x^22 + x^16 + x^12 + x^11 + x^10 + x^8 + x^7 + x^5 + x^4 + x^2 + x + 1
      plus the word it returns. */
  lemma CrcByExponents(data: seq<bv8>, message: Bits, low: Bits, r: Bits)
    requires IsMessage(message, data) && IsGenerator(low) && IsWord(r, Crc(data))
    ensures IsRemainder(low, message, r)
  {
    OneMessage(data, message);
    OneGenerator(low);
    OneWord(r, Crc(data));
    CrcIsRemainder(data);
  }

  /** And no other word does. */
  lemma CrcOnlyByExponents(data: seq<bv8>, message: Bits, low: Bits, r: Bits, v: bv32)
    requires IsMessage(message, data) && IsGenerator(low) && IsWord(r, v) && IsRemainder(low, message, r)
    ensures v == Crc(data)
  {
    var s := ToBits(Crc(data));
    OneMessage(data, message);
    OneGenerator(low);
    OneWord(r, v);
    CrcIsRemainder(data);
    RemainderUnique(low, message, r, s);
    SameWord(v, Crc(data));
  }

  lemma SameWord(v: bv32, w: bv32)
    requires ToBits(v) == ToBits(w)
    ensures v == w
  {
    forall e: nat | e < 32 ensures Term(v, e) == Term(w, e) {
      WordTerms(v, e);
      WordTerms(w, e);
    }
    AllBelow(v);
    AllBelow(w);
    SameTerms(v, w, 32);
  }

  /** Halved `n` times, nothing is left. */
  predicate Below(v: bv32, n: nat) {
    if n == 0 then v == 0 else Below(v >> 1, n - 1)
  }

  lemma BelowSkip(v: bv32, n: nat)
    ensures Below(v, n + 4) == Below(v >> 4, n)
  {
    FourShifts(v);
    assert Below(v, n + 4) == Below(v >> 1, n + 3) == Below((v >> 1) >> 1, n + 2) == Below(((v >> 1) >> 1) >> 1, n + 1);
  }

  lemma AllShifts(v: bv32)
    ensures (((((((v >> 4) >> 4) >> 4) >> 4) >> 4) >> 4) >> 4) >> 4 == 0
  {
  }

  lemma AllBelow(v: bv32)
    ensures Below(v, 32)
  {
    var a := v >> 4;
    var b := a >> 4;
    var c := b >> 4;
    BelowSkip(v, 28);
    BelowSkip(a, 24);
    BelowSkip(b, 20);
    HalfBelow(v, c);
  }

  lemma HalfBelow(v: bv32, c: bv32)
    requires c == ((v >> 4) >> 4) >> 4
    ensures Below(c, 20)
  {
    var d := c >> 4;
    var e := d >> 4;
    var f := e >> 4;
    var g := f >> 4;
    BelowSkip(c, 16);
    BelowSkip(d, 12);
    BelowSkip(e, 8);
    BelowSkip(f, 4);
    BelowSkip(g, 0);
    AllShifts(v);
  }

  lemma ByParts(v: bv32, w: bv32, x: bv32, y: bv32)
    requires (v & 1 == 1) == (w & 1 == 1) && x == v >> 1 && y == w >> 1 && x == y
    ensures v == w
  {
  }

  ghost predicate Agree(v: bv32, w: bv32, n: nat) {
    forall e: nat :: e < n ==> Term(v, e) == Term(w, e)
  }

  lemma AgreeHalf(v: bv32, w: bv32, x: bv32, y: bv32, n: nat)
    requires Agree(v, w, n + 1) && x == v >> 1 && y == w >> 1
    ensures Agree(x, y, n) && (v & 1 == 1) == (w & 1 == 1)
  {
    assert Term(v, 0) == Term(w, 0);
    forall e: nat | e < n ensures Term(x, e) == Term(y, e) { assert Term(v, e + 1) == Term(w, e + 1); }
  }

  lemma {:induction false} SameTerms(v: bv32, w: bv32, n: nat)
    requires Below(v, n) && Below(w, n) && Agree(v, w, n)
    ensures v == w
    decreases n
  {
    if n > 0 {
      var x, y := v >> 1, w >> 1;
      AgreeHalf(v, w, x, y, n - 1);
      SameTerms(x, y, n - 1);
      ByParts(v, w, x, y);
    }
  }
}
