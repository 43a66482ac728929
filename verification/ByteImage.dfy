/** Bytes of a file or of memory, and the little-endian words in them. */
module ByteImage {

  type byte = x: int | 0 <= x < 0x100
  type Bytes = seq<byte>

  function At(m: Bytes, k: nat): byte {
    if k < |m| then m[k] else 0
  }

  /** A little-endian 32-bit word. */
  function U32(m: Bytes, k: nat): nat {
    At(m, k) + 0x100 * At(m, k + 1) + 0x10000 * At(m, k + 2) + 0x1000000 * At(m, k + 3)
  }

  function U16(m: Bytes, k: nat): nat {
    At(m, k) + 0x100 * At(m, k + 1)
  }

  /** The four bytes of a 32-bit word as it is stored. */
  function WordBytes(x: nat): (b: Bytes)
    ensures |b| == 4
  {
    [x % 0x100, x / 0x100 % 0x100, x / 0x10000 % 0x100, x / 0x1000000 % 0x100]
  }

  lemma Reassembled(x: nat)
    requires x < 0x100000000
    ensures x % 0x100 + 0x100 * (x / 0x100 % 0x100) + 0x10000 * (x / 0x10000 % 0x100) + 0x1000000 * (x / 0x1000000 % 0x100) == x
  {
    var a := x / 0x100;
    var b := a / 0x100;
    var c := b / 0x100;
    assert x / 0x10000 == b && x / 0x1000000 == c && c < 0x100;
  }

  lemma StoredWord(m: Bytes, k: nat, x: nat)
    requires x < 0x100000000 && k + 4 <= |m| && m[k..k + 4] == WordBytes(x)
    ensures U32(m, k) == x
  {
    Reassembled(x);
    var b := m[k..k + 4];
    assert m[k] == b[0] && m[k + 1] == b[1] && m[k + 2] == b[2] && m[k + 3] == b[3];
  }

  /** Words one after the other. */
  function Words(ws: seq<nat>): (m: Bytes)
    ensures |m| == 4 * |ws|
  {
    if ws == [] then [] else Words(ws[..|ws| - 1]) + WordBytes(ws[|ws| - 1])
  }

  lemma {:induction false} WordsAt(ws: seq<nat>, i: nat)
    requires i < |ws|
    ensures Words(ws)[4 * i..4 * i + 4] == WordBytes(ws[i])
  {
    var n := |ws| - 1;
    if i < n {
      WordsAt(ws[..n], i);
      assert Words(ws)[4 * i..4 * i + 4] == Words(ws[..n])[4 * i..4 * i + 4];
    }
  }

  lemma WordRead(ws: seq<nat>, i: nat)
    requires i < |ws| && ws[i] < 0x100000000
    ensures U32(Words(ws), 4 * i) == ws[i]
  {
    var m, k := Words(ws), 4 * i;
    assert k + 4 <= |m| && m[k..k + 4] == WordBytes(ws[i]) by { WordsAt(ws, i); }
    StoredWord(m, k, ws[i]);
  }

  lemma HalfWord(x: nat)
    requires x < 0x10000
    ensures x % 0x100 + 0x100 * (x / 0x100 % 0x100) == x
  {
  }

  lemma StoredHalf(m: Bytes, k: nat, x: nat)
    requires x < 0x10000 && k + 4 <= |m| && m[k..k + 4] == WordBytes(x)
    ensures U16(m, k) == x
  {
    var b := m[k..k + 4];
    assert m[k] == b[0] && m[k + 1] == b[1];
    HalfWord(x);
  }

  lemma HalfRead(ws: seq<nat>, i: nat)
    requires i < |ws| && ws[i] < 0x10000
    ensures U16(Words(ws), 4 * i) == ws[i]
  {
    var m, k := Words(ws), 4 * i;
    assert k + 4 <= |m| && m[k..k + 4] == WordBytes(ws[i]) by { WordsAt(ws, i); }
    StoredHalf(m, k, ws[i]);
  }

  function Signed(x: nat): int {
    if x < 0x80000000 then x else x - 0x100000000
  }
}
