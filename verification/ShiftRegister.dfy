/**
  A shift register over GF(2), as used for a CRC.  Polynomials are sequences of coefficients,
  highest degree first.  The register is proved to hold the remainder of the message times x^32
  by the generator, whatever the generator, and, if that has a constant term, to tell apart
  messages that differ in a burst of at most 32 bits.
 */
module ShiftRegister {

  type Bits = seq<bool>

  function Zeros(n: nat): (z: Bits)
    ensures |z| == n && forall i :: 0 <= i < n ==> !z[i]
  {
    seq(n, _ => false)
  }

  function Xor(a: Bits, b: Bits): (c: Bits)
    requires |a| == |b|
    ensures |c| == |a| && forall i :: 0 <= i < |a| ==> c[i] == (a[i] != b[i])
  {
    seq(|a|, i requires 0 <= i < |a| => a[i] != b[i])
  }

  lemma ShiftedBits(r: Bits, s: Bits)
    requires |r| == |s| == 32 && !s[31] && forall i :: 0 <= i < 31 ==> s[i] == r[i + 1]
    ensures s == Shifted(r)
  {
  }

  /** The terms of a generator below x^32; the constant term must be there. */
  predicate Odd(low: Bits) {
    |low| == 32 && low[31]
  }

  function Shifted(r: Bits): (s: Bits)
    requires |r| == 32
    ensures |s| == 32
  {
    r[1..] + [false]
  }

  function RegStep(low: Bits, r: Bits, d: bool): (s: Bits)
    requires |low| == |r| == 32
    ensures |s| == 32
  {
    if r[0] != d then Xor(Shifted(r), low) else Shifted(r)
  }

  /** The shift register after it has taken in the bits `m`. */
  function Register(low: Bits, r: Bits, m: Bits): (s: Bits)
    requires |low| == |r| == 32
    ensures |s| == 32
  {
    if m == [] then r else RegStep(low, Register(low, r, m[..|m| - 1]), m[|m| - 1])
  }

  lemma {:induction false} RegisterSplit(low: Bits, r: Bits, a: Bits, b: Bits)
    requires |low| == |r| == 32
    ensures Register(low, r, a + b) == Register(low, Register(low, r, a), b)
  {
    if b == [] {
      assert a + b == a;
    } else {
      var b' := b[..|b| - 1];
      RegisterSplit(low, r, a, b');
      assert (a + b)[..|a + b| - 1] == a + b';
    }
  }

  lemma StepBits(low: Bits, r: Bits, s: Bits, x: Bits, d: bool)
    requires |low| == |r| == 32 && s == Shifted(r) && x == Xor(s, low)
    ensures RegStep(low, r, d) == if r[0] != d then x else s
  {
  }

  // ----------------------------------------------------------- polynomials

  /** The parity of the products of coefficients that meet at position `k`. */
  function Convolution(q: Bits, g: Bits, k: nat): bool {
    if q == [] then false
    else
      var n := |q| - 1;
      Convolution(q[..n], g, k) != (q[n] && 0 <= k - n < |g| && g[k - n])
  }

  /** The product of two polynomials. */
  function Mul(q: Bits, g: Bits): (p: Bits)
    requires g != []
    ensures |p| == |q| + |g| - 1
  {
    seq(|q| + |g| - 1, k requires 0 <= k => Convolution(q, g, k))
  }

  lemma {:induction false} BeyondDegree(q: Bits, g: Bits, k: nat)
    requires k >= |q| + |g| - 1
    ensures !Convolution(q, g, k)
  {
    if q != [] { BeyondDegree(q[..|q| - 1], g, k); }
  }

  /** (q x + b) g = (q g) x + b g */
  lemma MulStep(q: Bits, g: Bits, n: nat, before: Bits, k: nat)
    requires g != [] && |q| == n + 1 && before == Mul(q[..n], g) && k < n + |g|
    ensures Mul(q, g)[k] == ((k < |before| && before[k]) != (q[n] && k >= n && g[k - n]))
  {
    if k >= |before| { BeyondDegree(q[..n], g, k); }
  }

  /** x^32 and the lower terms. */
  function Generator(low: Bits): (g: Bits) {
    [true] + low
  }

  /** m x^32 = q g + r, coefficient by coefficient. */
  ghost predicate Divides(low: Bits, m: Bits, q: Bits, r: Bits)
    requires |low| == 32
  {
    |q| == |m| && |r| == 32 && Xor(Mul(q, Generator(low)), Zeros(|m|) + r) == m + Zeros(32)
  }

  ghost predicate IsRemainder(low: Bits, m: Bits, r: Bits)
    requires |low| == 32
  {
    exists q :: Divides(low, m, q, r)
  }

  lemma SumAt(a: Bits, r: Bits, n: nat, k: nat)
    requires |a| == n + |r| && k < |a|
    ensures Xor(a, Zeros(n) + r)[k] == (a[k] != (k >= n && r[k - n]))
  {
    assert (Zeros(n) + r)[k] == (k >= n && r[k - n]);
  }

  lemma DividesAt(low: Bits, m: Bits, q: Bits, r: Bits, k: nat)
    requires |low| == 32 && Divides(low, m, q, r) && k < |m| + 32
    ensures Mul(q, Generator(low))[k] == ((k < |m| && m[k]) != (k >= |m| && r[k - |m|]))
  {
    SumAt(Mul(q, Generator(low)), r, |m|, k);
    assert (m + Zeros(32))[k] == (k < |m| && m[k]);
  }

  /** One coefficient of the next product, from the coefficient `b` of the last one; `c` is the
      coefficient of the longer message at the same place. */
  lemma NextCoefficient(low: Bits, m: Bits, r: Bits, d: bool, r': Bits, n: nat, k: nat, b: bool, c: bool)
    requires |low| == |r| == 32 && n == |m| + 1 && k < n + 32 && r' == RegStep(low, r, d)
    requires b == if k < |m| then m[k] else k < |m| + 32 && r[k - |m|]
    requires c == if k < |m| then m[k] else k == |m| && d
    ensures (b != ((r[0] != d) && k >= |m| && Generator(low)[k - |m|])) == (c != (k >= n && r'[k - n]))
  {
    if k >= n {
      var i := k - n;
      RegisterAt(low, r, d, r', i);
      assert k - |m| == i + 1 && Generator(low)[i + 1] == low[i];
    }
  }

  lemma DivideAt(low: Bits, q: Bits, t: bool, q': Bits, k: nat, b: bool)
    requires |low| == 32 && q' == q + [t] && k < |q| + 33
    requires b == (k < |q| + 32 && Mul(q, Generator(low))[k])
    ensures Mul(q', Generator(low))[k] == (b != (t && k >= |q| && Generator(low)[k - |q|]))
  {
    assert q'[..|q|] == q && q'[|q|] == t;
    MulStep(q', Generator(low), |q|, Mul(q, Generator(low)), k);
  }

  lemma RegisterAt(low: Bits, r: Bits, d: bool, r': Bits, i: nat)
    requires |low| == |r| == 32 && r' == RegStep(low, r, d) && i < 32
    ensures r'[i] == ((i < 31 && r[i + 1]) != ((r[0] != d) && low[i]))
  {
  }

  lemma DivideStepAt(low: Bits, m: Bits, q: Bits, r: Bits, d: bool, m': Bits, q': Bits, r': Bits, n: nat, k: nat)
    requires |low| == 32 && Divides(low, m, q, r) && n == |m| + 1 && k < n + 32
    requires m' == m + [d] && q' == q + [r[0] != d] && r' == RegStep(low, r, d)
    ensures Xor(Mul(q', Generator(low)), Zeros(n) + r')[k] == (m' + Zeros(32))[k]
  {
    var c := (m' + Zeros(32))[k];
    var b := k < |m| + 32 && Mul(q, Generator(low))[k];
    if k < |m| + 32 { DividesAt(low, m, q, r, k); }
    PaddedAt(m, d, m', k);
    NextCoefficient(low, m, r, d, r', n, k, b, c);
    DivideAt(low, q, r[0] != d, q', k, b);
    SumAt(Mul(q', Generator(low)), r', n, k);
  }

  lemma PaddedAt(m: Bits, d: bool, m': Bits, k: nat)
    requires m' == m + [d] && k < |m| + 33
    ensures (m' + Zeros(32))[k] == if k < |m| then m[k] else k == |m| && d
  {
  }

  lemma DivideStep(low: Bits, m: Bits, q: Bits, r: Bits, d: bool, m': Bits, q': Bits, r': Bits)
    requires |low| == 32 && Divides(low, m, q, r)
    requires m' == m + [d] && q' == q + [r[0] != d] && r' == RegStep(low, r, d)
    ensures Divides(low, m', q', r')
  {
    var x, y := Xor(Mul(q', Generator(low)), Zeros(|m'|) + r'), m' + Zeros(32);
    forall k | 0 <= k < |x| ensures x[k] == y[k] { DivideStepAt(low, m, q, r, d, m', q', r', |m'|, k); }
  }

  lemma NothingDivided(low: Bits, r: Bits)
    requires |low| == 32 && r == Zeros(32)
    ensures Divides(low, [], [], r)
  {
    var x := Xor(Mul([], Generator(low)), Zeros(0) + r);
    assert |x| == 32 && forall k :: 0 <= k < 32 ==> !x[k];
    assert x == [] + Zeros(32);
  }

  lemma {:induction false} RegisterDivides(low: Bits, z: Bits, m: Bits) returns (q: Bits)
    requires |low| == 32 && z == Zeros(32)
    ensures Divides(low, m, q, Register(low, z, m))
  {
    if m == [] {
      q := [];
      NothingDivided(low, z);
    } else {
      var m', d := m[..|m| - 1], m[|m| - 1];
      var p := RegisterDivides(low, z, m');
      var r := Register(low, z, m');
      q := p + [r[0] != d];
      DivideStep(low, m', p, r, d, m, q, Register(low, z, m));
    }
  }

  /** The leading coefficients of a product determine the factor, if the other one is monic. */
  lemma {:induction false} QuotientUnique(p: Bits, q: Bits, g: Bits)
    requires |p| == |q| && g != [] && g[0]
    requires forall k :: 0 <= k < |p| ==> Mul(p, g)[k] == Mul(q, g)[k]
    ensures p == q
  {
    if p != [] {
      var n := |p| - 1;
      var a, b := Mul(p[..n], g), Mul(q[..n], g);
      forall k | 0 <= k < n ensures a[k] == b[k] {
        MulStep(p, g, n, a, k);
        MulStep(q, g, n, b, k);
        assert Mul(p, g)[k] == Mul(q, g)[k];
      }
      QuotientUnique(p[..n], q[..n], g);
      LastTerm(p, q, g, n);
    }
  }

  lemma LastTerm(p: Bits, q: Bits, g: Bits, n: nat)
    requires |p| == |q| == n + 1 && g != [] && g[0] && p[..n] == q[..n] && Mul(p, g)[n] == Mul(q, g)[n]
    ensures p == q
  {
    var before := Mul(p[..n], g);
    MulStep(p, g, n, before, n);
    MulStep(q, g, n, before, n);
    SameEnds(p, q, n);
  }

  lemma SameEnds(p: Bits, q: Bits, n: nat)
    requires |p| == |q| == n + 1 && p[..n] == q[..n] && p[n] == q[n]
    ensures p == q
  {
    assert p == p[..n] + [p[n]] && q == q[..n] + [q[n]];
  }

  /** There is only one remainder, so the CRC is the remainder. */
  lemma RemainderUnique(low: Bits, m: Bits, r: Bits, s: Bits)
    requires |low| == 32 && IsRemainder(low, m, r) && IsRemainder(low, m, s)
    ensures r == s
  {
    var p :| Divides(low, m, p, r);
    var q :| Divides(low, m, q, s);
    var g := Generator(low);
    var x, y := Xor(Mul(p, g), Zeros(|m|) + r), Xor(Mul(q, g), Zeros(|m|) + s);
    assert x == y;
    forall k | 0 <= k < |m| ensures Mul(p, g)[k] == Mul(q, g)[k] {
      assert x[k] == Mul(p, g)[k] && y[k] == Mul(q, g)[k];
    }
    QuotientUnique(p, q, g);
    forall k | 0 <= k < 32 ensures r[k] == s[k] {
      assert x[|m| + k] == y[|m| + k];
    }
  }

  // ---------------------------------------------------------- burst errors

  lemma StepInjective(low: Bits, r: Bits, s: Bits, d: bool)
    requires Odd(low) && |r| == |s| == 32 && RegStep(low, r, d) == RegStep(low, s, d)
    ensures r == s
  {
    var x, y := RegStep(low, r, d), RegStep(low, s, d);
    assert x[31] == (r[0] != d) && y[31] == (s[0] != d);
    forall k | 0 < k < 32 ensures r[k] == s[k] {
      assert x[k - 1] == y[k - 1];
      assert Shifted(r)[k - 1] == r[k] && Shifted(s)[k - 1] == s[k];
    }
  }

  /** Equal continuations keep different registers different. */
  lemma {:induction false} RegisterInjective(low: Bits, r: Bits, s: Bits, m: Bits)
    requires Odd(low) && |r| == |s| == 32 && Register(low, r, m) == Register(low, s, m)
    ensures r == s
  {
    if m != [] {
      var m', d := m[..|m| - 1], m[|m| - 1];
      StepInjective(low, Register(low, r, m'), Register(low, s, m'), d);
      RegisterInjective(low, r, s, m');
    }
  }

  lemma StepLinear(low: Bits, r: Bits, s: Bits, d: bool, e: bool)
    requires |low| == |r| == |s| == 32
    ensures Xor(RegStep(low, r, d), RegStep(low, s, e)) == RegStep(low, Xor(r, s), d != e)
  {
    var x, y := Xor(RegStep(low, r, d), RegStep(low, s, e)), RegStep(low, Xor(r, s), d != e);
    forall k | 0 <= k < 32 ensures x[k] == y[k] {
      assert Xor(r, s)[0] == (r[0] != s[0]);
    }
  }

  lemma {:induction false} RegisterLinear(low: Bits, r: Bits, s: Bits, v: Bits, w: Bits)
    requires |low| == |r| == |s| == 32 && |v| == |w|
    ensures Xor(Register(low, r, v), Register(low, s, w)) == Register(low, Xor(r, s), Xor(v, w))
  {
    if v != [] {
      var n := |v| - 1;
      RegisterLinear(low, r, s, v[..n], w[..n]);
      StepLinear(low, Register(low, r, v[..n]), Register(low, s, w[..n]), v[n], w[n]);
      assert Xor(v, w)[..n] == Xor(v[..n], w[..n]);
    }
  }

  /** Only one register is cleared by a given run of at most 32 bits: those bits themselves. */
  lemma {:induction false} ClearedBy(low: Bits, r: Bits, w: Bits)
    requires Odd(low) && |r| == 32 && |w| <= 32 && Register(low, r, w) == Zeros(32)
    ensures r == w + Zeros(32 - |w|)
    decreases |w|
  {
    if w == [] {
      assert r == w + Zeros(32);
    } else {
      var d, w' := w[0], w[1..];
      assert w == [d] + w';
      RegisterSplit(low, r, [d], w');
      assert [d][..0] == [] && Register(low, r, [d]) == RegStep(low, r, d);
      var s := RegStep(low, r, d);
      ClearedBy(low, s, w');
      assert !s[31];
      forall k | 0 < k < 32 ensures r[k] == s[k - 1] {}
      forall k | 0 <= k < 32 ensures r[k] == (w + Zeros(32 - |w|))[k] {
        if k > 0 { assert r[k] == s[k - 1]; }
      }
    }
  }

  lemma SameStart(low: Bits, r: Bits, v: Bits, w: Bits)
    requires Odd(low) && |r| == 32 && |v| == |w| <= 32 && Register(low, r, v) == Register(low, r, w)
    ensures v == w
  {
    RegisterLinear(low, r, r, v, w);
    assert Xor(r, r) == Zeros(32);
    assert Xor(Register(low, r, v), Register(low, r, w)) == Zeros(32);
    ClearedBy(low, Zeros(32), Xor(v, w));
    NoDifference(v, w);
  }

  lemma NoDifference(v: Bits, w: Bits)
    requires |v| == |w| <= 32 && Zeros(32) == Xor(v, w) + Zeros(32 - |v|)
    ensures v == w
  {
    forall k | 0 <= k < |v| ensures v[k] == w[k] {
      assert !(Xor(v, w) + Zeros(32 - |v|))[k];
      assert !Xor(v, w)[k];
    }
  }

  lemma BurstInRegister(low: Bits, z: Bits, head: Bits, v: Bits, w: Bits, tail: Bits)
    requires Odd(low) && |z| == 32 && |v| == |w| <= 32
    requires Register(low, z, (head + v) + tail) == Register(low, z, (head + w) + tail)
    ensures v == w
  {
    RegisterSplit(low, z, head + v, tail);
    RegisterSplit(low, z, head + w, tail);
    RegisterInjective(low, Register(low, z, head + v), Register(low, z, head + w), tail);
    RegisterSplit(low, z, head, v);
    RegisterSplit(low, z, head, w);
    SameStart(low, Register(low, z, head), v, w);
  }

  lemma ThreeParts(x: Bits, lo: nat, hi: nat)
    requires lo <= hi <= |x|
    ensures x == (x[..lo] + x[lo..hi]) + x[hi..]
  {
  }

  lemma BurstInBits(low: Bits, z: Bits, x: Bits, y: Bits, lo: nat, hi: nat)
    requires Odd(low) && |z| == 32 && |x| == |y| && lo <= hi <= |x| && hi - lo <= 32 && x != y
    requires x[..lo] == y[..lo] && x[hi..] == y[hi..]
    ensures Register(low, z, x) != Register(low, z, y)
  {
    ThreeParts(x, lo, hi);
    ThreeParts(y, lo, hi);
    if Register(low, z, x) == Register(low, z, y) {
      BurstInRegister(low, z, x[..lo], x[lo..hi], y[lo..hi], x[hi..]);
    }
  }
}
