/**
 * Binary digit strings, most significant bit first, exactly as both programs
 * keep them: a Python `str` of '0' and '1' characters. Slicing, concatenation
 * and comparison of these strings map one-to-one onto Dafny sequences.
 *
 * `Unsigned` is Python's `int(s, 2)` and `ToBits(n, w)` is the low `w` bits
 * of `n`, which is `format(n, '0{w}b')` whenever `n < 2^w`.
 */
module BitString {

  /** One binary digit, written as the character the programs use. */
  type Bit = c: char | c == '0' || c == '1' witness '0'

  /** A most-significant-bit-first string of binary digits. */
  type Bits = seq<Bit>

  /** A 32-bit word: instruction words, register values and the PC. */
  type Word = s: Bits | |s| == 32 witness Zeros(32)

  function Pow2(n: nat): (r: int)
    ensures r > 0
  {
    if n == 0 then 1 else 2 * Pow2(n - 1)
  }

  function BitValue(b: Bit): (v: nat)
    ensures v < 2
    ensures v == 1 <==> b == '1'
  {
    if b == '1' then 1 else 0
  }

  function BitOf(v: nat): (b: Bit)
    requires v < 2
    ensures BitValue(b) == v
  {
    if v == 1 then '1' else '0'
  }

  /** `w` zero digits: `'0' * w`. */
  function Zeros(w: nat): (r: Bits)
    ensures |r| == w
    ensures forall i :: 0 <= i < w ==> r[i] == '0'
  {
    seq(w, _ => '0')
  }

  /** The unsigned value of a digit string, Python's `int(s, 2)`. */
  function Unsigned(s: Bits): (r: nat)
    ensures r < Pow2(|s|)
  {
    if s == [] then 0 else 2 * Unsigned(s[..|s| - 1]) + BitValue(s[|s| - 1])
  }

  /** The low `w` bits of `n`, most significant first. */
  function ToBits(n: nat, w: nat): (r: Bits)
    ensures |r| == w
  {
    if w == 0 then [] else ToBits(n / 2, w - 1) + [BitOf(n % 2)]
  }

  // ---------------------------------------------------------------------
  // Arithmetic facts used throughout.

  lemma MulDistributes(x: int, y: int, d: int)
    ensures (x - y) * d == x * d - y * d
  {
  }

  lemma MulAtLeast(x: int, d: int)
    requires x >= 1 && d > 0
    ensures x * d >= d
  {
  }

  lemma DivModUnique(n: int, d: int, q: int, r: int)
    requires d > 0 && 0 <= r < d && n == q * d + r
    ensures n / d == q && n % d == r
  {
    var q', r' := n / d, n % d;
    assert n == q' * d + r';
    if q > q' {
      MulDistributes(q, q', d);
      MulAtLeast(q - q', d);
    } else if q < q' {
      MulDistributes(q', q, d);
      MulAtLeast(q' - q, d);
    }
  }

  lemma {:induction false} Pow2Add(a: nat, b: nat)
    ensures Pow2(a + b) == Pow2(a) * Pow2(b)
  {
    if a > 0 {
      Pow2Add(a - 1, b);
      assert Pow2(a + b) == 2 * Pow2(a - 1 + b);
    }
  }

  lemma {:induction false} Pow2Monotone(a: nat, b: nat)
    requires a <= b
    ensures Pow2(a) <= Pow2(b)
  {
    if a < b {
      Pow2Monotone(a, b - 1);
    }
  }

  lemma ModDouble(n: nat, p: nat)
    requires p > 0
    ensures n % (2 * p) == 2 * ((n / 2) % p) + n % 2
    ensures n / (2 * p) == (n / 2) / p
  {
    var q, r0 := n / 2, n % 2;
    var k, r1 := q / p, q % p;
    assert n == k * (2 * p) + (2 * r1 + r0);
    DivModUnique(n, 2 * p, k, 2 * r1 + r0);
  }

  // ---------------------------------------------------------------------
  // Unsigned and ToBits are inverse to each other.

  /** The value of the low `w` bits of `n` is `n mod 2^w`. */
  lemma {:induction false} UnsignedOfToBits(n: nat, w: nat)
    ensures Unsigned(ToBits(n, w)) == n % Pow2(w)
  {
    if w > 0 {
      var r := ToBits(n, w);
      assert r[..w - 1] == ToBits(n / 2, w - 1);
      UnsignedOfToBits(n / 2, w - 1);
      ModDouble(n, Pow2(w - 1));
    }
  }

  /** Reading a digit string and writing its value back at the same width gives it back. */
  lemma {:induction false} ToBitsOfUnsigned(s: Bits)
    ensures ToBits(Unsigned(s), |s|) == s
  {
    if s != [] {
      var n := |s|;
      var init := s[..n - 1];
      ToBitsOfUnsigned(init);
      var u := Unsigned(s);
      assert u == 2 * Unsigned(init) + BitValue(s[n - 1]);
      assert u / 2 == Unsigned(init) && u % 2 == BitValue(s[n - 1]);
      assert s == init + [s[n - 1]];
    }
  }

  lemma UnsignedInjective(a: Bits, b: Bits)
    requires |a| == |b| && Unsigned(a) == Unsigned(b)
    ensures a == b
  {
    ToBitsOfUnsigned(a);
    ToBitsOfUnsigned(b);
  }

  /** Only the low `w` bits of `n` matter. */
  lemma ToBitsMod(n: nat, w: nat)
    ensures ToBits(n, w) == ToBits(n % Pow2(w), w)
  {
    UnsignedOfToBits(n, w);
    ToBitsOfUnsigned(ToBits(n, w));
  }

  lemma ToBitsZero(w: nat)
    ensures ToBits(0, w) == Zeros(w)
    ensures Unsigned(Zeros(w)) == 0
  {
    UnsignedOfToBits(0, w);
    ZerosValue(w);
    UnsignedInjective(ToBits(0, w), Zeros(w));
  }

  lemma {:induction false} ZerosValue(w: nat)
    ensures Unsigned(Zeros(w)) == 0
  {
    if w > 0 {
      assert Zeros(w)[..w - 1] == Zeros(w - 1);
      ZerosValue(w - 1);
    }
  }

  /** The value of a concatenation: the left part is shifted past the right one. */
  lemma {:induction false} UnsignedAppend(a: Bits, b: Bits)
    ensures Unsigned(a + b) == Unsigned(a) * Pow2(|b|) + Unsigned(b)
  {
    if b == [] {
      assert a + b == a;
    } else {
      var m := |b|;
      var b' := b[..m - 1];
      var ab := a + b;
      assert ab[..|ab| - 1] == a + b';
      assert ab[|ab| - 1] == b[m - 1];
      UnsignedAppend(a, b');
      var x, p, v := Unsigned(a), Pow2(m - 1), BitValue(b[m - 1]);
      assert Unsigned(ab) == 2 * Unsigned(a + b') + v;
      assert Unsigned(b) == 2 * Unsigned(b') + v;
      MulShift(x, p);
    }
  }

  lemma MulShift(x: int, p: int)
    ensures 2 * (x * p) == x * (2 * p)
  {
  }

  /** Dropping the low digits is division by a power of two. */
  lemma UnsignedPrefix(s: Bits, m: nat)
    requires m <= |s|
    ensures Unsigned(s[..m]) == Unsigned(s) / Pow2(|s| - m)
    ensures Unsigned(s[m..]) == Unsigned(s) % Pow2(|s| - m)
  {
    assert s == s[..m] + s[m..];
    UnsignedAppend(s[..m], s[m..]);
    DivModUnique(Unsigned(s), Pow2(|s| - m), Unsigned(s[..m]), Unsigned(s[m..]));
  }

  /** The leading digit is one exactly when the value reaches the top half. */
  lemma UnsignedTopBit(s: Bits)
    requires |s| > 0
    ensures Unsigned(s) == BitValue(s[0]) * Pow2(|s| - 1) + Unsigned(s[1..])
    ensures s[0] == '1' <==> Unsigned(s) >= Pow2(|s| - 1)
  {
    var head, tail := [s[0]], s[1..];
    assert s == head + tail;
    UnsignedAppend(head, tail);
    assert head[..0] == [];
    assert Unsigned(head) == BitValue(s[0]);
    var p := Pow2(|s| - 1);
    if s[0] == '1' {
      assert Unsigned(s) == p + Unsigned(tail);
    } else {
      assert Unsigned(s) == Unsigned(tail);
    }
  }
}
