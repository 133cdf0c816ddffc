/**
 * The simulator's bit helpers (Simulator.py, lines 18-48): two's-complement
 * writing and reading of digit strings, sign extension, and 32-bit addition
 * and subtraction that wrap around silently.
 */
module BitOps {
  import opened BitString

  lemma ModShift(x: int, k: int, p: int)
    requires p > 0
    ensures (x + k * p) % p == x % p
  {
    var q, r := x / p, x % p;
    assert x + k * p == (q + k) * p + r;
    DivModUnique(x + k * p, p, q + k, r);
  }

  /**
   * `to_binary(value, w)`: a negative value is first moved up by 2^w, then
   * written with `w` digits. Every caller passes a value in [-2^w, 2^w), where
   * Python's `format` produces exactly `w` digits.
   */
  function ToBinary(value: int, w: nat): (r: Bits)
    requires -Pow2(w) <= value < Pow2(w)
    ensures |r| == w
    ensures Unsigned(r) == value % Pow2(w)
  {
    var n := if value < 0 then Pow2(w) + value else value;
    UnsignedOfToBits(n, w);
    DivModUnique(n, Pow2(w), 0, n);
    ModShift(value, 1, Pow2(w));
    ToBits(n, w)
  }

  /** The digit-by-digit complement used by `to_decimal`. */
  function Invert(s: Bits): (r: Bits)
    ensures |r| == |s|
  {
    seq(|s|, i requires 0 <= i < |s| => if s[i] == '0' then '1' else '0')
  }

  lemma {:induction false} UnsignedInvert(s: Bits)
    ensures Unsigned(Invert(s)) == Pow2(|s|) - 1 - Unsigned(s)
  {
    if s != [] {
      var n := |s|;
      assert Invert(s)[..n - 1] == Invert(s[..n - 1]);
      UnsignedInvert(s[..n - 1]);
    }
  }

  /**
   * `to_decimal(s)`: a leading one means a negative number, read as minus
   * (complement plus one). The result is the two's-complement value of `s`.
   */
  function ToDecimal(s: Bits): (r: int)
    requires |s| > 0
    ensures r == Unsigned(s) - (if s[0] == '1' then Pow2(|s|) else 0)
    ensures -Pow2(|s| - 1) <= r < Pow2(|s| - 1)
  {
    UnsignedInvert(s);
    UnsignedTopBit(s);
    if s[0] == '1' then -(Unsigned(Invert(s)) + 1) else Unsigned(s)
  }

  /** Python's `c * k` for a one-character string `c`. */
  function Repeat(c: Bit, k: nat): (r: Bits)
    ensures |r| == k
    ensures forall i :: 0 <= i < k ==> r[i] == c
  {
    seq(k, _ => c)
  }

  lemma {:induction false} SignExtendValue(k: nat, s: Bits)
    requires |s| > 0
    ensures ToDecimal(Repeat(s[0], k) + s) == ToDecimal(s)
  {
    if k > 0 {
      var t := Repeat(s[0], k - 1) + s;
      SignExtendValue(k - 1, s);
      assert Repeat(s[0], k) + s == [s[0]] + t;
      var u := [s[0]] + t;
      assert u[1..] == t;
      UnsignedTopBit(u);
      UnsignedTopBit(t);
      assert t[0] == s[0];
    } else {
      assert Repeat(s[0], k) + s == s;
    }
  }

  /**
   * `bit_extend_signed(s, width)`: copies the sign digit to the left until the
   * string is `width` long; a string already that long is returned unchanged.
   */
  function BitExtendSigned(s: Bits, width: int): (r: Bits)
    requires |s| > 0
    ensures |r| == if width > |s| then width else |s|
    ensures r[|r| - |s|..] == s
    ensures ToDecimal(r) == ToDecimal(s)
  {
    var k := if width > |s| then width - |s| else 0;
    SignExtendValue(k, s);
    Repeat(s[0], k) + s
  }

  /**
   * `add_binary_values(a, b)`: adds the signed values and writes the sum back
   * as 32 digits. The sum wraps modulo 2^32; no overflow is reported.
   */
  function AddBinaryValues(a: Word, b: Word): (r: Word)
    ensures Unsigned(r) == (Unsigned(a) + Unsigned(b)) % Pow2(32)
  {
    var sum := ToDecimal(a) + ToDecimal(b);
    AddWraps(a, b, sum);
    ToBinary(sum, 32)
  }

  lemma AddWraps(a: Word, b: Word, sum: int)
    requires sum == ToDecimal(a) + ToDecimal(b)
    ensures -Pow2(32) <= sum < Pow2(32)
    ensures sum % Pow2(32) == (Unsigned(a) + Unsigned(b)) % Pow2(32)
  {
    Pow2Word();
    SignedCongruent(a);
    SignedCongruent(b);
    assert Unsigned(a) + Unsigned(b) == sum + (SignWeight(a) + SignWeight(b)) * 0x1_0000_0000;
    ModShift(sum, SignWeight(a) + SignWeight(b), 0x1_0000_0000);
  }

  lemma Pow2Word()
    ensures Pow2(31) == 0x8000_0000 && Pow2(32) == 0x1_0000_0000
  {
    Pow2Add(16, 15);
    Pow2Add(16, 16);
    Pow2Add(8, 8);
    Pow2Add(8, 7);
    assert Pow2(8) == 256;
  }

  /** Adding a word is adding its signed value, modulo 2^32. */
  lemma AddSignedValue(a: Word, b: Word, sum: int)
    requires sum == Unsigned(a) + ToDecimal(b)
    ensures Unsigned(AddBinaryValues(a, b)) == sum % Pow2(32)
  {
    Pow2Word();
    SignedCongruent(b);
    assert Unsigned(a) + Unsigned(b) == sum + SignWeight(b) * 0x1_0000_0000;
    ModShift(sum, SignWeight(b), 0x1_0000_0000);
  }

  /** Ripple-carry increment: one added to the digit string, the carry out of the top digit dropped. */
  function Increment(s: Bits): (r: Bits)
    ensures |r| == |s|
    ensures Unsigned(r) == (Unsigned(s) + 1) % Pow2(|s|)
  {
    if s == [] then []
    else
      var n := |s|;
      var init := s[..n - 1];
      if s[n - 1] == '0' then
        IncrementNoCarry(s);
        init + ['1']
      else
        IncrementCarry(s, Increment(init));
        Increment(init) + ['0']
  }

  lemma IncrementNoCarry(s: Bits)
    requires |s| > 0 && s[|s| - 1] == '0'
    ensures Unsigned(s[..|s| - 1] + ['1']) == (Unsigned(s) + 1) % Pow2(|s|)
  {
    var n := |s|;
    var init := s[..n - 1];
    var r := init + ['1'];
    assert r[..n - 1] == init;
    assert Unsigned(r) == Unsigned(s) + 1;
    assert Unsigned(s) + 1 < Pow2(n);
    DivModUnique(Unsigned(s) + 1, Pow2(n), 0, Unsigned(s) + 1);
  }

  lemma IncrementCarry(s: Bits, inc: Bits)
    requires |s| > 0 && s[|s| - 1] == '1'
    requires |inc| == |s| - 1 && Unsigned(inc) == (Unsigned(s[..|s| - 1]) + 1) % Pow2(|s| - 1)
    ensures Unsigned(inc + ['0']) == (Unsigned(s) + 1) % Pow2(|s|)
  {
    var n := |s|;
    var r := inc + ['0'];
    assert r[..n - 1] == inc;
    assert Unsigned(r) == 2 * Unsigned(inc);
    var x := Unsigned(s[..n - 1]) + 1;
    assert Unsigned(s) + 1 == 2 * x;
    DoubleMod(x, Pow2(n - 1));
  }

  lemma DoubleMod(x: nat, p: nat)
    requires p > 0
    ensures (2 * x) % (2 * p) == 2 * (x % p)
  {
    DivModUnique(2 * x, 2 * p, x / p, 2 * (x % p));
  }

  /** `subtract_binary_values(a, b)`: the wrapped difference of `a` and `b`. */
  function SubtractBinaryValues(a: Word, b: Word): (r: Word)
    ensures Unsigned(r) == (Unsigned(a) - Unsigned(b)) % Pow2(32)
  {
    var diff := ToDecimal(a) - ToDecimal(b);
    SubtractWraps(a, b, diff);
    ToBinary(diff, 32)
  }

  lemma SubtractWraps(a: Word, b: Word, diff: int)
    requires diff == ToDecimal(a) - ToDecimal(b)
    ensures -Pow2(32) <= diff < Pow2(32)
    ensures diff % Pow2(32) == (Unsigned(a) - Unsigned(b)) % Pow2(32)
  {
    Pow2Word();
    SignedCongruent(a);
    SignedCongruent(b);
    MulDistributes(SignWeight(a), SignWeight(b), 0x1_0000_0000);
    assert Unsigned(a) - Unsigned(b) == diff + (SignWeight(a) - SignWeight(b)) * 0x1_0000_0000;
    ModShift(diff, SignWeight(a) - SignWeight(b), 0x1_0000_0000);
  }

  function SignWeight(s: Bits): int
    requires |s| > 0
  {
    if s[0] == '1' then 1 else 0
  }

  /** The unsigned reading exceeds the signed one by 2^|s| exactly when the sign digit is set. */
  lemma SignedCongruent(s: Bits)
    requires |s| > 0
    ensures Unsigned(s) == ToDecimal(s) + SignWeight(s) * Pow2(|s|)
  {
  }

  // ---------------------------------------------------------------------
  // to_binary and to_decimal are inverse to each other.

  /** Writing a value in the signed range of `w` bits and reading it back gives the value. */
  lemma ToDecimalOfToBinary(v: int, w: nat)
    requires w > 0 && -Pow2(w - 1) <= v < Pow2(w - 1)
    ensures ToDecimal(ToBinary(v, w)) == v
  {
    var r := ToBinary(v, w);
    assert Pow2(w) == 2 * Pow2(w - 1);
    UnsignedTopBit(r);
    if v < 0 {
      DivModUnique(v, Pow2(w), -1, Pow2(w) + v);
    } else {
      DivModUnique(v, Pow2(w), 0, v);
    }
  }

  /** Reading a digit string as a signed value and writing it back gives the string. */
  lemma ToBinaryOfToDecimal(s: Bits)
    requires |s| > 0
    ensures ToBinary(ToDecimal(s), |s|) == s
  {
    var d := ToDecimal(s);
    var r := ToBinary(d, |s|);
    assert Pow2(|s|) == 2 * Pow2(|s| - 1);
    if s[0] == '1' {
      DivModUnique(d, Pow2(|s|), -1, Unsigned(s));
    } else {
      DivModUnique(d, Pow2(|s|), 0, Unsigned(s));
    }
    UnsignedInjective(r, s);
  }
}
