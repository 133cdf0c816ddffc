/**
 * The assembler's encoding layer (Assembler.py, lines 1-155): the register,
 * opcode, funct3 and funct7 tables, the two's-complement encoder `inbin`, the
 * immediate-literal parser, the `imm(reg)` operand splitter, and the five
 * instruction-format packers. Each packer produces a 32-digit string, most
 * significant bit first, laid out as in sections 2.2 and 2.3 of the RISC-V
 * Unprivileged ISA Specification (version 20191213).
 */
module Encoder {
  import opened Wrappers
  import opened BitString

  /** Why a source line could not be encoded. */
  datatype ErrorKind =
    | OperandCount(form: string)       // "Incorrect number of operands for <form>"
    | UnknownRegister(name: string)
    | MalformedMemory(operand: string)
    | BadImmediate(literal: string)    // Python's int() rejected the digits
    | UndefinedLabel(name: string)
    | OddBranchOffset
    | OddJumpOffset
    | UnknownInstruction(name: string)

  // ---------------------------------------------------------------------
  // Tables (Assembler.py, lines 3-67).

  type RegIndex = i: int | 0 <= i < 32
  type Opcode = s: Bits | |s| == 7 witness Zeros(7)
  type Funct3 = s: Bits | |s| == 3 witness Zeros(3)
  type Funct7 = s: Bits | |s| == 7 witness Zeros(7)

  const Registers: map<string, RegIndex> := map[
    "zero" := 0, "x0" := 0,
    "ra" := 1, "x1" := 1,
    "sp" := 2, "x2" := 2,
    "gp" := 3, "x3" := 3,
    "tp" := 4, "x4" := 4,
    "t0" := 5, "x5" := 5,
    "t1" := 6, "x6" := 6,
    "t2" := 7, "x7" := 7,
    "s0" := 8, "fp" := 8, "x8" := 8,
    "s1" := 9, "x9" := 9,
    "a0" := 10, "x10" := 10,
    "a1" := 11, "x11" := 11,
    "a2" := 12, "x12" := 12,
    "a3" := 13, "x13" := 13,
    "a4" := 14, "x14" := 14,
    "a5" := 15, "x15" := 15,
    "a6" := 16, "x16" := 16,
    "a7" := 17, "x17" := 17,
    "s2" := 18, "x18" := 18,
    "s3" := 19, "x19" := 19,
    "s4" := 20, "x20" := 20,
    "s5" := 21, "x21" := 21,
    "s6" := 22, "x22" := 22,
    "s7" := 23, "x23" := 23,
    "s8" := 24, "x24" := 24,
    "s9" := 25, "x25" := 25,
    "s10" := 26, "x26" := 26,
    "s11" := 27, "x27" := 27,
    "t3" := 28, "x28" := 28,
    "t4" := 29, "x29" := 29,
    "t5" := 30, "x30" := 30,
    "t6" := 31, "x31" := 31
  ]

  datatype RInfo = RInfo(opcode: Opcode, funct3: Funct3, funct7: Funct7)
  datatype FInfo = FInfo(opcode: Opcode, funct3: Funct3)

  const RType: map<string, RInfo> := map[
    "add" := RInfo("0110011", "000", "0000000"),
    "sub" := RInfo("0110011", "000", "0100000"),
    "slt" := RInfo("0110011", "010", "0000000"),
    "srl" := RInfo("0110011", "101", "0000000"),
    "or" := RInfo("0110011", "110", "0000000"),
    "and" := RInfo("0110011", "111", "0000000")
  ]

  const IType: map<string, FInfo> := map[
    "addi" := FInfo("0010011", "000"),
    "lw" := FInfo("0000011", "010"),
    "jalr" := FInfo("1100111", "000")
  ]

  const SType: map<string, FInfo> := map[
    "sw" := FInfo("0100011", "010")
  ]

  const BType: map<string, FInfo> := map[
    "beq" := FInfo("1100011", "000"),
    "bne" := FInfo("1100011", "001"),
    "blt" := FInfo("1100011", "100")
  ]

  const JOpcode: Opcode := "1101111"

  // ---------------------------------------------------------------------
  // inbin (Assembler.py, lines 70-84).

  /**
   * What `inbin(val, bits)` returns: the low `bits` bits of `val` in two's
   * complement. A value below -2^bits leaves the digit loop with nothing to
   * do and comes out as all zeros.
   */
  function BinaryOf(val: int, bits: nat): (r: Bits)
    ensures |r| == bits
  {
    if val < -Pow2(bits) then Zeros(bits) else ToBits(val % Pow2(bits), bits)
  }

  function Reverse(s: Bits): (r: Bits)
    ensures |r| == |s|
  {
    if s == [] then [] else Reverse(s[1..]) + [s[0]]
  }

  lemma {:induction false} ReverseSnoc(s: Bits, b: Bit)
    ensures Reverse(s + [b]) == [b] + Reverse(s)
  {
    if s != [] {
      assert (s + [b])[1..] == s[1..] + [b];
      ReverseSnoc(s[1..], b);
    } else {
      assert s + [b] == [b];
    }
  }

  lemma HalveStep(n: int, p: int)
    requires n > 0 && p > 0
    ensures (n / 2) * (2 * p) + (n % 2) * p == n * p
  {
    var q, r := n / 2, n % 2;
    assert n == 2 * q + r;
    assert q * (2 * p) == 2 * (q * p);
    assert (2 * q + r) * p == 2 * (q * p) + r * p;
  }

  lemma DigitStep(n: int, s: Bits)
    requires n > 0
    ensures (n / 2) * Pow2(|s| + 1) + Unsigned(Reverse(s + [BitOf(n % 2)]))
         == n * Pow2(|s|) + Unsigned(Reverse(s))
  {
    var b := BitOf(n % 2);
    ReverseSnoc(s, b);
    UnsignedTopBit([b] + Reverse(s));
    assert ([b] + Reverse(s))[1..] == Reverse(s);
    var p := Pow2(|s|);
    assert Pow2(|s| + 1) == 2 * p;
    HalveStep(n, p);
  }

  /** Padding the natural digits of `n` with zeros gives the low `bits` bits of `n`. */
  lemma PadDigits(n: nat, t: Bits, bits: nat)
    requires Unsigned(t) == n && |t| <= bits
    ensures Zeros(bits - |t|) + t == ToBits(n % Pow2(bits), bits)
  {
    var r := Zeros(bits - |t|) + t;
    assert Unsigned(r) == n by {
      UnsignedAppend(Zeros(bits - |t|), t);
      ToBitsZero(bits - |t|);
    }
    assert n % Pow2(bits) == n by {
      Pow2Monotone(|t|, bits);
      DivModUnique(n, Pow2(bits), 0, n);
    }
    assert |r| == bits;
    ToBitsOfUnsigned(r);
    assert ToBits(Unsigned(r), |r|) == ToBits(n % Pow2(bits), bits);
  }

  /** Cutting the natural digits of `n` to the last `bits` gives the low `bits` bits of `n`. */
  lemma CutDigits(n: nat, t: Bits, bits: nat)
    requires Unsigned(t) == n && |t| > bits
    ensures t[|t| - bits..] == ToBits(n % Pow2(bits), bits)
  {
    var r := t[|t| - bits..];
    UnsignedPrefix(t, |t| - bits);
    assert |t| - (|t| - bits) == bits;
    ToBitsOfUnsigned(r);
  }

  /**
   * `inbin(val, bits)` as written: negative values are moved up by 2^bits,
   * the digits are produced least significant first by repeated halving,
   * reversed, and then padded with zeros or cut to the last `bits` digits.
   */
  method InBin(val: int, bits: nat) returns (s: Bits)
    ensures s == BinaryOf(val, bits)
  {
    var n := val;
    if val == 0 {
      ToBitsZero(bits);
      return Zeros(bits);
    }
    if val < 0 {
      var maxVal := Pow2(bits) - 1;
      n := maxVal + n + 1;
    }
    ghost var n0 := n;
    s := [];
    while n > 0
      invariant n0 <= 0 ==> s == [] && n == n0
      invariant n0 > 0 ==> n >= 0 && n0 == n * Pow2(|s|) + Unsigned(Reverse(s))
    {
      DigitStep(n, s);
      s := s + [BitOf(n % 2)];
      n := n / 2;
    }
    s := Reverse(s);
    if n0 <= 0 {
      if val == -Pow2(bits) {
        ToBitsZero(bits);
        DivModUnique(val, Pow2(bits), -1, 0);
      }
    } else {
      if val < 0 {
        DivModUnique(val, Pow2(bits), -1, n0);
        DivModUnique(n0, Pow2(bits), 0, n0);
      } else {
        assert n0 == val;
      }
      assert n0 % Pow2(bits) == val % Pow2(bits);
    }
    if |s| <= bits {
      if n0 > 0 {
        PadDigits(n0, s, bits);
      }
      return Zeros(bits - |s|) + s;
    }
    CutDigits(n0, s, bits);
    return s[|s| - bits..];
  }

  /** The digits `inbin` produces carry the value `val mod 2^bits`. */
  lemma BinaryOfValue(val: int, bits: nat)
    requires -Pow2(bits) <= val
    ensures Unsigned(BinaryOf(val, bits)) == val % Pow2(bits)
  {
    var x := val % Pow2(bits);
    UnsignedOfToBits(x, bits);
    DivModUnique(x, Pow2(bits), 0, x);
  }

  // ---------------------------------------------------------------------
  // Text helpers: str.strip, str.find and the digit classes.

  /** The ASCII characters `str.strip()` and `str.split()` treat as white space. */
  predicate IsSpace(c: char) {
    c == ' ' || c == '\t' || c == '\n' || c == '\r' || c == '\U{B}' || c == '\U{C}' || '\U{1C}' <= c <= '\U{1F}'
  }

  function TrimLeft(s: string): (r: string)
    ensures |r| <= |s| && r == s[|s| - |r|..]
    ensures r == [] || !IsSpace(r[0])
    ensures forall i :: 0 <= i < |s| - |r| ==> IsSpace(s[i])
  {
    if s != [] && IsSpace(s[0]) then TrimLeft(s[1..]) else s
  }

  function TrimRight(s: string): (r: string)
    ensures |r| <= |s| && r == s[..|r|]
    ensures r == [] || !IsSpace(r[|r| - 1])
    ensures forall i :: |r| <= i < |s| ==> IsSpace(s[i])
  {
    if s != [] && IsSpace(s[|s| - 1]) then TrimRight(s[..|s| - 1]) else s
  }

  /** `s.strip()`: the text without leading and trailing white space. */
  function Strip(s: string): (r: string)
    ensures r == [] || (!IsSpace(r[0]) && !IsSpace(r[|r| - 1]))
  {
    TrimRight(TrimLeft(s))
  }

  /** `strip()` only cuts white space: the result is a contiguous part of `s` with only white space around it. */
  lemma StripSlice(s: string)
    ensures exists i :: (0 <= i <= |s| && Strip(s) <= s[i..] &&
      (forall k :: 0 <= k < i ==> IsSpace(s[k])) &&
      (forall k :: i + |Strip(s)| <= k < |s| ==> IsSpace(s[k])))
  {
    var left := TrimLeft(s);
    var r := TrimRight(left);
    var i := |s| - |left|;
    assert r <= s[i..];
    forall k | i + |r| <= k < |s| ensures IsSpace(s[k]) { assert s[k] == left[k - i]; }
  }

  lemma StripUnchanged(s: string)
    requires forall i :: 0 <= i < |s| ==> !IsSpace(s[i])
    ensures Strip(s) == s
  {
  }

  /** `s.find(c)`: the index of the first `c`, or -1 when there is none. */
  function Find(s: string, c: char): (r: int)
    ensures -1 <= r < |s|
    ensures r == -1 <==> c !in s
    ensures r >= 0 ==> s[r] == c && c !in s[..r]
  {
    if s == [] then -1
    else if s[0] == c then 0
    else
      var k := Find(s[1..], c);
      assert s[1..][..k + 1] == s[1..k + 2] by {}
      if k == -1 then -1 else k + 1
  }

  predicate IsDecimalDigit(c: char) {
    '0' <= c <= '9'
  }

  /** The value of a digit character as Python's `int()` reads it (letters are 10 to 35). */
  function DigitValue(c: char): (v: int)
    ensures -1 <= v < 36
  {
    if '0' <= c <= '9' then (c - '0') as int
    else if 'a' <= c <= 'z' then (c - 'a') as int + 10
    else if 'A' <= c <= 'Z' then (c - 'A') as int + 10
    else -1
  }

  predicate AllDigits(s: string, base: nat) {
    forall i :: 0 <= i < |s| ==> 0 <= DigitValue(s[i]) < base
  }

  function DigitsValue(s: string, base: nat): (v: nat)
    requires AllDigits(s, base)
  {
    if s == [] then 0 else DigitsValue(s[..|s| - 1], base) * base + DigitValue(s[|s| - 1])
  }

  /** `int(s, base)` for a plain digit string: at least one digit, every one valid in `base`. */
  function ParseDigits(s: string, base: nat): (r: Option<nat>)
    ensures r.Some? <==> |s| > 0 && AllDigits(s, base)
  {
    if |s| > 0 && AllDigits(s, base) then Some(DigitsValue(s, base)) else None
  }

  /** True when `s` starts with "0" followed by `x` or its upper-case form `X`. */
  predicate HasPrefix(s: string, x: char, X: char) {
    |s| >= 2 && s[0] == '0' && (s[1] == x || s[1] == X)
  }

  /**
   * `Immediate(literal)`: an optional leading '-', then a `0x`, `0b` or `0o`
   * prefix selecting base 16, 2 or 8 (either case), or else decimal.
   */
  function Immediate(literal: string): (r: Result<int, ErrorKind>)
    ensures r.Err? ==> r.error == BadImmediate(literal)
  {
    var lit := Strip(literal);
    var negative := |lit| > 0 && lit[0] == '-';
    var sign := if negative then -1 else 1;
    var body := if negative then lit[1..] else lit;
    match ParseLiteral(body)
    case Some(v) => Ok(sign * v)
    case None => Err(BadImmediate(literal))
  }

  /** The unsigned part of a literal: the base its prefix selects, then `int(body, base)`. */
  function ParseLiteral(body: string): (r: Option<nat>)
  {
    if HasPrefix(body, 'x', 'X') then ParseDigits(body[2..], 16)
    else if HasPrefix(body, 'b', 'B') then ParseDigits(body[2..], 2)
    else if HasPrefix(body, 'o', 'O') then ParseDigits(body[2..], 8)
    else ParseDigits(body, 10)
  }

  /** A plain decimal literal reads as its value, and with a leading '-' as its negation. */
  lemma ImmediateDecimal(digits: string, v: nat)
    requires |digits| > 0 && AllDigits(digits, 10) && v == DigitsValue(digits, 10)
    ensures Immediate(digits) == Ok(v)
    ensures Immediate("-" + digits) == Ok(-(v as int))
  {
    DecimalLiteral(digits);
    SignedLiteral(digits, v);
  }

  lemma DecimalLiteral(digits: string)
    requires |digits| > 0 && AllDigits(digits, 10)
    ensures forall i :: 0 <= i < |digits| ==> !IsSpace(digits[i])
    ensures ParseLiteral(digits) == Some(DigitsValue(digits, 10))
    ensures Immediate(digits) == Ok(DigitsValue(digits, 10))
  {
    NoPrefix(digits);
    var v := DigitsValue(digits, 10);
    assert ParseLiteral(digits) == Some(v);
    PlainDigits(digits, 10);
    PlainLiteral(digits, digits, v);
  }

  /** A `0x`, `0b` or `0o` literal reads its digits in base 16, 2 or 8. */
  lemma ImmediatePrefixed(digits: string)
    requires |digits| > 0
    ensures AllDigits(digits, 16) ==> Immediate("0x" + digits) == Ok(DigitsValue(digits, 16))
    ensures AllDigits(digits, 2) ==> Immediate("0b" + digits) == Ok(DigitsValue(digits, 2))
    ensures AllDigits(digits, 8) ==> Immediate("0o" + digits) == Ok(DigitsValue(digits, 8))
  {
    if AllDigits(digits, 16) {
      PrefixedLiteral("0x" + digits, digits, 16);
    }
    if AllDigits(digits, 2) {
      PrefixedLiteral("0b" + digits, digits, 2);
    }
    if AllDigits(digits, 8) {
      PrefixedLiteral("0o" + digits, digits, 8);
    }
  }

  lemma PrefixedLiteral(literal: string, digits: string, base: nat)
    requires |digits| > 0 && AllDigits(digits, base)
    requires (base == 16 && literal == "0x" + digits) || (base == 2 && literal == "0b" + digits) ||
             (base == 8 && literal == "0o" + digits)
    ensures Immediate(literal) == Ok(DigitsValue(digits, base))
  {
    assert literal[2..] == digits;
    var v := DigitsValue(digits, base);
    assert ParseLiteral(literal) == Some(v);
    PlainDigits(digits, base);
    PlainLiteral(literal, digits, v);
  }

  /** A literal without blanks and without a sign is read by `ParseLiteral` alone. */
  lemma PlainLiteral(literal: string, digits: string, v: nat)
    requires forall i :: 0 <= i < |digits| ==> !IsSpace(digits[i]) && digits[i] != '-'
    requires digits != [] && (literal == digits || (|literal| == |digits| + 2 && literal[..2] in {"0x", "0b", "0o"} && literal[2..] == digits))
    requires ParseLiteral(literal) == Some(v)
    ensures Immediate(literal) == Ok(v)
  {
    if literal != digits {
      assert forall i :: 2 <= i < |literal| ==> literal[i] == digits[i - 2];
      assert literal[0] == '0' && !IsSpace(literal[1]);
    }
    StripUnchanged(literal);
  }

  /** A '-' followed by a blank-free literal reads as the literal's negated value. */
  lemma SignedLiteral(digits: string, v: nat)
    requires forall i :: 0 <= i < |digits| ==> !IsSpace(digits[i])
    requires ParseLiteral(digits) == Some(v)
    ensures Immediate("-" + digits) == Ok(-(v as int))
  {
    var neg := "-" + digits;
    DropSign(digits);
    StripUnchanged(neg);
  }

  /** Prepending '-' keeps a literal blank-free, and dropping it gives the literal back. */
  lemma DropSign(digits: string)
    requires forall i :: 0 <= i < |digits| ==> !IsSpace(digits[i])
    ensures ("-" + digits)[1..] == digits
    ensures forall i :: 0 <= i < |"-" + digits| ==> !IsSpace(("-" + digits)[i])
  {
    var neg := "-" + digits;
    forall i | 0 <= i < |neg|
      ensures !IsSpace(neg[i])
    {
      if i > 0 {
        assert neg[i] == digits[i - 1];
      }
    }
  }

  /** A decimal digit string starts with none of the base prefixes. */
  lemma NoPrefix(digits: string)
    requires AllDigits(digits, 10)
    ensures !HasPrefix(digits, 'x', 'X') && !HasPrefix(digits, 'b', 'B') && !HasPrefix(digits, 'o', 'O')
  {
    if |digits| >= 2 {
      assert 0 <= DigitValue(digits[1]) < 10;
    }
  }

  /** Digits are neither blanks nor the '-' sign. */
  lemma PlainDigits(digits: string, base: nat)
    requires AllDigits(digits, base)
    ensures forall i :: 0 <= i < |digits| ==> !IsSpace(digits[i]) && digits[i] != '-'
  {
  }

  /**
   * `_address(tar_mem)`: splits an `imm(reg)` operand at the first '(' and
   * the first ')'. A missing parenthesis, or a ')' before the '(', is an error.
   */
  function Address(tarMem: string): (r: Result<(string, string), ErrorKind>)
    ensures r.Err? <==> ('(' !in tarMem || ')' !in tarMem || Find(tarMem, ')') < Find(tarMem, '('))
  {
    var front := Find(tarMem, '(');
    var back := Find(tarMem, ')');
    if front == -1 || back == -1 || back < front then Err(MalformedMemory(tarMem))
    else Ok((Strip(tarMem[..front]), Strip(tarMem[front + 1..back])))
  }

  /** The operand `imm(reg)` splits back into its stripped parts when neither part holds a parenthesis. */
  lemma AddressOfOperand(imm: string, reg: string)
    requires '(' !in imm && ')' !in imm && '(' !in reg && ')' !in reg
    ensures Address(imm + "(" + reg + ")") == Ok((Strip(imm), Strip(reg)))
  {
    var s := imm + "(" + reg + ")";
    var front, back := |imm|, |imm| + 1 + |reg|;
    assert s[..front] == imm;
    assert s[..back] == imm + "(" + reg;
    assert s[front + 1..back] == reg;
    FindFirst(s, '(', front);
    FindFirst(s, ')', back);
  }

  /** `find` returns the position of the first occurrence. */
  lemma FindFirst(s: string, c: char, k: nat)
    requires k < |s| && s[k] == c && c !in s[..k]
    ensures Find(s, c) == k
  {
  }

  /** `reg_mem(reg_str)`: the register number of a register name. */
  function RegMem(regStr: string): (r: Result<RegIndex, ErrorKind>)
    ensures r.Ok? <==> Strip(regStr) in Registers
    ensures r.Ok? ==> r.value == Registers[Strip(regStr)]
    ensures r.Err? ==> r.error == UnknownRegister(Strip(regStr))
  {
    var name := Strip(regStr);
    if name in Registers then Ok(Registers[name]) else Err(UnknownRegister(name))
  }

  /** `is_numeric(s)`: the operand starts like a number, with '-' or a decimal digit. */
  function IsNumeric(s: string): (b: bool)
    ensures b <==> TrimLeft(s) != [] && (TrimLeft(s)[0] == '-' || IsDecimalDigit(TrimLeft(s)[0]))
  {
    var t := Strip(s);
    LeadingCharacterKept(TrimLeft(s));
    t != [] && (t[0] == '-' || IsDecimalDigit(t[0]))
  }

  /** Cutting trailing white space keeps a text's first character when that is not white space. */
  lemma LeadingCharacterKept(t: string)
    requires t == [] || !IsSpace(t[0])
    ensures TrimRight(t) == [] <==> t == []
    ensures t != [] ==> TrimRight(t)[0] == t[0]
  {
  }

  /**
   * Every literal `Immediate` accepts passes `is_numeric`, so a branch or
   * jump target that is read as a label name could not have been read as a
   * number. The converse fails: "-x" looks numeric but is no literal.
   */
  lemma ImmediateIsNumeric(literal: string)
    ensures Immediate(literal).Ok? ==> IsNumeric(literal)
  {
    var lit := Strip(literal);
    var negative := |lit| > 0 && lit[0] == '-';
    if Immediate(literal).Ok? && !negative {
      assert ParseLiteral(lit).Some?;
      if !HasPrefix(lit, 'x', 'X') && !HasPrefix(lit, 'b', 'B') && !HasPrefix(lit, 'o', 'O') {
        assert 0 <= DigitValue(lit[0]) < 10;
      }
    }
  }

  // ---------------------------------------------------------------------
  // The packers (Assembler.py, lines 113-144).

  function RCode(instr: string, rd: int, rs1: int, rs2: int): (w: Word)
    requires instr in RType
  {
    var info := RType[instr];
    info.funct7 + BinaryOf(rs2, 5) + BinaryOf(rs1, 5) + info.funct3 + BinaryOf(rd, 5) + info.opcode
  }

  function ICode(instr: string, rd: int, rs1: int, imm: int): (w: Word)
    requires instr in IType
  {
    var info := IType[instr];
    BinaryOf(imm, 12) + BinaryOf(rs1, 5) + info.funct3 + BinaryOf(rd, 5) + info.opcode
  }

  function SCode(instr: string, rs1: int, rs2: int, imm: int): (w: Word)
    requires instr in SType
  {
    var info := SType[instr];
    var immBin := BinaryOf(imm, 12);
    var immHigh := immBin[..7];
    var immLow := immBin[7..];
    immHigh + BinaryOf(rs2, 5) + BinaryOf(rs1, 5) + info.funct3 + immLow + info.opcode
  }

  function BCode(instr: string, rs1: int, rs2: int, offset: int): (r: Result<Word, ErrorKind>)
    requires instr in BType
    ensures r.Ok? <==> offset % 2 == 0
  {
    var info := BType[instr];
    if offset % 2 != 0 then Err(OddBranchOffset)
    else
      var immStr := BinaryOf(offset, 13);
      var w: Word := [immStr[0]] + immStr[2..8] + BinaryOf(rs2, 5) + BinaryOf(rs1, 5)
        + info.funct3 + immStr[8..12] + [immStr[1]] + info.opcode;
      Ok(w)
  }

  function JCode(rd: int, offset: int): (r: Result<Word, ErrorKind>)
    ensures r.Ok? <==> offset % 2 == 0
  {
    if offset % 2 != 0 then Err(OddJumpOffset)
    else
      var immStr := BinaryOf(offset, 21);
      var w: Word := [immStr[0]] + immStr[10..20] + [immStr[9]] + immStr[1..9] + BinaryOf(rd, 5) + JOpcode;
      Ok(w)
  }
}
