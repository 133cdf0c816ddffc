/**
 * The contract the assembler and the simulator share: the bit layout of the
 * R, I, S, B and J formats (sections 2.2 and 2.3 of the RISC-V Unprivileged
 * ISA Specification, version 20191213). Each packer of Assembler.py puts
 * every field exactly where the simulator's slices of Simulator.py read it
 * back, and an immediate or offset in range comes back with its value. A
 * branch or jump to a label therefore lands on the label.
 */
module FormatContract {
  import opened Wrappers
  import opened BitString
  import opened BitOps
  import opened Encoder
  import opened Assembler
  import opened Simulator
  import opened SimulatorFacts

  // ---------------------------------------------------------------------
  // inbin against to_binary and to_decimal.

  /** For values `to_binary` accepts, `inbin` and `to_binary` write the same digits. */
  lemma BinaryOfIsToBinary(v: int, b: nat)
    requires -Pow2(b) <= v < Pow2(b)
    ensures BinaryOf(v, b) == ToBinary(v, b)
  {
    BinaryOfValue(v, b);
    UnsignedInjective(BinaryOf(v, b), ToBinary(v, b));
  }

  /** Decoding `inbin(v, b)` as two's complement gives back `v` when it fits in `b` signed bits. */
  lemma BinaryOfRoundTrip(v: int, b: nat)
    requires b > 0 && -Pow2(b - 1) <= v < Pow2(b - 1)
    ensures ToDecimal(BinaryOf(v, b)) == v
  {
    assert Pow2(b) == 2 * Pow2(b - 1);
    BinaryOfIsToBinary(v, b);
    ToDecimalOfToBinary(v, b);
  }

  /** `inbin(0, b)` is `b` zeros. */
  lemma BinaryOfZero(b: nat)
    ensures BinaryOf(0, b) == Zeros(b)
  {
    ToBitsZero(b);
    DivModUnique(0, Pow2(b), 0, 0);
  }

  /** A register number written in five digits reads back as that register. */
  lemma RegisterField(r: RegIndex)
    ensures Register(BinaryOf(r, 5)) == r
  {
    assert Pow2(5) == 32;
    BinaryOfValue(r, 5);
    DivModUnique(r, 32, 0, r);
  }

  /** An even value leaves the last of its digits zero. */
  lemma EvenLastDigit(v: int, b: nat)
    requires b > 0 && -Pow2(b) <= v && v % 2 == 0
    ensures BinaryOf(v, b)[b - 1] == '0'
  {
    var s := BinaryOf(v, b);
    BinaryOfValue(v, b);
    assert Unsigned(s) == 2 * Unsigned(s[..b - 1]) + BitValue(s[b - 1]);
    var p := Pow2(b - 1);
    assert Pow2(b) == 2 * p;
    ParityOfMod(v, p);
    DivModUnique(v % (2 * p), 2, Unsigned(s[..b - 1]), BitValue(s[b - 1]));
  }

  lemma ParityOfMod(v: int, p: int)
    requires p > 0
    ensures (v % (2 * p)) % 2 == v % 2
  {
    var q, m := v / (2 * p), v % (2 * p);
    MulShift(q, p);
    assert v == 2 * (q * p) + m;
    DivModUnique(v, 2, q * p + m / 2, m % 2);
  }

  // ---------------------------------------------------------------------
  // The five formats, field by field.

  /** The pieces of a word packed from five fields, cut out again. */
  lemma Five<T>(a: seq<T>, b: seq<T>, c: seq<T>, d: seq<T>, e: seq<T>)
    ensures var w, i1 := a + b + c + d + e, |a|;
      var i2 := i1 + |b|;
      var i3 := i2 + |c|;
      var i4 := i3 + |d|;
      w[..i1] == a && w[i1..i2] == b && w[i2..i3] == c && w[i3..i4] == d && w[i4..] == e
  {
  }

  /** The pieces of a word packed from six fields, cut out again. */
  lemma Six<T>(a: seq<T>, b: seq<T>, c: seq<T>, d: seq<T>, e: seq<T>, f: seq<T>)
    ensures var w, i1 := a + b + c + d + e + f, |a|;
      var i2 := i1 + |b|;
      var i3 := i2 + |c|;
      var i4 := i3 + |d|;
      var i5 := i4 + |e|;
      w[..i1] == a && w[i1..i2] == b && w[i2..i3] == c && w[i3..i4] == d && w[i4..i5] == e && w[i5..] == f
  {
    var v := a + b + c + d + e;
    Five(a, b, c, d, e);
    var i1 := |a|;
    var i2 := i1 + |b|;
    var i3 := i2 + |c|;
    var i4 := i3 + |d|;
    InPrefixTake(v, f, i1);
    InPrefix(v, f, i1, i2);
    InPrefix(v, f, i2, i3);
    InPrefix(v, f, i3, i4);
    InPrefix(v, f, i4, |v|);
    assert (v + f)[|v|..] == f;
  }

  /** Cutting a concatenation inside its first part. */
  lemma InPrefix<T>(v: seq<T>, f: seq<T>, x: int, y: int)
    requires 0 <= x <= y <= |v|
    ensures (v + f)[x..y] == v[x..y]
  {
  }

  lemma InPrefixTake<T>(v: seq<T>, f: seq<T>, y: int)
    requires 0 <= y <= |v|
    ensures (v + f)[..y] == v[..y]
  {
  }

  /** The pieces of a word packed from eight fields, cut out again. */
  lemma Eight<T>(a: seq<T>, b: seq<T>, c: seq<T>, d: seq<T>, e: seq<T>, f: seq<T>, g: seq<T>, h: seq<T>)
    ensures var w, i1 := a + b + c + d + e + f + g + h, |a|;
      var i2 := i1 + |b|;
      var i3 := i2 + |c|;
      var i4 := i3 + |d|;
      var i5 := i4 + |e|;
      var i6 := i5 + |f|;
      var i7 := i6 + |g|;
      w[..i1] == a && w[i1..i2] == b && w[i2..i3] == c && w[i3..i4] == d && w[i4..i5] == e &&
      w[i5..i6] == f && w[i6..i7] == g && w[i7..] == h
  {
  }

  /** The 13 digits of a branch offset, in the groups B_code scatters. */
  lemma GroupsB<T>(i: seq<T>)
    requires |i| == 13
    ensures i == [i[0]] + [i[1]] + i[2..8] + i[8..12] + [i[12]]
  {
  }

  /** The 21 digits of a jump offset, in the groups J_code scatters. */
  lemma GroupsJ<T>(i: seq<T>)
    requires |i| == 21
    ensures i == [i[0]] + i[1..9] + [i[9]] + i[10..20] + [i[20]]
  {
  }

  /** R-type: funct7 [0:7], rs2 [7:12], rs1 [12:17], funct3 [17:20], rd [20:25], opcode [25:32]. */
  lemma RCodeFields(instr: string, rd: RegIndex, rs1: RegIndex, rs2: RegIndex)
    requires instr in RType
    ensures var w := RCode(instr, rd, rs1, rs2);
      Rd(w) == rd && Rs1(w) == rs1 && Rs2(w) == rs2 && Simulator.Funct7(w) == RType[instr].funct7 &&
      Simulator.Funct3(w) == RType[instr].funct3 && OpcodeOf(w) == RType[instr].opcode
  {
    var info := RType[instr];
    Six(info.funct7, BinaryOf(rs2, 5), BinaryOf(rs1, 5), info.funct3, BinaryOf(rd, 5), info.opcode);
    RegisterField(rd);
    RegisterField(rs1);
    RegisterField(rs2);
  }

  /** I-type: the 12-digit immediate [0:12] in place of funct7 and rs2. */
  lemma ICodeFields(instr: string, rd: RegIndex, rs1: RegIndex, imm: int)
    requires instr in IType
    ensures var w := ICode(instr, rd, rs1, imm);
      ImmI(w) == BinaryOf(imm, 12) && Rd(w) == rd && Rs1(w) == rs1 &&
      Simulator.Funct3(w) == IType[instr].funct3 && OpcodeOf(w) == IType[instr].opcode
  {
    var info := IType[instr];
    Five(BinaryOf(imm, 12), BinaryOf(rs1, 5), info.funct3, BinaryOf(rd, 5), info.opcode);
    RegisterField(rd);
    RegisterField(rs1);
  }

  /** S-type: the immediate split into [0:7] and [20:25] is joined back by the simulator. */
  lemma SCodeFields(instr: string, rs1: RegIndex, rs2: RegIndex, imm: int)
    requires instr in SType
    ensures var w := SCode(instr, rs1, rs2, imm);
      ImmS(w) == BinaryOf(imm, 12) && Rs1(w) == rs1 && Rs2(w) == rs2 &&
      Simulator.Funct3(w) == SType[instr].funct3 && OpcodeOf(w) == SType[instr].opcode
  {
    var info := SType[instr];
    var immBin := BinaryOf(imm, 12);
    Six(immBin[..7], BinaryOf(rs2, 5), BinaryOf(rs1, 5), info.funct3, immBin[7..], info.opcode);
    assert immBin[..7] + immBin[7..] == immBin;
    RegisterField(rs1);
    RegisterField(rs2);
  }

  /** B-type: gathering the scattered offset digits gives back `inbin(offset, 13)`; odd offsets are refused. */
  lemma BCodeFields(instr: string, rs1: RegIndex, rs2: RegIndex, offset: int)
    requires instr in BType
    ensures BCode(instr, rs1, rs2, offset).Ok? <==> offset % 2 == 0
    ensures offset % 2 == 0 ==>
      var w := BCode(instr, rs1, rs2, offset).value;
      ImmB(w) == BinaryOf(offset, 13) && Rs1(w) == rs1 && Rs2(w) == rs2 &&
      Simulator.Funct3(w) == BType[instr].funct3 && OpcodeOf(w) == BType[instr].opcode
  {
    if offset % 2 == 0 {
      var info := BType[instr];
      var i := BinaryOf(offset, 13);
      Eight([i[0]], i[2..8], BinaryOf(rs2, 5), BinaryOf(rs1, 5), info.funct3, i[8..12], [i[1]], info.opcode);
      if -Pow2(13) <= offset {
        EvenLastDigit(offset, 13);
      } else {
        assert i == Zeros(13);
      }
      GroupsB(i);
      RegisterField(rs1);
      RegisterField(rs2);
    }
  }

  /** J-type: gathering the scattered offset digits gives back `inbin(offset, 21)`; odd offsets are refused. */
  lemma JCodeFields(rd: RegIndex, offset: int)
    ensures JCode(rd, offset).Ok? <==> offset % 2 == 0
    ensures offset % 2 == 0 ==>
      var w := JCode(rd, offset).value;
      ImmJ(w) == BinaryOf(offset, 21) && Rd(w) == rd && OpcodeOf(w) == JOpcode
  {
    if offset % 2 == 0 {
      var i := BinaryOf(offset, 21);
      Six([i[0]], i[10..20], [i[9]], i[1..9], BinaryOf(rd, 5), JOpcode);
      if -Pow2(21) <= offset {
        EvenLastDigit(offset, 21);
      } else {
        assert i == Zeros(21);
      }
      GroupsJ(i);
      RegisterField(rd);
    }
  }

  // ---------------------------------------------------------------------
  // Values that come back.

  /** An I-type immediate in [-2048, 2048) is read back with its value. */
  lemma ImmediateRoundTrip(instr: string, rd: RegIndex, rs1: RegIndex, imm: int)
    requires instr in IType && -2048 <= imm < 2048
    ensures ToDecimal(Extend32(ImmI(ICode(instr, rd, rs1, imm)))) == imm
  {
    assert Pow2(11) == 2048;
    ICodeFields(instr, rd, rs1, imm);
    BinaryOfRoundTrip(imm, 12);
  }

  /** An S-type immediate in [-2048, 2048) is read back with its value. */
  lemma StoreOffsetRoundTrip(instr: string, rs1: RegIndex, rs2: RegIndex, imm: int)
    requires instr in SType && -2048 <= imm < 2048
    ensures ToDecimal(Extend32(ImmS(SCode(instr, rs1, rs2, imm)))) == imm
  {
    assert Pow2(11) == 2048;
    SCodeFields(instr, rs1, rs2, imm);
    BinaryOfRoundTrip(imm, 12);
  }

  /** An even branch offset in [-4096, 4096) is the offset the simulator reads. */
  lemma BranchOffsetRoundTrip(instr: string, rs1: RegIndex, rs2: RegIndex, offset: int)
    requires instr in BType && offset % 2 == 0 && -4096 <= offset < 4096
    ensures BCode(instr, rs1, rs2, offset).Ok?
    ensures BranchOffset(BCode(instr, rs1, rs2, offset).value) == offset
  {
    assert Pow2(12) == 4096;
    BCodeFields(instr, rs1, rs2, offset);
    BinaryOfRoundTrip(offset, 13);
  }

  /** An even jump offset in [-2^20, 2^20) is the offset the simulator reads. */
  lemma JumpOffsetRoundTrip(rd: RegIndex, offset: int)
    requires offset % 2 == 0 && -Pow2(20) <= offset < Pow2(20)
    ensures JCode(rd, offset).Ok?
    ensures JumpOffset(JCode(rd, offset).value) == offset
  {
    JCodeFields(rd, offset);
    BinaryOfRoundTrip(offset, 21);
  }

  /** The simulator's halt word is what the assembler makes of `beq x0, x0, 0`. */
  lemma HaltIsBranchToSelf()
    ensures BCode("beq", 0, 0, 0) == Ok(HaltWord)
  {
    BinaryOfZero(13);
    BinaryOfZero(5);
    ZeroFields(Zeros(13), Zeros(5));
    HaltWordSplit();
  }

  /** With every field zero, all but the opcode of a B-type word is zero. */
  lemma ZeroFields(i: Bits, z: Bits)
    requires i == Zeros(13) && z == Zeros(5)
    ensures [i[0]] + i[2..8] + z + z + "000" + i[8..12] + [i[1]] == Zeros(25)
  {
    var pre := [i[0]] + i[2..8] + z + z + "000" + i[8..12] + [i[1]];
    assert forall k :: 0 <= k < |pre| ==> pre[k] == '0';
  }

  lemma HaltWordSplit()
    ensures HaltWord == Zeros(25) + "1100011"
  {
    assert HaltWord[..25] == Zeros(25);
    assert HaltWord[25..] == "1100011";
    assert HaltWord == HaltWord[..25] + HaltWord[25..];
  }

  // ---------------------------------------------------------------------
  // Assembled words in the simulator.

  /** The simulator has a handler for the opcode of every word the assembler emits. */
  lemma EncodedOpcodeHandled(tok: seq<string>, addr: int, labels: map<string, int>, w: Word)
    requires tok != [] && Encode(tok, addr, labels) == Ok(w)
    ensures HandledOpcode(OpcodeOf(w))
  {
    OpcodeHandledOf(tok[0], w);
  }

  lemma OpcodeHandledOf(op: string, w: Word)
    requires Known(op) && w[25..] == OpcodeFor(op)
    ensures HandledOpcode(OpcodeOf(w))
  {
    OpcodeForHandled(op);
  }

  /** The opcodes `instruction_map` has a handler for. */
  predicate HandledOpcode(op: Bits) {
    op == "0110011" || op == "0000011" || op == "0010011" || op == "1100111" ||
    op == "0100011" || op == "1100011" || op == "1101111"
  }

  lemma OpcodeForHandled(op: string)
    requires Known(op)
    ensures HandledOpcode(OpcodeFor(op))
  {
  }

  /** The offset a branch to a label carries is the label's address minus the branch's own. */
  lemma BranchToLabel(tok: seq<string>, addr: int, labels: map<string, int>, w: Word)
    requires |tok| == 4 && tok[0] in BType
    requires !IsNumeric(tok[3]) && tok[3] in labels && -4096 <= labels[tok[3]] - addr < 4096
    requires Encode(tok, addr, labels) == Ok(w)
    ensures BranchOffset(w) == labels[tok[3]] - addr
  {
    EncodedBranch(tok, addr, labels, w);
    BranchWordOffset(tok[0], RegMem(tok[1]).value, RegMem(tok[2]).value, Resolve(tok[3], addr, labels).value, w);
  }

  /** The offset read back from a packed branch word, given only that packing succeeded. */
  lemma BranchWordOffset(instr: string, rs1: RegIndex, rs2: RegIndex, offset: int, w: Word)
    requires instr in BType && -4096 <= offset < 4096 && BCode(instr, rs1, rs2, offset) == Ok(w)
    ensures BranchOffset(w) == offset
  {
    BCodeFields(instr, rs1, rs2, offset);
    BranchOffsetRoundTrip(instr, rs1, rs2, offset);
  }

  /** The offset a jal to a label carries is the label's address minus the jump's own. */
  lemma JumpToLabel(tok: seq<string>, addr: int, labels: map<string, int>, w: Word)
    requires |tok| == 3 && tok[0] == "jal"
    requires !IsNumeric(tok[2]) && tok[2] in labels && -Pow2(20) <= labels[tok[2]] - addr < Pow2(20)
    requires Encode(tok, addr, labels) == Ok(w)
    ensures JumpOffset(w) == labels[tok[2]] - addr
  {
    EncodedJump(tok, addr, labels, w);
    JumpWordOffset(RegMem(tok[1]).value, Resolve(tok[2], addr, labels).value, w);
  }

  /** The offset read back from a packed jal word, given only that packing succeeded. */
  lemma JumpWordOffset(rd: RegIndex, offset: int, w: Word)
    requires -Pow2(20) <= offset < Pow2(20) && JCode(rd, offset) == Ok(w)
    ensures JumpOffset(w) == offset
  {
    JCodeFields(rd, offset);
    JumpOffsetRoundTrip(rd, offset);
  }

  /**
   * A jal whose offset is the distance from an aligned PC to an aligned
   * target moves the PC to that target.
   */
  lemma JumpLandsOnTarget(s: State, w: Word, target: int)
    requires JumpOffset(w) == target - Unsigned(s.pc) && Unsigned(s.pc) % 4 == 0 && target % 4 == 0
    ensures Unsigned(Jump(s, w).pc) == target % Pow2(32)
  {
    var t := JumpTarget(s.pc, JumpOffset(w));
    OffsetLands(s.pc, target, JumpOffset(w));
    JumpTargetAligned(s.pc, JumpOffset(w));
    ClearAligned(t);
    assert Jump(s, w).pc == ClearLowBit(t);
  }

  /**
   * A taken branch whose offset is the distance from an aligned PC to an
   * aligned target moves the PC to that target.
   */
  lemma BranchLandsOnTarget(s: State, w: Word, target: int)
    requires BranchOffset(w) == target - Unsigned(s.pc) && Unsigned(s.pc) % 4 == 0 && target % 4 == 0
    requires BranchOffset(w) / 4 != 0
    requires (Simulator.Funct3(w) == "000" && s.regs[Rs1(w)] == s.regs[Rs2(w)] && Rs1(w) != 0) ||
      (Simulator.Funct3(w) == "001" && s.regs[Rs1(w)] != s.regs[Rs2(w)])
    ensures Unsigned(Branch(s, w).pc) == target % Pow2(32)
  {
    BranchDecision(s, w);
    OffsetLands(s.pc, target, BranchOffset(w));
  }

  /** From an aligned PC, the offset to an aligned target reaches that target. */
  lemma OffsetLands(pc: Word, target: int, offset: int)
    requires -Pow2(20) <= offset < Pow2(20)
    requires offset == target - Unsigned(pc) && Unsigned(pc) % 4 == 0 && target % 4 == 0
    ensures Unsigned(JumpTarget(pc, offset)) == target % Pow2(32)
  {
    AlignedDifference(Unsigned(pc), target);
    JumpTargetValue(pc, offset);
  }

  lemma AlignedDifference(a: int, t: int)
    requires a % 4 == 0 && t % 4 == 0
    ensures (t - a) % 4 == 0
  {
    var qa, qt := a / 4, t / 4;
    assert a == 4 * qa && t == 4 * qt;
    DivModUnique(t - a, 4, qt - qa, 0);
  }
}
