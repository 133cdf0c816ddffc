/**
 * What the simulator's handlers and loop do, stated about the functions of
 * module Simulator that the `Machine` methods are proved to follow.
 */
module SimulatorFacts {
  import opened Wrappers
  import opened BitString
  import opened BitOps
  import opened Simulator

  // ---------------------------------------------------------------------
  // The R-type operations.

  /** Digit-by-digit OR of two strings of the same length. */
  function BitOr(a: Bits, b: Bits): (r: Bits)
    requires |a| == |b|
    ensures |r| == |a|
    ensures forall i :: 0 <= i < |a| ==> (r[i] == '1' <==> a[i] == '1' || b[i] == '1')
  {
    seq(|a|, i requires 0 <= i < |a| => if a[i] == '1' || b[i] == '1' then '1' else '0')
  }

  /** Digit-by-digit AND of two strings of the same length. */
  function BitAnd(a: Bits, b: Bits): (r: Bits)
    requires |a| == |b|
    ensures |r| == |a|
    ensures forall i :: 0 <= i < |a| ==> (r[i] == '1' <==> a[i] == '1' && b[i] == '1')
  {
    seq(|a|, i requires 0 <= i < |a| => if a[i] == '1' && b[i] == '1' then '1' else '0')
  }

  lemma NatOrStep(x: nat, y: nat)
    ensures NatOr(x, y) == 2 * NatOr(x / 2, y / 2) + (if x % 2 == 1 || y % 2 == 1 then 1 else 0)
  {
    if x == 0 && y == 0 {
      assert NatOr(0, 0) == 0;
    }
  }

  lemma NatAndStep(x: nat, y: nat)
    ensures NatAnd(x, y) == 2 * NatAnd(x / 2, y / 2) + (if x % 2 == 1 && y % 2 == 1 then 1 else 0)
  {
    if x == 0 || y == 0 {
      assert NatAnd(x / 2, y / 2) == 0;
    }
  }

  /** The last digit and the digits before it, as a value. */
  lemma SplitLast(a: Bits)
    requires |a| > 0
    ensures Unsigned(a) / 2 == Unsigned(a[..|a| - 1])
    ensures Unsigned(a) % 2 == BitValue(a[|a| - 1])
  {
    DivModUnique(Unsigned(a), 2, Unsigned(a[..|a| - 1]), BitValue(a[|a| - 1]));
  }

  /** Python's `int(a, 2) | int(b, 2)`, written back with |a| digits, is the digit-by-digit OR. */
  lemma {:induction false} NatOrDigits(a: Bits, b: Bits)
    requires |a| == |b|
    ensures ToBits(NatOr(Unsigned(a), Unsigned(b)), |a|) == BitOr(a, b)
  {
    if |a| > 0 {
      var n := |a|;
      var a', b' := a[..n - 1], b[..n - 1];
      NatOrDigits(a', b');
      SplitLast(a);
      SplitLast(b);
      var x, y := Unsigned(a), Unsigned(b);
      NatOrStep(x, y);
      var v := NatOr(x, y);
      var bit := if x % 2 == 1 || y % 2 == 1 then 1 else 0;
      DivModUnique(v, 2, NatOr(x / 2, y / 2), bit);
      assert BitOr(a, b) == BitOr(a', b') + [BitOf(bit)];
    }
  }

  /** Python's `int(a, 2) & int(b, 2)`, written back with |a| digits, is the digit-by-digit AND. */
  lemma {:induction false} NatAndDigits(a: Bits, b: Bits)
    requires |a| == |b|
    ensures ToBits(NatAnd(Unsigned(a), Unsigned(b)), |a|) == BitAnd(a, b)
  {
    if |a| > 0 {
      var n := |a|;
      var a', b' := a[..n - 1], b[..n - 1];
      NatAndDigits(a', b');
      SplitLast(a);
      SplitLast(b);
      var x, y := Unsigned(a), Unsigned(b);
      NatAndStep(x, y);
      var v := NatAnd(x, y);
      var bit := if x % 2 == 1 && y % 2 == 1 then 1 else 0;
      DivModUnique(v, 2, NatAnd(x / 2, y / 2), bit);
      assert BitAnd(a, b) == BitAnd(a', b') + [BitOf(bit)];
    }
  }

  /** `or` and `and` are bitwise on the 32 digits. */
  lemma OrAndBitwise(val1: Word, val2: Word)
    ensures OrWords(val1, val2) == BitOr(val1, val2)
    ensures AndWords(val1, val2) == BitAnd(val1, val2)
  {
    NatOrDigits(val1, val2);
    NatAndDigits(val1, val2);
  }

  /** `srl` shifts the unsigned value of rs1 right by the low five bits of rs2. */
  lemma ShiftRightValue(val1: Word, val2: Word)
    ensures Unsigned(ShiftRightLogical(val1, val2)) == Unsigned(val1) / Pow2(Unsigned(val2) % 32)
  {
    UnsignedPrefix(val2, 27);
    assert Pow2(5) == 32;
    var x, p := Unsigned(val1), Pow2(Unsigned(val2[27..]));
    DivAtMost(x, p, x / p);
    FitsInWord(x / p);
  }

  lemma DivAtMost(x: nat, p: nat, q: int)
    requires p > 0 && q == x / p
    ensures 0 <= q <= x
  {
    if q > 0 {
      MulAtLeast(p, q);
    }
  }

  /** A value below 2^32 is written exactly by `format(v, '032b')`. */
  lemma FitsInWord(v: nat)
    requires v < Pow2(32)
    ensures Unsigned(ToBits(v, 32)) == v
  {
    UnsignedOfToBits(v, 32);
    DivModUnique(v, Pow2(32), 0, v);
  }

  lemma OneValue()
    ensures Unsigned(One) == 1 && Unsigned(ZeroWord) == 0
  {
    UnsignedAppend(Zeros(31), ['1']);
    ZerosValue(31);
    ZerosValue(32);
    assert ['1'][..0] == [];
  }

  /** funct3 '000' adds under funct7 '0000000' and subtracts under '0100000', both wrapping around 2^32. */
  lemma AddSubOperations(val1: Word, val2: Word)
    ensures AluResult("000", "0000000", val1, val2).Some?
    ensures Unsigned(AluResult("000", "0000000", val1, val2).value) == (Unsigned(val1) + Unsigned(val2)) % Pow2(32)
    ensures AluResult("000", "0100000", val1, val2).Some?
    ensures Unsigned(AluResult("000", "0100000", val1, val2).value) == (Unsigned(val1) - Unsigned(val2)) % Pow2(32)
  {
  }

  /** funct3 '101' is the logical right shift (whatever funct7 holds). */
  lemma ShiftOperation(funct7: Bits, val1: Word, val2: Word)
    ensures AluResult("101", funct7, val1, val2).Some?
    ensures Unsigned(AluResult("101", funct7, val1, val2).value) == Unsigned(val1) / Pow2(Unsigned(val2) % 32)
  {
    ShiftRightValue(val1, val2);
  }

  /** funct3 '010' writes one when rs1 is less than rs2 as signed numbers, zero otherwise. */
  lemma SetLessThanOperation(funct7: Bits, val1: Word, val2: Word)
    ensures AluResult("010", funct7, val1, val2).Some?
    ensures Unsigned(AluResult("010", funct7, val1, val2).value) == if ToDecimal(val1) < ToDecimal(val2) then 1 else 0
  {
    OneValue();
  }

  /** funct3 '110' and '111' are the digit-by-digit OR and AND. */
  lemma OrAndOperations(funct7: Bits, val1: Word, val2: Word)
    ensures AluResult("110", funct7, val1, val2).Some? && AluResult("110", funct7, val1, val2).value == BitOr(val1, val2)
    ensures AluResult("111", funct7, val1, val2).Some? && AluResult("111", funct7, val1, val2).value == BitAnd(val1, val2)
  {
    OrAndBitwise(val1, val2);
  }

  /** Only funct7 '0000000' and '0100000' select an operation under funct3 '000'; the other funct3 values do nothing. */
  lemma AluUnknown(funct3: Bits, funct7: Bits, val1: Word, val2: Word)
    ensures AluResult(funct3, funct7, val1, val2).None? <==>
      (funct3 == "000" && funct7 != "0000000" && funct7 != "0100000") ||
      (funct3 != "000" && funct3 != "101" && funct3 != "010" && funct3 != "110" && funct3 != "111")
  {
  }

  // ---------------------------------------------------------------------
  // Which handler a word goes to, and the PC moves of the straight-line handlers.

  predicate IsImmediateOpcode(opcode: Bits) {
    opcode == "0000011" || opcode == "0010011" || opcode == "1100111"
  }

  /** An opcode outside the dispatch table only moves the PC to the next word. */
  lemma UnknownOpcode(s: State, instr: Word)
    requires OpcodeOf(instr) !in {"0110011", "0000011", "0010011", "1100111", "0100011", "1100011", "1101111"}
    ensures Execute(s, instr).Ok?
    ensures Execute(s, instr).value.regs == s.regs && Execute(s, instr).value.mem == s.mem
    ensures Unsigned(Execute(s, instr).value.pc) == (Unsigned(s.pc) + 4) % Pow2(32)
  {
    NextPcValue(s.pc);
  }

  /** `instruction_map`: each opcode of the table reaches its handler. */
  lemma Dispatches(s: State, instr: Word)
    ensures OpcodeOf(instr) == "0110011" ==> Execute(s, instr) == Ok(Arithmetic(s, instr))
    ensures IsImmediateOpcode(OpcodeOf(instr)) ==> Execute(s, instr) == Immediate(s, instr)
    ensures OpcodeOf(instr) == "0100011" ==> Execute(s, instr) == Ok(Store(s, instr))
  {
    var opcode := OpcodeOf(instr);
    if opcode == "0110011" {
    } else if IsImmediateOpcode(opcode) {
    } else if opcode == "0100011" {
    }
  }

  /** `instruction_map`: the branch opcode reaches `execute_branch`. */
  lemma DispatchesBranch(s: State, instr: Word)
    ensures OpcodeOf(instr) == "1100011" ==> Execute(s, instr) == Ok(Branch(s, instr))
  {
  }

  /** `instruction_map`: the jal opcode reaches `execute_jump`. */
  lemma DispatchesJump(s: State, instr: Word)
    ensures OpcodeOf(instr) == "1101111" ==> Execute(s, instr) == Ok(Jump(s, instr))
  {
  }

  /** R-type, lw (when it does not fault), addi and sw move the PC on by four, wrapping at 2^32. */
  lemma StraightLineAdvances(s: State, instr: Word)
    ensures Unsigned(Arithmetic(s, instr).pc) == (Unsigned(s.pc) + 4) % Pow2(32)
    ensures Load(s, instr).Ok? ==> Unsigned(Load(s, instr).value.pc) == (Unsigned(s.pc) + 4) % Pow2(32)
    ensures Unsigned(AddImmediate(s, instr).pc) == (Unsigned(s.pc) + 4) % Pow2(32)
    ensures Unsigned(Store(s, instr).pc) == (Unsigned(s.pc) + 4) % Pow2(32)
  {
    NextPcValue(s.pc);
  }

  /** `execute_immediate` sends funct3 '010' to lw whatever the opcode, '000' with opcode 0010011 to addi, the rest to jalr. */
  lemma ImmediateSelects(s: State, instr: Word)
    ensures Funct3(instr) == "010" ==> Immediate(s, instr) == Load(s, instr)
    ensures Funct3(instr) == "000" && OpcodeOf(instr) == "0010011" ==> Immediate(s, instr) == Ok(AddImmediate(s, instr))
    ensures Funct3(instr) != "010" && !(Funct3(instr) == "000" && OpcodeOf(instr) == "0010011") ==>
      Immediate(s, instr) == Ok(JumpAndLinkRegister(s, instr))
  {
  }

  /** The R-type handler writes rd only, with the selected operation, and leaves memory alone. */
  lemma ArithmeticWrites(s: State, instr: Word)
    ensures var t := Arithmetic(s, instr);
      var result := AluResult(Funct3(instr), Funct7(instr), s.regs[Rs1(instr)], s.regs[Rs2(instr)]);
      t.mem == s.mem &&
      (forall i :: 0 <= i < 32 && i != Rd(instr) ==> t.regs[i] == s.regs[i]) &&
      t.regs[Rd(instr)] == (if result.Some? then result.value else s.regs[Rd(instr)])
  {
  }

  // ---------------------------------------------------------------------
  // Memory: lw and sw.

  /** The memory key `rs1 + sext(imm)` is the unsigned sum modulo 2^32. */
  lemma EffectiveAddressValue(base: Word, imm: Bits)
    requires 0 < |imm| <= 32
    ensures EffectiveAddress(base, imm) == (Unsigned(base) + ToDecimal(imm)) % Pow2(32)
  {
    var ext := Extend32(imm);
    AddSignedValue(base, ext, Unsigned(base) + ToDecimal(ext));
  }

  /** lw faults exactly when its address is not a key; otherwise rd gets the word there and nothing else changes but the PC. */
  lemma LoadReads(s: State, instr: Word)
    ensures var addr := (Unsigned(s.regs[Rs1(instr)]) + ToDecimal(ImmI(instr))) % Pow2(32);
      (Load(s, instr).Err? <==> addr !in s.mem) &&
      (Load(s, instr).Err? ==> Load(s, instr).error == LoadFault(addr)) &&
      (Load(s, instr).Ok? ==> Load(s, instr).value.regs == s.regs[Rd(instr) := s.mem[addr]] && Load(s, instr).value.mem == s.mem)
  {
    var a := EffectiveAddress(s.regs[Rs1(instr)], ImmI(instr));
    EffectiveAddressValue(s.regs[Rs1(instr)], ImmI(instr));
    if a in s.mem {
      assert Load(s, instr).Ok? && Load(s, instr).value.regs == s.regs[Rd(instr) := s.mem[a]];
    } else {
      assert Load(s, instr) == Err(LoadFault(a));
    }
  }

  /** sw writes rs2's word at `rs1 + sext(imm)`, adding the key when it is new, and changes no register. */
  lemma StoreWrites(s: State, instr: Word)
    ensures var addr := (Unsigned(s.regs[Rs1(instr)]) + ToDecimal(ImmS(instr))) % Pow2(32);
      Store(s, instr).mem == s.mem[addr := s.regs[Rs2(instr)]] && Store(s, instr).regs == s.regs
  {
    EffectiveAddressValue(s.regs[Rs1(instr)], ImmS(instr));
  }

  /** A lw from the address a sw has just written returns the word stored, wherever that address is. */
  lemma StoreThenLoad(s: State, sw: Word, lw: Word)
    requires EffectiveAddress(Store(s, sw).regs[Rs1(lw)], ImmI(lw)) == EffectiveAddress(s.regs[Rs1(sw)], ImmS(sw))
    ensures Load(Store(s, sw), lw).Ok?
    ensures Load(Store(s, sw), lw).value.regs[Rd(lw)] == s.regs[Rs2(sw)]
  {
  }

  /** Before any store, a lw succeeds only at an aligned address inside the data window. */
  lemma InitialLoad(s: State, instr: Word)
    requires s.mem == InitialMemory()
    ensures var addr := EffectiveAddress(s.regs[Rs1(instr)], ImmI(instr));
      Load(s, instr).Ok? <==> InWindow(addr) && addr % 4 == 0
  {
  }

  // ---------------------------------------------------------------------
  // Control flow: branches, jal and jalr.

  /** The target `(pc // 4 + off // 4) * 4` is always a multiple of four. */
  lemma JumpTargetAligned(pc: Word, offset: int)
    requires -Pow2(20) <= offset < Pow2(20)
    ensures Unsigned(JumpTarget(pc, offset)) % 4 == 0
  {
    var target := (ToDecimal(pc) / 4 + offset / 4) * 4;
    JumpTargetInRange(pc, offset, target);
    Pow2Word();
    ModOfMultiple(ToDecimal(pc) / 4 + offset / 4, 0x4000_0000);
  }

  lemma ModOfMultiple(k: int, q: int)
    requires q > 0
    ensures ((k * 4) % (q * 4)) % 4 == 0
  {
    var m := k % q;
    DivModUnique(k * 4, q * 4, k / q, m * 4);
    DivModUnique(m * 4, 4, m, 0);
  }

  /** From an aligned PC, an offset that is a multiple of four lands exactly `offset` bytes away, modulo 2^32. */
  lemma JumpTargetValue(pc: Word, offset: int)
    requires -Pow2(20) <= offset < Pow2(20)
    requires Unsigned(pc) % 4 == 0 && offset % 4 == 0
    ensures Unsigned(JumpTarget(pc, offset)) == (Unsigned(pc) + offset) % Pow2(32)
  {
    var target := (ToDecimal(pc) / 4 + offset / 4) * 4;
    JumpTargetInRange(pc, offset, target);
    Pow2Word();
    SignedCongruent(pc);
    AlignedSum(Unsigned(pc), ToDecimal(pc), SignWeight(pc), offset, target);
  }

  lemma AlignedSum(u: int, d: int, k: int, offset: int, target: int)
    requires u == d + k * 0x1_0000_0000 && u % 4 == 0 && offset % 4 == 0
    requires target == (d / 4 + offset / 4) * 4
    ensures target % 0x1_0000_0000 == (u + offset) % 0x1_0000_0000
  {
    var q := u / 4 - k * 0x4000_0000;
    assert k * 0x1_0000_0000 == 4 * (k * 0x4000_0000);
    assert d == q * 4;
    DivModUnique(d, 4, q, 0);
    DivModUnique(offset, 4, offset / 4, 0);
    assert target == d + offset;
    assert u + offset == (d + offset) + k * 0x1_0000_0000;
    ModShift(d + offset, k, 0x1_0000_0000);
  }

  /** A branch never writes a register or memory. */
  lemma BranchKeepsData(s: State, instr: Word)
    ensures Branch(s, instr).regs == s.regs && Branch(s, instr).mem == s.mem
  {
  }

  /**
   * An offset that is zero after the floor division by 4 never branches: with
   * both registers zero the PC stays (the halt idiom), otherwise it moves on by four.
   */
  lemma BranchZeroOffset(s: State, instr: Word)
    requires BranchOffset(instr) / 4 == 0
    ensures s.regs[Rs1(instr)] == ZeroWord && s.regs[Rs2(instr)] == ZeroWord ==> Branch(s, instr) == s
    ensures !(s.regs[Rs1(instr)] == ZeroWord && s.regs[Rs2(instr)] == ZeroWord) ==>
      Unsigned(Branch(s, instr).pc) == (Unsigned(s.pc) + 4) % Pow2(32)
  {
    NextPcValue(s.pc);
  }

  /**
   * With a non-zero offset, beq branches exactly when the two values are
   * equal and rs1 is not x0, bne exactly when they differ, and blt (or any
   * other funct3) never; not branching moves the PC on by four.
   */
  lemma BranchDecision(s: State, instr: Word)
    requires BranchOffset(instr) / 4 != 0
    ensures var taken :=
        (Funct3(instr) == "000" && s.regs[Rs1(instr)] == s.regs[Rs2(instr)] && Rs1(instr) != 0) ||
        (Funct3(instr) == "001" && s.regs[Rs1(instr)] != s.regs[Rs2(instr)]);
      Branch(s, instr).pc == if taken then JumpTarget(s.pc, BranchOffset(instr)) else NextPc(s.pc)
  {
  }

  /** blt, funct3 '100', is decoded but never taken. */
  lemma BltNeverTaken(s: State, instr: Word)
    requires Funct3(instr) == "100"
    ensures Branch(s, instr) == s || Branch(s, instr) == s.(pc := NextPc(s.pc))
  {
    NeitherBeqNorBne(Funct3(instr));
  }

  lemma NeitherBeqNorBne(funct3: Bits)
    requires funct3 == "100"
    ensures funct3 != "000" && funct3 != "001"
  {
    assert funct3[0] == '1';
  }

  /** jal: rd gets the address of the next word; memory is untouched. */
  lemma JumpLinks(s: State, instr: Word)
    ensures Jump(s, instr).regs == s.regs[Rd(instr) := NextPc(s.pc)] && Jump(s, instr).mem == s.mem
    ensures Unsigned(NextPc(s.pc)) == (Unsigned(s.pc) + 4) % Pow2(32)
  {
    NextPcValue(s.pc);
  }

  /** jal: the new PC is a multiple of four and, from an aligned PC and offset, exactly `offset` bytes away. */
  lemma JumpLands(s: State, instr: Word)
    ensures Unsigned(Jump(s, instr).pc) % 4 == 0
    ensures Unsigned(s.pc) % 4 == 0 && JumpOffset(instr) % 4 == 0 ==>
      Unsigned(Jump(s, instr).pc) == (Unsigned(s.pc) + JumpOffset(instr)) % Pow2(32)
  {
    LandsAt(s.pc, JumpOffset(instr));
  }

  /** The jump target with its last digit cleared, for any offset in range. */
  lemma LandsAt(pc: Word, offset: int)
    requires -Pow2(20) <= offset < Pow2(20)
    ensures Unsigned(ClearLowBit(JumpTarget(pc, offset))) % 4 == 0
    ensures Unsigned(pc) % 4 == 0 && offset % 4 == 0 ==>
      Unsigned(ClearLowBit(JumpTarget(pc, offset))) == (Unsigned(pc) + offset) % Pow2(32)
  {
    var target := JumpTarget(pc, offset);
    JumpTargetAligned(pc, offset);
    ClearAligned(target);
    if Unsigned(pc) % 4 == 0 && offset % 4 == 0 {
      JumpTargetValue(pc, offset);
    }
  }

  lemma ClearAligned(w: Word)
    requires Unsigned(w) % 4 == 0
    ensures Unsigned(ClearLowBit(w)) == Unsigned(w)
  {
    DivModUnique(Unsigned(w), 2, Unsigned(w) / 4 * 2, 0);
  }

  /**
   * jalr: the target is computed from rs1's value before rd is written (so
   * `jalr x1, x1, 0` still jumps to the old x1), its last digit is cleared,
   * rd gets the address of the next word, and x0 stays zero.
   */
  lemma JumpAndLinkRegisterLinks(s: State, instr: Word)
    ensures var target := (Unsigned(s.regs[Rs1(instr)]) + ToDecimal(ImmI(instr))) % Pow2(32);
      Unsigned(JumpAndLinkRegister(s, instr).pc) == target - target % 2
    ensures JumpAndLinkRegister(s, instr).regs[0] == ZeroWord
    ensures Rd(instr) != 0 ==> JumpAndLinkRegister(s, instr).regs[Rd(instr)] == NextPc(s.pc)
    ensures forall i :: 0 < i < 32 && i != Rd(instr) ==> JumpAndLinkRegister(s, instr).regs[i] == s.regs[i]
    ensures JumpAndLinkRegister(s, instr).mem == s.mem
  {
    JumpAndLinkRegisterTarget(s, instr);
    LinkedRegisters(s.regs, Rd(instr), NextPc(s.pc));
  }

  lemma JumpAndLinkRegisterTarget(s: State, instr: Word)
    ensures var target := (Unsigned(s.regs[Rs1(instr)]) + ToDecimal(ImmI(instr))) % Pow2(32);
      Unsigned(JumpAndLinkRegister(s, instr).pc) == target - target % 2
  {
    var base, imm := s.regs[Rs1(instr)], ImmI(instr);
    var sum := AddBinaryValues(base, Extend32(imm));
    assert JumpAndLinkRegister(s, instr).pc == ClearLowBit(sum);
    assert EffectiveAddress(base, imm) == Unsigned(sum);
    EffectiveAddressValue(base, imm);
  }

  /** What `ZeroX0` leaves of a register file in which `rd` was just written. */
  lemma LinkedRegisters(regs: RegFile, rd: nat, v: Word)
    requires rd < 32
    ensures ZeroX0(regs[rd := v])[0] == ZeroWord
    ensures rd != 0 ==> ZeroX0(regs[rd := v])[rd] == v
    ensures forall i :: 0 < i < 32 && i != rd ==> ZeroX0(regs[rd := v])[i] == regs[i]
  {
  }

  // ---------------------------------------------------------------------
  // The loop: fetch, execute, re-zero x0, trace, halt.

  /** A pass fails exactly when the fetch or the handler fails. */
  lemma CycleFails(s: State, program: seq<Word>)
    ensures Cycle(s, program).Err? <==>
      Fetch(program, s.pc).Err? || Execute(s, Fetch(program, s.pc).value).Err?
    ensures Fetch(program, s.pc).Err? ==> Cycle(s, program).error == Fetch(program, s.pc).error
  {
  }

  /**
   * A pass that succeeds leaves x0 zero, traces exactly the new PC and
   * registers, halts exactly when the fetched word is the halt word, and
   * otherwise keeps what the handler computed.
   */
  lemma CycleTraces(s: State, program: seq<Word>)
    requires Cycle(s, program).Ok?
    ensures var c := Cycle(s, program).value;
      var instr := Fetch(program, s.pc).value;
      var next := Execute(s, instr).value;
      c.state.regs[0] == ZeroWord &&
      c.line == TraceLine(c.state.pc, c.state.regs) &&
      (c.halted <==> instr == HaltWord) &&
      c.state.pc == next.pc && c.state.mem == next.mem &&
      (forall i :: 0 < i < 32 ==> c.state.regs[i] == next.regs[i])
  {
  }

  /** The halt word `beq x0, x0, 0`, field by field. */
  lemma HaltWordFields()
    ensures OpcodeOf(HaltWord) == "1100011"
    ensures Rs1(HaltWord) == 0 && Rs2(HaltWord) == 0 && Funct3(HaltWord) == "000"
    ensures BranchOffset(HaltWord) == 0
  {
    assert HaltWord[..25] == Zeros(25);
    ZeroPrefixFields(HaltWord);
  }

  /** A word whose first 25 digits are zero names x0 twice, has funct3 '000' and a zero B offset. */
  lemma ZeroPrefixFields(w: Word)
    requires w[..25] == Zeros(25)
    ensures Rs1(w) == 0 && Rs2(w) == 0 && Funct3(w) == "000"
    ensures BranchOffset(w) == 0
  {
    assert w[12..17] == Zeros(5);
    assert w[7..12] == Zeros(5);
    ZerosValue(5);
    assert ImmB(w) == Zeros(13);
    ZerosValue(13);
  }

  /** With x0 zero (as after every pass), executing the halt word changes nothing: the PC stays on it. */
  lemma HaltKeepsState(s: State)
    requires s.regs[0] == ZeroWord
    ensures Execute(s, HaltWord) == Ok(s)
  {
    HaltWordFields();
  }

  /** Reaching the halt word ends the run after one more trace line showing the unchanged state. */
  lemma SimulateAtHalt(s: State, program: seq<Word>, fuel: nat)
    requires fuel > 0 && s.regs[0] == ZeroWord
    requires Fetch(program, s.pc) == Ok(HaltWord)
    ensures Simulate(s, program, fuel) == RunResult(s, [TraceLine(s.pc, s.regs)], Halted)
  {
    HaltKeepsState(s);
    var regs := ZeroX0(s.regs);
    assert regs == s.regs;
  }

  /**
   * What holds of every run from a state with x0 zero: x0 reads zero in the
   * final state and in every trace line, there is at most one line per pass
   * of fuel and exactly `fuel` lines when the fuel runs out, the last line
   * shows the final PC and registers, and a run with no line ends where it began.
   */
  ghost predicate WellTraced(s: State, r: RunResult, fuel: nat) {
    r.state.regs[0] == ZeroWord &&
    (forall i :: 0 <= i < |r.trace| ==> r.trace[i].regs[0] == ZeroWord) &&
    |r.trace| <= fuel &&
    (r.stop == OutOfFuel ==> |r.trace| == fuel) &&
    (|r.trace| > 0 ==> r.trace[|r.trace| - 1] == TraceLine(r.state.pc, r.state.regs)) &&
    (|r.trace| == 0 ==> r.state == s)
  }

  lemma {:induction false} SimulateWellTraced(s: State, program: seq<Word>, fuel: nat)
    requires s.regs[0] == ZeroWord
    ensures WellTraced(s, Simulate(s, program, fuel), fuel)
    decreases fuel
  {
    if fuel > 0 && Cycle(s, program).Ok? {
      var c := Cycle(s, program).value;
      CycleLine(s, program, c);
      if !c.halted {
        var f: nat := fuel - 1;
        var rest := Simulate(c.state, program, f);
        SimulateWellTraced(c.state, program, f);
        SimulateUnfolds(s, program, f, c, rest);
        TracedCons(s, c, rest, f);
      }
    }
  }

  lemma CycleLine(s: State, program: seq<Word>, c: CycleResult)
    requires Cycle(s, program) == Ok(c)
    ensures c.state.regs[0] == ZeroWord && c.line == TraceLine(c.state.pc, c.state.regs)
  {
  }

  lemma SimulateUnfolds(s: State, program: seq<Word>, f: nat, c: CycleResult, rest: RunResult)
    requires Cycle(s, program) == Ok(c) && !c.halted
    requires rest == Simulate(c.state, program, f)
    ensures Simulate(s, program, f + 1) == RunResult(rest.state, [c.line] + rest.trace, rest.stop)
  {
  }

  lemma TracedCons(s: State, c: CycleResult, rest: RunResult, f: nat)
    requires c.state.regs[0] == ZeroWord && c.line == TraceLine(c.state.pc, c.state.regs)
    requires WellTraced(c.state, rest, f)
    ensures WellTraced(s, RunResult(rest.state, [c.line] + rest.trace, rest.stop), f + 1)
  {
    var t := [c.line] + rest.trace;
    assert forall i :: 0 < i < |t| ==> t[i] == rest.trace[i - 1];
  }

  // ---------------------------------------------------------------------
  // The initial machine.

  /**
   * The run starts at PC 0 with word 0 of the program (a fault on an empty
   * program), x0 zero, x2 = 380, and 32 zero words at 0x10000 + 4k.
   */
  lemma InitialState(program: seq<Word>)
    ensures Unsigned(Initial().pc) == 0 && Initial().regs[0] == ZeroWord
    ensures Unsigned(Initial().regs[2]) == 380
    ensures |program| > 0 ==> Fetch(program, Initial().pc) == Ok(program[0])
    ensures |program| == 0 ==> Fetch(program, Initial().pc) == Err(FetchFault(0))
    ensures forall a :: a in Initial().mem <==> exists k :: 0 <= k < 32 && a == WindowStart + 4 * k
  {
    ZerosValue(32);
    InitialFetch(program, Initial().pc);
    InitialKeys(Initial().mem);
  }

  lemma InitialFetch(program: seq<Word>, pc: Word)
    requires Unsigned(pc) == 0 && pc[0] == '0'
    ensures |program| > 0 ==> Fetch(program, pc) == Ok(program[0])
    ensures |program| == 0 ==> Fetch(program, pc) == Err(FetchFault(0))
  {
    assert ToDecimal(pc) == 0;
  }

  lemma InitialKeys(m: map<int, Word>)
    requires forall a :: a in m <==> InWindow(a) && a % 4 == 0
    ensures forall a :: a in m <==> exists k :: 0 <= k < 32 && a == WindowStart + 4 * k
  {
    forall a
      ensures a in m <==> exists k :: 0 <= k < 32 && a == WindowStart + 4 * k
    {
      if a in m {
        var k := (a - WindowStart) / 4;
        assert a == WindowStart + 4 * k;
      }
    }
  }
}
