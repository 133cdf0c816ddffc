/**
 * The simulator (Simulator.py): a register file of 32 words, a word memory
 * keyed by byte address, and the PC; one execute handler per instruction
 * format; and the fetch / dispatch / re-zero x0 / trace / halt loop.
 *
 * Each handler is given twice: as a function from the old machine state to
 * the new one (the specification the lemmas below are about), and as a
 * method of class `Machine` that updates the fields in place the way the
 * Python handler assigns into `cpu_registers`, `memory_space` and
 * `program_counter`, proved to agree with that function.
 */
module Simulator {
  import opened Wrappers
  import opened BitString
  import opened BitOps

  type RegFile = r: seq<Word> | |r| == 32 witness ZeroRegisters()

  function ZeroRegisters(): (r: seq<Word>)
    ensures |r| == 32 && forall i :: 0 <= i < 32 ==> r[i] == ZeroWord
  {
    seq(32, _ => ZeroWord)
  }

  const ZeroWord: Word := Zeros(32)

  /** `cpu_registers['x0'] = '0' * 32`: x0 is forced back to zero. */
  function ZeroX0(regs: RegFile): RegFile {
    regs[0 := ZeroWord]
  }
  /** The literal '00000000000000000000000000000100' the handlers add to the PC. */
  const Four: Word := ToBits(4, 32)
  /** The SLT result '0' * 31 + '1'. */
  const One: Word := Zeros(31) + ['1']
  /** The halt word: `beq x0, x0, 0`. */
  const HaltWord: Word := "00000000000000000000000001100011"

  /** The data window the memory is created with and that the final dump shows. */
  const WindowStart := 0x10000
  const WindowEnd := 0x1007C

  predicate InWindow(addr: int) {
    WindowStart <= addr <= WindowEnd
  }

  datatype State = State(regs: RegFile, mem: map<int, Word>, pc: Word)

  /** The two ways a run stops abnormally: Python raises and the run ends. */
  datatype Fault =
    | LoadFault(address: int)   // KeyError in `memory_space[addr_hex]`
    | FetchFault(index: int)    // IndexError in `program[pc // 4]`

  /** One line of the trace: the PC after the step, then every register. */
  datatype TraceLine = TraceLine(pc: Word, regs: RegFile)

  // ---------------------------------------------------------------------
  // Initial state (Simulator.py, lines 3-16).

  /** 32 zero words at 0x10000, 0x10004, ..., 0x1007C. */
  function InitialMemory(): (m: map<int, Word>)
    ensures forall a :: a in m <==> InWindow(a) && a % 4 == 0
    ensures forall a :: a in m ==> m[a] == ZeroWord
  {
    map a | WindowStart <= a <= WindowEnd && a % 4 == 0 :: ZeroWord
  }

  /** Every register is zero except x2, the stack pointer, which holds 380. */
  function InitialRegisters(): (r: RegFile)
    ensures Unsigned(r[2]) == 380
    ensures forall i :: 0 <= i < 32 && i != 2 ==> r[i] == ZeroWord
  {
    assert Pow2(9) == 512;
    Pow2Monotone(9, 32);
    UnsignedOfToBits(380, 32);
    DivModUnique(380, Pow2(32), 0, 380);
    ZeroRegisters()[2 := StackTop]
  }

  /** The value `format(380, '032b')` the stack pointer starts with. */
  const StackTop: Word := ToBits(380, 32)

  function Initial(): State {
    State(InitialRegisters(), InitialMemory(), ZeroWord)
  }

  // ---------------------------------------------------------------------
  // Instruction fields. Python's negative slices (`instr[-12:-7]` and so on)
  // name the same digits of a 32-digit word as these positive ones.

  /** The register a 5-digit field names. */
  function Register(field: Bits): (i: nat)
    requires |field| == 5
    ensures i < 32
  {
    assert Pow2(5) == 32;
    Unsigned(field)
  }

  function Rd(instr: Word): nat { Register(instr[20..25]) }
  function Rs1(instr: Word): nat { Register(instr[12..17]) }
  function Rs2(instr: Word): nat { Register(instr[7..12]) }
  function Funct3(instr: Word): Bits { instr[17..20] }
  function Funct7(instr: Word): Bits { instr[0..7] }
  function OpcodeOf(instr: Word): Bits { instr[25..32] }

  /** A field sign-extended to a full word. */
  function Extend32(imm: Bits): (w: Word)
    requires 0 < |imm| <= 32
    ensures ToDecimal(w) == ToDecimal(imm)
  {
    BitExtendSigned(imm, 32)
  }

  /** The memory key `rs1 + sext(imm)` that loads and stores use. */
  function EffectiveAddress(base: Word, imm: Bits): (a: int)
    requires 0 < |imm| <= 32
    ensures 0 <= a < Pow2(32)
  {
    Unsigned(AddBinaryValues(base, Extend32(imm)))
  }

  /** The I-type immediate `instr[0:12]`. */
  function ImmI(instr: Word): Bits { instr[0..12] }

  /** The S-type immediate `instr[0:7] + instr[20:25]`. */
  function ImmS(instr: Word): Bits { instr[0..7] + instr[20..25] }

  /** The B-type immediate gathered into 13 digits (Simulator.py, line 151). */
  function ImmB(instr: Word): (r: Bits)
    ensures |r| == 13
  {
    [instr[0]] + [instr[24]] + instr[1..7] + instr[20..24] + ['0']
  }

  /** The J-type immediate gathered into 21 digits (Simulator.py, line 184). */
  function ImmJ(instr: Word): (r: Bits)
    ensures |r| == 21
  {
    [instr[0]] + instr[12..20] + [instr[11]] + instr[1..11] + ['0']
  }

  /**
   * The PC a taken branch or a jump computes: the signed PC and the signed
   * offset are each floor-divided by 4, added, and multiplied by 4 again.
   */
  function JumpTarget(pc: Word, offset: int): (r: Word)
    requires -Pow2(20) <= offset < Pow2(20)
  {
    var target := (ToDecimal(pc) / 4 + offset / 4) * 4;
    JumpTargetInRange(pc, offset, target);
    ToBinary(target, 32)
  }

  lemma JumpTargetInRange(pc: Word, offset: int, target: int)
    requires -Pow2(20) <= offset < Pow2(20)
    requires target == (ToDecimal(pc) / 4 + offset / 4) * 4
    ensures -Pow2(32) <= target < Pow2(32)
  {
    Pow2Word();
    assert Pow2(20) == 0x10_0000;
  }

  // ---------------------------------------------------------------------
  // Integer operations of the R-type handler.

  /** Python's `x | y` on non-negative integers, digit by digit. */
  function NatOr(x: nat, y: nat): nat
    decreases x + y
  {
    if x == 0 && y == 0 then 0
    else 2 * NatOr(x / 2, y / 2) + (if x % 2 == 1 || y % 2 == 1 then 1 else 0)
  }

  /** Python's `x & y` on non-negative integers, digit by digit. */
  function NatAnd(x: nat, y: nat): nat
    decreases x + y
  {
    if x == 0 || y == 0 then 0
    else 2 * NatAnd(x / 2, y / 2) + (if x % 2 == 1 && y % 2 == 1 then 1 else 0)
  }

  /** SRL: `int(val1, 2) >> int(val2[-5:], 2)` written back as 32 digits. */
  function ShiftRightLogical(val1: Word, val2: Word): Word {
    ToBits(Unsigned(val1) / Pow2(Unsigned(val2[27..])), 32)
  }

  /** SLT: one when `val1 < val2` as signed numbers, else zero. */
  function SetLessThan(val1: Word, val2: Word): Word {
    if ToDecimal(val1) < ToDecimal(val2) then One else ZeroWord
  }

  function OrWords(val1: Word, val2: Word): Word {
    ToBits(NatOr(Unsigned(val1), Unsigned(val2)), 32)
  }

  function AndWords(val1: Word, val2: Word): Word {
    ToBits(NatAnd(Unsigned(val1), Unsigned(val2)), 32)
  }

  /**
   * The PC of the next word, `add_binary_values(program_counter, '0...0100')`:
   * the digits above the two lowest go up by one (see `NextPcAddsFour`).
   */
  function NextPc(pc: Word): (r: Word)
    ensures r[30..] == pc[30..]
  {
    Increment(pc[..30]) + pc[30..]
  }

  /** Moving to the next word adds four to the PC, wrapping around at 2^32. */
  lemma NextPcAddsFour(pc: Word)
    ensures NextPc(pc) == AddBinaryValues(pc, Four)
    ensures Unsigned(NextPc(pc)) == (Unsigned(pc) + 4) % Pow2(32)
  {
    FourValue();
    NextPcAdds(pc, Four);
  }

  lemma NextPcAdds(pc: Word, four: Word)
    requires Unsigned(four) == 4
    ensures NextPc(pc) == AddBinaryValues(pc, four)
    ensures Unsigned(NextPc(pc)) == (Unsigned(pc) + 4) % Pow2(32)
  {
    NextPcValue(pc);
    var next, sum := NextPc(pc), AddBinaryValues(pc, four);
    assert Unsigned(sum) == (Unsigned(pc) + 4) % Pow2(32);
    UnsignedInjective(next, sum);
  }

  lemma NextPcValue(pc: Word)
    ensures Unsigned(NextPc(pc)) == (Unsigned(pc) + 4) % Pow2(32)
  {
    var high, low := pc[..30], pc[30..];
    assert pc == high + low;
    UnsignedAppend(high, low);
    UnsignedAppend(Increment(high), low);
    assert Pow2(2) == 4;
    Pow2Add(30, 2);
    ShiftedIncrement(Unsigned(high), Unsigned(low), Pow2(30));
  }

  lemma ShiftedIncrement(x: nat, y: nat, p: nat)
    requires p > 0 && y < 4
    ensures ((x + 1) % p) * 4 + y == (x * 4 + y + 4) % (p * 4)
  {
    var q := (x + 1) / p;
    assert x * 4 + y + 4 == q * (p * 4) + (((x + 1) % p) * 4 + y);
    DivModUnique(x * 4 + y + 4, p * 4, q, ((x + 1) % p) * 4 + y);
  }

  lemma FourValue()
    ensures Unsigned(Four) == 4
  {
    assert Pow2(3) == 8;
    Pow2Monotone(3, 32);
    UnsignedOfToBits(4, 32);
    DivModUnique(4, Pow2(32), 0, 4);
  }

  // ---------------------------------------------------------------------
  // The execute handlers as functions of the state (Simulator.py, lines 50-200).

  /** `execute_arithmetic`: funct3 picks the operation, funct7 splits add from sub. */
  function AluResult(funct3: Bits, funct7: Bits, val1: Word, val2: Word): Option<Word> {
    if funct3 == "000" then
      if funct7 == "0000000" then Some(AddBinaryValues(val1, val2))
      else if funct7 == "0100000" then Some(SubtractBinaryValues(val1, val2))
      else None
    else if funct3 == "101" then Some(ShiftRightLogical(val1, val2))
    else if funct3 == "010" then Some(SetLessThan(val1, val2))
    else if funct3 == "110" then Some(OrWords(val1, val2))
    else if funct3 == "111" then Some(AndWords(val1, val2))
    else None
  }

  function Arithmetic(s: State, instr: Word): (r: State)
    ensures r.mem == s.mem && r.pc == NextPc(s.pc)
    ensures r.regs == s.regs[Rd(instr) := r.regs[Rd(instr)]]
  {
    var result := AluResult(Funct3(instr), Funct7(instr), s.regs[Rs1(instr)], s.regs[Rs2(instr)]);
    var regs := if result.Some? then s.regs[Rd(instr) := result.value] else s.regs;
    State(regs, s.mem, NextPc(s.pc))
  }

  /** lw: the word at `rs1 + sext(imm)`, which must already be a key of the memory. */
  function Load(s: State, instr: Word): (r: Result<State, Fault>)
    ensures var addr := EffectiveAddress(s.regs[Rs1(instr)], ImmI(instr));
      (r.Ok? <==> addr in s.mem) && (r.Err? ==> r.error == LoadFault(addr))
    ensures r.Ok? ==> r.value.mem == s.mem && r.value.pc == NextPc(s.pc)
    ensures r.Ok? ==> r.value.regs == s.regs[Rd(instr) := r.value.regs[Rd(instr)]]
  {
    var addr := EffectiveAddress(s.regs[Rs1(instr)], ImmI(instr));
    if addr in s.mem then Ok(State(s.regs[Rd(instr) := s.mem[addr]], s.mem, NextPc(s.pc)))
    else Err(LoadFault(addr))
  }

  /** addi: rd gets `rs1 + sext(imm)`, wrapping around. */
  function AddImmediate(s: State, instr: Word): (r: State)
    ensures r.mem == s.mem && r.pc == NextPc(s.pc)
    ensures r.regs == s.regs[Rd(instr) := r.regs[Rd(instr)]]
  {
    var sum := AddBinaryValues(s.regs[Rs1(instr)], Extend32(ImmI(instr)));
    State(s.regs[Rd(instr) := sum], s.mem, NextPc(s.pc))
  }

  /**
   * jalr: the target is computed from rs1 as it was before rd is written;
   * rd gets PC + 4, x0 is re-zeroed and the target's last digit is cleared.
   */
  function JumpAndLinkRegister(s: State, instr: Word): (r: State)
    ensures r.mem == s.mem && r.regs[0] == ZeroWord && r.pc[31] == '0'
    ensures r.regs == s.regs[Rd(instr) := r.regs[Rd(instr)]][0 := ZeroWord]
  {
    var target := AddBinaryValues(s.regs[Rs1(instr)], Extend32(ImmI(instr)));
    var regs := s.regs[Rd(instr) := NextPc(s.pc)];
    State(ZeroX0(regs), s.mem, ClearLowBit(target))
  }

  /** `target[:-1] + '0'`. */
  function ClearLowBit(w: Word): (r: Word)
    ensures Unsigned(r) == Unsigned(w) - Unsigned(w) % 2
  {
    w[..31] + ['0']
  }

  /**
   * `execute_immediate`, shared by lw, addi and jalr: funct3 '010' loads
   * (whatever the opcode), funct3 '000' with the addi opcode adds, and every
   * other word is executed as jalr.
   */
  function Immediate(s: State, instr: Word): Result<State, Fault> {
    if Funct3(instr) == "010" then Load(s, instr)
    else if Funct3(instr) == "000" && OpcodeOf(instr) == "0010011" then Ok(AddImmediate(s, instr))
    else Ok(JumpAndLinkRegister(s, instr))
  }

  /** `execute_store`: writes rs2's word at `rs1 + sext(imm)`, adding the key if it is new. */
  function Store(s: State, instr: Word): (r: State)
    ensures r.regs == s.regs && r.pc == NextPc(s.pc)
    ensures var addr := EffectiveAddress(s.regs[Rs1(instr)], ImmS(instr));
      r.mem.Keys == s.mem.Keys + {addr} && r.mem[addr] == s.regs[Rs2(instr)] &&
      r.mem == s.mem[addr := r.mem[addr]]
  {
    var addr := EffectiveAddress(s.regs[Rs1(instr)], ImmS(instr));
    State(s.regs, s.mem[addr := s.regs[Rs2(instr)]], NextPc(s.pc))
  }

  /** The signed byte offset a B-type word carries. */
  function BranchOffset(instr: Word): (off: int)
    ensures -Pow2(12) <= off < Pow2(12)
    ensures -Pow2(20) <= off < Pow2(20)
  {
    Pow2Monotone(12, 20);
    ToDecimal(Extend32(ImmB(instr)))
  }

  /** The signed byte offset a J-type word carries. */
  function JumpOffset(instr: Word): (off: int)
    ensures -Pow2(20) <= off < Pow2(20)
  {
    ToDecimal(Extend32(ImmJ(instr)))
  }

  /**
   * `execute_branch`. Both registers zero and a zero offset (after the floor
   * division by 4) leave the PC where it is; any other zero offset falls
   * through. Only beq (when rs1 is not x0) and bne compare; blt never branches.
   */
  function Branch(s: State, instr: Word): (r: State)
    ensures r.regs == s.regs && r.mem == s.mem
  {
    var rs1, rs2 := Rs1(instr), Rs2(instr);
    var rs1Val, rs2Val := s.regs[rs1], s.regs[rs2];
    var offset := BranchOffset(instr);
    if rs1Val == ZeroWord && rs2Val == ZeroWord && offset / 4 == 0 then s
    else if offset / 4 == 0 then s.(pc := NextPc(s.pc))
    else if Funct3(instr) == "000" && rs1Val == rs2Val && rs1 != 0 then s.(pc := JumpTarget(s.pc, offset))
    else if Funct3(instr) == "001" && rs1Val != rs2Val then s.(pc := JumpTarget(s.pc, offset))
    else s.(pc := NextPc(s.pc))
  }

  /** `execute_jump` (jal): rd gets PC + 4, then the PC moves and its last digit is cleared. */
  function Jump(s: State, instr: Word): (r: State)
    ensures r.mem == s.mem && r.regs[Rd(instr)] == NextPc(s.pc) && r.pc[31] == '0'
    ensures r.regs == s.regs[Rd(instr) := r.regs[Rd(instr)]]
  {
    var regs := s.regs[Rd(instr) := NextPc(s.pc)];
    State(regs, s.mem, ClearLowBit(JumpTarget(s.pc, JumpOffset(instr))))
  }

  /** `instruction_map` with `exec_unknown` as the default. */
  function Execute(s: State, instr: Word): (r: Result<State, Fault>)
    ensures r.Err? ==>
      r.error.LoadFault? && Funct3(instr) == "010" &&
      (OpcodeOf(instr) == "0000011" || OpcodeOf(instr) == "0010011" || OpcodeOf(instr) == "1100111")
    ensures r.Ok? ==> s.mem.Keys <= r.value.mem.Keys
  {
    var opcode := OpcodeOf(instr);
    if opcode == "0110011" then Ok(Arithmetic(s, instr))
    else if opcode == "0000011" || opcode == "0010011" || opcode == "1100111" then Immediate(s, instr)
    else if opcode == "0100011" then Ok(Store(s, instr))
    else if opcode == "1100011" then Ok(Branch(s, instr))
    else if opcode == "1101111" then Ok(Jump(s, instr))
    else Ok(s.(pc := NextPc(s.pc)))
  }

  // ---------------------------------------------------------------------
  // The loop (Simulator.py, lines 212-234).

  /**
   * `program[pc // 4]` with the signed PC. A negative index counts from the
   * end of the program, as Python's list indexing does.
   */
  function Fetch(program: seq<Word>, pc: Word): (r: Result<Word, Fault>)
    ensures r.Ok? <==> -|program| <= ToDecimal(pc) / 4 < |program|
  {
    var index := ToDecimal(pc) / 4;
    if 0 <= index < |program| then Ok(program[index])
    else if -|program| <= index < 0 then Ok(program[|program| + index])
    else Err(FetchFault(index))
  }

  datatype CycleResult = CycleResult(state: State, line: TraceLine, halted: bool)

  /** One pass of the loop body: fetch, execute, re-zero x0, trace, test for the halt word. */
  function Cycle(s: State, program: seq<Word>): Result<CycleResult, Fault> {
    var instr :- Fetch(program, s.pc);
    var next :- Execute(s, instr);
    var regs := ZeroX0(next.regs);
    Ok(CycleResult(State(regs, next.mem, next.pc), TraceLine(next.pc, regs), instr == HaltWord))
  }

  datatype Stop = Halted | Faulted(fault: Fault) | OutOfFuel
  datatype RunResult = RunResult(state: State, trace: seq<TraceLine>, stop: Stop)

  /** At most `fuel` passes of the loop; the run stops after the trace line of the halt word. */
  function Simulate(s: State, program: seq<Word>, fuel: nat): RunResult
    decreases fuel
  {
    if fuel == 0 then RunResult(s, [], OutOfFuel)
    else match Cycle(s, program)
      case Err(f) => RunResult(s, [], Faulted(f))
      case Ok(c) =>
        if c.halted then RunResult(c.state, [c.line], Halted)
        else
          var rest := Simulate(c.state, program, fuel - 1);
          RunResult(rest.state, [c.line] + rest.trace, rest.stop)
  }

  /**
   * The loop's invariant: `rest`, the outcome of the passes still to come,
   * completes the part of the run already traced into the whole run begun
   * with `trace0`.
   */
  ghost predicate Completes(whole: RunResult, trace0: seq<TraceLine>, trace: seq<TraceLine>, rest: RunResult) {
    whole.state == rest.state && trace0 + whole.trace == trace + rest.trace && whole.stop == rest.stop
  }

  /** A pass that faults ends the run where it is. */
  lemma CompletesAfterFault(whole: RunResult, trace0: seq<TraceLine>, s: State, trace: seq<TraceLine>, program: seq<Word>, steps: nat, rest: RunResult)
    requires steps > 0 && rest == Simulate(s, program, steps) && Completes(whole, trace0, trace, rest)
    requires Cycle(s, program).Err?
    ensures whole.state == s && trace0 + whole.trace == trace && whole.stop == Faulted(Cycle(s, program).error)
  {
  }

  /** A pass that executes the halt word ends the run after its trace line. */
  lemma CompletesAfterHalt(whole: RunResult, trace0: seq<TraceLine>, s: State, trace: seq<TraceLine>, program: seq<Word>, steps: nat, rest: RunResult)
    requires steps > 0 && rest == Simulate(s, program, steps) && Completes(whole, trace0, trace, rest)
    requires Cycle(s, program).Ok? && Cycle(s, program).value.halted
    ensures whole.state == Cycle(s, program).value.state && whole.stop == Halted
    ensures trace0 + whole.trace == trace + [Cycle(s, program).value.line]
  {
  }

  /** Any other pass leaves one pass fewer to run. */
  lemma CompletesAfterCycle(whole: RunResult, trace0: seq<TraceLine>, s: State, trace: seq<TraceLine>, program: seq<Word>, steps: nat, rest: RunResult,
                            next: State, nextTrace: seq<TraceLine>, nextRest: RunResult)
    requires steps > 0 && rest == Simulate(s, program, steps) && Completes(whole, trace0, trace, rest)
    requires Cycle(s, program).Ok? && !Cycle(s, program).value.halted
    requires next == Cycle(s, program).value.state && nextTrace == trace + [Cycle(s, program).value.line]
    requires nextRest == Simulate(next, program, steps - 1)
    ensures Completes(whole, trace0, nextTrace, nextRest)
  {
    AppendAssociates(trace, [Cycle(s, program).value.line], nextRest.trace);
  }

  lemma AppendAssociates<T>(a: seq<T>, b: seq<T>, c: seq<T>)
    ensures a + (b + c) == (a + b) + c
  {
  }

  /**
   * The memory dump: every address of the window present in memory, in
   * ascending order, with its word. (The Python code sorts the `0x%08X` keys
   * as strings; for fixed-width upper-case hex keys that is numeric order.)
   */
  method DumpMemory(mem: map<int, Word>) returns (dump: seq<(int, Word)>)
    ensures forall i, j :: 0 <= i < j < |dump| ==> dump[i].0 < dump[j].0
    ensures forall i :: 0 <= i < |dump| ==> InWindow(dump[i].0) && dump[i].0 in mem && dump[i].1 == mem[dump[i].0]
    ensures forall a :: a in mem && InWindow(a) ==> exists i :: 0 <= i < |dump| && dump[i].0 == a
  {
    dump := [];
    var addr := WindowStart;
    while addr <= WindowEnd
      invariant WindowStart <= addr <= WindowEnd + 1
      invariant forall i, j :: 0 <= i < j < |dump| ==> dump[i].0 < dump[j].0
      invariant forall i :: 0 <= i < |dump| ==> WindowStart <= dump[i].0 < addr
      invariant forall i :: 0 <= i < |dump| ==> dump[i].0 in mem && dump[i].1 == mem[dump[i].0]
      invariant forall a :: a in mem && WindowStart <= a < addr ==> exists i :: 0 <= i < |dump| && dump[i].0 == a
    {
      if addr in mem {
        var before := dump;
        dump := dump + [(addr, mem[addr])];
        forall a | a in mem && WindowStart <= a < addr + 1
          ensures exists i :: 0 <= i < |dump| && dump[i].0 == a
        {
          if a == addr {
            assert dump[|before|].0 == a;
          } else {
            var i :| 0 <= i < |before| && before[i].0 == a;
            assert dump[i].0 == a;
          }
        }
      }
      addr := addr + 1;
    }
  }

  // ---------------------------------------------------------------------
  // The machine, updated in place.

  class Machine {
    var regs: RegFile
    var mem: map<int, Word>
    var pc: Word
    var trace: seq<TraceLine>

    function Snapshot(): State
      reads this
    {
      State(regs, mem, pc)
    }

    /** The module-level initialisation of `memory_space`, `cpu_registers` and `program_counter`. */
    constructor ()
      ensures Snapshot() == Initial() && trace == []
    {
      mem := InitialMemory();
      regs := InitialRegisters();
      pc := ZeroWord;
      trace := [];
    }

    /** `execute_arithmetic`: assigns rd (or nothing, for an unknown funct3/funct7) and advances the PC. */
    method ExecuteArithmetic(instr: Word)
      modifies this
      ensures Snapshot() == Arithmetic(old(Snapshot()), instr) && trace == old(trace)
    {
      var result := AluResult(Funct3(instr), Funct7(instr), regs[Rs1(instr)], regs[Rs2(instr)]);
      if result.Some? {
        regs := regs[Rd(instr) := result.value];
      }
      pc := NextPc(pc);
    }

    /**
     * `execute_immediate`: funct3 and the opcode choose lw, addi or jalr. A
     * load from an address that is not a key reports the fault and changes nothing.
     */
    method ExecuteImmediate(instr: Word) returns (r: Result<(), Fault>)
      modifies this
      ensures Immediate(old(Snapshot()), instr).Err? ==>
        r == Err(Immediate(old(Snapshot()), instr).error) && Snapshot() == old(Snapshot())
      ensures Immediate(old(Snapshot()), instr).Ok? ==> r.Ok? && Snapshot() == Immediate(old(Snapshot()), instr).value
      ensures trace == old(trace)
    {
      if Funct3(instr) == "010" {
        r := ExecuteLoad(instr);
      } else if Funct3(instr) == "000" && OpcodeOf(instr) == "0010011" {
        ExecuteAddImmediate(instr);
        r := Ok(());
      } else {
        ExecuteJumpAndLinkRegister(instr);
        r := Ok(());
      }
    }

    /** The lw branch of `execute_immediate`. */
    method ExecuteLoad(instr: Word) returns (r: Result<(), Fault>)
      modifies this
      ensures Load(old(Snapshot()), instr).Err? ==>
        r == Err(Load(old(Snapshot()), instr).error) && Snapshot() == old(Snapshot())
      ensures Load(old(Snapshot()), instr).Ok? ==> r.Ok? && Snapshot() == Load(old(Snapshot()), instr).value
      ensures trace == old(trace)
    {
      var addr := EffectiveAddress(regs[Rs1(instr)], ImmI(instr));
      if addr !in mem {
        return Err(LoadFault(addr));
      }
      regs := regs[Rd(instr) := mem[addr]];
      pc := NextPc(pc);
      return Ok(());
    }

    /** The addi branch of `execute_immediate`. */
    method ExecuteAddImmediate(instr: Word)
      modifies this
      ensures Snapshot() == AddImmediate(old(Snapshot()), instr) && trace == old(trace)
    {
      var sum := AddBinaryValues(regs[Rs1(instr)], Extend32(ImmI(instr)));
      regs := regs[Rd(instr) := sum];
      pc := NextPc(pc);
    }

    /** The jalr branch of `execute_immediate`: rs1 is read before rd is written. */
    method ExecuteJumpAndLinkRegister(instr: Word)
      modifies this
      ensures Snapshot() == JumpAndLinkRegister(old(Snapshot()), instr) && trace == old(trace)
    {
      var rs1Val := regs[Rs1(instr)];
      var nextPc := NextPc(pc);
      regs := regs[Rd(instr) := nextPc];
      var target := AddBinaryValues(rs1Val, Extend32(ImmI(instr)));
      pc := ClearLowBit(target);
      regs := ZeroX0(regs);
    }

    /** `execute_store`. */
    method ExecuteStore(instr: Word)
      modifies this
      ensures Snapshot() == Store(old(Snapshot()), instr) && trace == old(trace)
    {
      var addr := EffectiveAddress(regs[Rs1(instr)], ImmS(instr));
      mem := mem[addr := regs[Rs2(instr)]];
      pc := NextPc(pc);
    }

    /** `execute_branch`, with its two early returns. */
    method ExecuteBranch(instr: Word)
      modifies this
      ensures Snapshot() == Branch(old(Snapshot()), instr) && trace == old(trace)
    {
      var funct3, rs1 := Funct3(instr), Rs1(instr);
      var rs1Val, rs2Val := regs[rs1], regs[Rs2(instr)];
      var offset := BranchOffset(instr);
      if rs1Val == ZeroWord && rs2Val == ZeroWord && offset / 4 == 0 {
        return;
      }
      if offset / 4 == 0 {
        pc := NextPc(pc);
        return;
      }
      Pow2Monotone(12, 20);
      var targetPc := JumpTarget(pc, offset);
      if funct3 == "000" {
        if rs1Val == rs2Val && rs1 != 0 {
          pc := targetPc;
          return;
        }
      } else if funct3 == "001" {
        if rs1Val != rs2Val {
          pc := targetPc;
          return;
        }
      }
      pc := NextPc(pc);
    }

    /** `execute_jump`: rd is written first, then the PC. */
    method ExecuteJump(instr: Word)
      modifies this
      ensures Snapshot() == Jump(old(Snapshot()), instr) && trace == old(trace)
    {
      var nextPc := NextPc(pc);
      var target := JumpTarget(pc, JumpOffset(instr));
      regs := regs[Rd(instr) := nextPc];
      pc := ClearLowBit(target);
    }

    /** `exec_unknown`: only the PC moves. */
    method ExecUnknown(instr: Word)
      modifies this
      ensures Snapshot() == old(Snapshot()).(pc := NextPc(old(pc))) && trace == old(trace)
    {
      pc := NextPc(pc);
    }

    /** One pass of the `while True` body; `halted` tells whether to break. */
    method Step(program: seq<Word>) returns (r: Result<bool, Fault>)
      modifies this
      ensures Cycle(old(Snapshot()), program).Err? ==>
        r == Err(Cycle(old(Snapshot()), program).error) && Snapshot() == old(Snapshot()) && trace == old(trace)
      ensures Cycle(old(Snapshot()), program).Ok? ==>
        r == Ok(Cycle(old(Snapshot()), program).value.halted) &&
        Snapshot() == Cycle(old(Snapshot()), program).value.state &&
        trace == old(trace) + [Cycle(old(Snapshot()), program).value.line]
    {
      var fetched := Fetch(program, pc);
      if fetched.Err? {
        return Err(fetched.error);
      }
      var instruction := fetched.value;
      var outcome := Dispatch(instruction);
      if outcome.Err? {
        return Err(outcome.error);
      }
      regs := ZeroX0(regs);
      trace := trace + [TraceLine(pc, regs)];
      return Ok(instruction == HaltWord);
    }

    /** `instruction_map.get(opcode, exec_unknown)(instruction)`. */
    method Dispatch(instruction: Word) returns (r: Result<(), Fault>)
      modifies this
      ensures Execute(old(Snapshot()), instruction).Err? ==>
        r == Err(Execute(old(Snapshot()), instruction).error) && Snapshot() == old(Snapshot())
      ensures Execute(old(Snapshot()), instruction).Ok? ==> r.Ok? && Snapshot() == Execute(old(Snapshot()), instruction).value
      ensures trace == old(trace)
    {
      r := Ok(());
      var opcode := instruction[25..32];
      if opcode == "0110011" {
        ExecuteArithmetic(instruction);
      } else if opcode == "0000011" || opcode == "0010011" || opcode == "1100111" {
        r := ExecuteImmediate(instruction);
      } else if opcode == "0100011" {
        ExecuteStore(instruction);
      } else if opcode == "1100011" {
        ExecuteBranch(instruction);
      } else if opcode == "1101111" {
        ExecuteJump(instruction);
      } else {
        ExecUnknown(instruction);
      }
    }

    /**
     * `run_simulation` with a bound on the number of passes (the Python loop
     * has none). On a halt the memory window is dumped.
     */
    method RunSimulation(program: seq<Word>, fuel: nat) returns (stop: Stop, dump: seq<(int, Word)>)
      modifies this
      ensures var r := Simulate(old(Snapshot()), program, fuel);
        Snapshot() == r.state && trace == old(trace) + r.trace && stop == r.stop
      ensures stop == Halted ==> forall i :: 0 <= i < |dump| ==> InWindow(dump[i].0) && dump[i].0 in mem && dump[i].1 == mem[dump[i].0]
      ensures stop == Halted ==> forall i, j :: 0 <= i < j < |dump| ==> dump[i].0 < dump[j].0
      ensures stop == Halted ==> forall a :: a in mem && InWindow(a) ==> exists i :: 0 <= i < |dump| && dump[i].0 == a
      ensures stop != Halted ==> dump == []
    {
      var steps: nat := fuel;
      dump := [];
      ghost var whole := Simulate(Snapshot(), program, fuel);
      ghost var rest := whole;
      while steps > 0
        invariant steps <= fuel
        invariant rest == Simulate(Snapshot(), program, steps)
        invariant Completes(whole, old(trace), trace, rest)
        decreases steps
      {
        ghost var before, traceBefore, restBefore := Snapshot(), trace, rest;
        var r := Step(program);
        if r.Err? {
          CompletesAfterFault(whole, old(trace), before, traceBefore, program, steps, restBefore);
          return Faulted(r.error), [];
        }
        if r.value {
          CompletesAfterHalt(whole, old(trace), before, traceBefore, program, steps, restBefore);
          dump := DumpMemory(mem);
          return Halted, dump;
        }
        steps := steps - 1;
        rest := Simulate(Snapshot(), program, steps);
        CompletesAfterCycle(whole, old(trace), before, traceBefore, program, steps + 1, restBefore, Snapshot(), trace, rest);
      }
      return OutOfFuel, [];
    }
  }
}
