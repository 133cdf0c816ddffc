# RV32I assembler and simulator, modelled in Dafny

This project models an educational tool chain for a subset of RV32I, the 32-bit
base integer instruction set of RISC-V. It has two cooperating programs:

- **The assembler** (`Assembler.py`) reads assembly source and works in two passes.
  - The first pass binds every label to the address of the next instruction.
  - The second pass tokenises each instruction and encodes it into a 32-digit
    bit string in the R, I, S, B or J format. It collects one error per failing
    line instead of stopping.
- **The simulator** (`Simulator.py`) holds 32 registers, a word memory keyed by
  byte address, and a program counter (PC). It runs a fetch / dispatch /
  re-zero-x0 / trace loop until it fetches the halt word `beq x0, x0, 0`, then
  dumps the data window at 0x10000-0x1007C.

The two programs share one contract: the bit layout of the instruction formats in
sections 2.2 and 2.3 of the RISC-V Unprivileged ISA Specification (version
20191213). The model proves that:
- every field the assembler packs is the field the simulator unpacks;
- an encoded branch or jump lands on its label.

The modules:

| file | module | models |
|---|---|---|
| `wrappers.dfy` | `Wrappers` | `Result` and `Option` |
| `bitstring.dfy` | `BitString` | bit strings as sequences of '0'/'1', most significant first; `int(s, 2)` and `format(v, '0wb')` |
| `encoder.dfy` | `Encoder` | `Assembler.py` lines 1-155: tables, `inbin`, `Immediate`, `_address`, `reg_mem`, `is_numeric`, the five packers |
| `assembler.dfy` | `Assembler` | `assemble`: line numbering, the label pass, tokenising, per-line encoding and error collection |
| `bitops.dfy` | `BitOps` | `to_binary`, `to_decimal`, `bit_extend_signed`, `add_binary_values`, `subtract_binary_values` |
| `simulator.dfy` | `Simulator` | the machine state, each handler as a function of the state, and class `Machine` whose methods update `regs`, `mem` and `pc` in place |
| `simulator_facts.dfy` | `SimulatorFacts` | what each handler and the loop do, stated on those functions |
| `contract.dfy` | `FormatContract` | the cross-program round trips: packing, then unpacking and executing |

Representation and conventions:
- **Words and fields.** An instruction or register value is a `Word`, 32 characters
  '0'/'1', so the Python slices (`instr[12:17]`, `imm_str[2:8]`) are the same
  Dafny slices. Fields read with negative slices (`instr[-12:-7]`) are written
  as the equivalent positive slices.
- **Memory.** Memory is a `map<int, Word>` keyed by the unsigned address. The
  source's `'0x%08X'` keys are fixed-width upper-case hexadecimal, so comparing
  them as strings is numeric order.
- **Imperative code.** Each imperative piece is a method proved equal to a
  specification function, and the properties are proved as lemmas about that
  function:
  - `inbin`'s digit loop is `Encoder.InBin`;
  - the two loops of `assemble` are `Assembler.LabelPass` and `Assembler.SecondPass`;
  - the handlers and `run_simulation` are the methods of `Simulator.Machine`.

The code's quirks are kept as written:
- `blt` is never taken.
- `beq` is not taken when rs1 is x0.
- Branch and jump targets floor-divide the signed PC and offset by 4.
- A zero branch offset with both register *values* zero leaves the PC in place.
- `sw` adds a key for any address, but `lw` from a missing key fails.
- Any funct3 other than `010` and `000` under the I-type opcodes executes as jalr.
- A negative PC index counts from the end of the program, as Python lists do.

## Model

| member | source | states |
|---|---|---|
| BitString.UnsignedOfToBits | Simulator.py:72-75 | `format(v, '0wb')` read back with `int(s, 2)` gives `v mod 2^w` |
| BitString.ToBitsOfUnsigned | Simulator.py:84-88 | writing `int(s, 2)` back with `format(…, '0wb')` at the same width gives `s` again |
| Encoder.BinaryOf | Assembler.py:70-84 | `inbin(val, bits)` always has exactly `bits` digits |
| Encoder.InBin | Assembler.py:70-84 | the digit loop (with the zero and negative pre-steps, padding and truncation) computes exactly the low `bits` bits of `val` in two's complement; a value below -2^bits leaves the loop idle and comes out all zeros |
| Encoder.BinaryOfValue | Assembler.py:70-84 | for `-2^b <= v`, the unsigned value of `inbin(v, b)` is `v mod 2^b` (silent truncation) |
| FormatContract.BinaryOfZero | Assembler.py:72-73 | `inbin(0, b)` is `b` zeros |
| FormatContract.BinaryOfRoundTrip | Assembler.py:74-84 | for `-2^(b-1) <= v < 2^(b-1)`, decoding `inbin(v, b)` with the simulator's `to_decimal` gives `v` back |
| FormatContract.BinaryOfIsToBinary | Assembler.py:70-84 | where the simulator's `to_binary(v, b)` is defined, `inbin(v, b)` is the same string |
| Encoder.Strip | Assembler.py:88 | `str.strip()` neither starts nor ends with white space |
| Encoder.StripSlice | Assembler.py:88 | `str.strip()` cuts only white space: the result is a contiguous part of the text with nothing but white space before and after it |
| Encoder.Immediate | Assembler.py:87-101 | a literal that does not read as a number is rejected with `BadImmediate` naming the literal as written; the values of the accepted ones are stated by `ImmediateDecimal` and `ImmediatePrefixed` |
| Encoder.IsNumeric | Assembler.py:153-155 | `is_numeric` depends only on the first non-blank character: it holds exactly when there is one and it is '-' or a decimal digit, so trailing white space never matters; `ImmediateIsNumeric` relates it to `Immediate` |
| Encoder.ImmediateDecimal | Assembler.py:87-101 | a decimal digit string reads as its value, and with a leading '-' as its negation |
| Encoder.ImmediatePrefixed | Assembler.py:93-98 | `0x…`, `0b…`, `0o…` read their digits in base 16, 2 and 8 |
| Encoder.ImmediateIsNumeric | Assembler.py:153-155 | every literal `Immediate` accepts passes `is_numeric`, so an operand taken as a label could not have been read as a number |
| Encoder.Address | Assembler.py:104-110 | `_address` fails exactly when '(' or ')' is missing or the first ')' comes before the first '(' |
| Encoder.AddressOfOperand | Assembler.py:104-110 | `imm(reg)` with no parentheses inside the parts splits back into `(imm.strip(), reg.strip())` |
| Encoder.RegMem | Assembler.py:147-150 | `reg_mem` succeeds exactly for the names in the register table (after stripping), giving that name's number; a failure is `UnknownRegister` of the stripped name |
| Encoder.BCode | Assembler.py:131-136 | `B_code` succeeds exactly when the offset is even |
| Encoder.JCode | Assembler.py:139-144 | `J_code` succeeds exactly when the offset is even |
| Encoder.RCode | Assembler.py:113-115 | packs the R-type word; it needs only a mnemonic of the R table, and where each field lands is stated by `FormatContract.RCodeFields` |
| Encoder.ICode | Assembler.py:118-120 | packs the I-type word; it needs only a mnemonic of the I table, and its fields are stated by `FormatContract.ICodeFields` and `FormatContract.ImmediateRoundTrip` |
| Encoder.SCode | Assembler.py:123-128 | packs the S-type word with the immediate split 7/5; its fields are stated by `FormatContract.SCodeFields` and `FormatContract.StoreOffsetRoundTrip` |
| FormatContract.RegisterField | Assembler.py:113-144 | a register number packed with `inbin(r, 5)` is unpacked as `r` by the simulator |
| FormatContract.RCodeFields | Assembler.py:113-115 | the simulator reads back rd, rs1, rs2, funct3, funct7 and opcode from `R_code` at [20:25], [12:17], [7:12], [17:20], [0:7], [25:32] |
| FormatContract.ICodeFields | Assembler.py:118-120 | `I_code` puts `inbin(imm, 12)` at [0:12], with rd, rs1, funct3 and opcode where the simulator reads them |
| FormatContract.SCodeFields | Assembler.py:123-128 | the simulator's `instr[0:7] + instr[20:25]` of an `S_code` word is `inbin(imm, 12)`; rs1, rs2, funct3 and opcode read back |
| FormatContract.BCodeFields | Assembler.py:131-136 | odd offsets are rejected; for every even offset, the simulator's gather `w[0] + w[24] + w[1:7] + w[20:24] + '0'` is `inbin(offset, 13)` |
| FormatContract.JCodeFields | Assembler.py:139-144 | odd offsets are rejected; for every even offset, the gather `w[0] + w[12:20] + w[11] + w[1:11] + '0'` is `inbin(offset, 21)`; rd and opcode read back |
| FormatContract.ImmediateRoundTrip | Assembler.py:118-120 | for -2048 <= imm < 2048, the simulator's sign-extended I immediate of `I_code` is `imm` |
| FormatContract.StoreOffsetRoundTrip | Assembler.py:123-128 | for -2048 <= imm < 2048, the simulator's sign-extended S immediate of `S_code` is `imm` |
| FormatContract.BranchOffsetRoundTrip | Assembler.py:131-136 | for even -4096 <= offset < 4096, the simulator decodes the offset of `B_code` as `offset` |
| FormatContract.JumpOffsetRoundTrip | Assembler.py:139-144 | for even -2^20 <= offset < 2^20, the simulator decodes the offset of `J_code` as `offset` |
| FormatContract.HaltIsBranchToSelf | Simulator.py:229 | the halt word is exactly what the assembler emits for `beq x0, x0, 0` |
| FormatContract.EncodedOpcodeHandled | Assembler.py:187-245 | every word the assembler emits has an opcode the simulator's `instruction_map` handles |
| FormatContract.BranchToLabel | Assembler.py:214-225 | a branch to a label at in-range distance carries the offset `label address - instruction address` |
| FormatContract.JumpToLabel | Assembler.py:226-236 | a jal to a label at in-range distance carries the offset `label address - instruction address` |
| FormatContract.BranchLandsOnTarget | Simulator.py:167-175 | a taken branch whose offset is `target - pc`, both word-aligned, sets the PC to `target mod 2^32` |
| FormatContract.JumpLandsOnTarget | Simulator.py:189-195 | a jal whose offset is `target - pc`, both word-aligned, sets the PC to `target mod 2^32` |
| Assembler.NumberedLinesNumbers | Assembler.py:162-165 | the numbered lines are exactly the non-blank lines, stripped, in order, with their 1-based line numbers |
| Assembler.NumberedLines | Assembler.py:162-164 | there is at most one numbered line per line of the file (which ones is `NumberedLinesNumbers`) |
| Assembler.Number | Assembler.py:164 | the `enumerate` filter keeps at most one entry per text |
| Assembler.SplitLabel | Assembler.py:173-178 | a line has a label exactly when it contains ':'; label and instruction are the stripped parts before and after the first ':' |
| Assembler.LabelStep | Assembler.py:173-183 | one line of the label loop keeps the queue built so far as a prefix, queues at most one instruction, moves the address on by 4 exactly when it queues one, and never unbinds a label |
| Assembler.FirstPass | Assembler.py:166-183 | the label loop queues at most one instruction per line |
| Assembler.FirstPassSequential | Assembler.py:172-183 | the k-th queued instruction gets address 4k and the address counter is 4 × the number queued |
| Assembler.FirstPassQueues | Assembler.py:172-183 | at most one instruction is queued per line, each with its own line's number and text; no unlabelled line is dropped |
| Assembler.LabelDefined | Assembler.py:173-176 | a label is bound exactly when some line declares it |
| Assembler.LabelAddress | Assembler.py:176 | a label is bound to the address counter at its last declaration; a label-only line does not move the counter |
| Assembler.LabelNamesNextInstruction | Assembler.py:176-183 | a label is bound to the address of the next instruction queued after it, whether on its own line or the same one |
| Assembler.LabelPass | Assembler.py:166-183 | the source's first loop, mutating the label map, the counter and the queue, computes exactly the first pass |
| Assembler.TokenizeJoin | Assembler.py:188 | `replace(',', ' ').split()` of tokens joined by blanks gives those tokens back |
| Assembler.TokenizeEmpty | Assembler.py:188-190 | a line has no tokens exactly when it is all blanks and commas |
| Assembler.Tokenize | Assembler.py:188 | every token is non-empty and holds no white space and no comma |
| Assembler.EncodeLine | Assembler.py:188-190 | a queued line is passed over exactly when it is all blanks and commas |
| Assembler.Resolve | Assembler.py:219-224 | a numeric target is an immediate; otherwise it is `label address - addr`, or an undefined-label error when the label is unbound |
| Assembler.Encode | Assembler.py:191-244 | an unknown mnemonic, a wrong operand count or a bad first register gives exactly that error; a word is produced only for a known mnemonic with the right count, and its opcode is the table's; the per-format lemmas (`EncodedStore`, `EncodedLoad`, `EncodedImmediate`, `EncodedBranch`, `EncodedJump`, `EncodedRegister`) give the word |
| Assembler.EncodeStore | Assembler.py:193-199 | sw: a bad rs2 is reported first; the word carries sw's opcode; the word itself and the later operands' errors are stated by `EncodedStore` and `StoreOperandErrors` |
| Assembler.EncodeLoad | Assembler.py:201-207 | lw: a bad rd is reported first; the word carries lw's opcode; the word itself and the later operands' errors are stated by `EncodedLoad` and `LoadOperandErrors` |
| Assembler.EncodeImmediate | Assembler.py:209-213 | addi/jalr: a bad rd is reported first; the word carries the mnemonic's opcode; the word itself and the later operands' errors are stated by `EncodedImmediate` and `ImmediateOperandErrors` |
| Assembler.EncodeBranch | Assembler.py:214-225 | beq/bne/blt: a bad rs1 is reported first; the word carries the B opcode; when it encodes is stated by `EncodedBranchParts`, the word by `EncodedBranch`, and the later operands' errors by `BranchOperandErrors`, `UndefinedBranchLabel` and `OddBranch` |
| Assembler.EncodeJump | Assembler.py:226-236 | jal: a bad rd is reported first; the word carries the J opcode; when it encodes is stated by `EncodedJumpParts`, the word by `EncodedJump`, and the later errors by `JumpOperandErrors`, `UndefinedJumpLabel` and `OddJump` |
| Assembler.EncodeRegister | Assembler.py:237-242 | R-type: a bad rd is reported first; the word carries the R opcode; the word itself and the later operands' errors are stated by `EncodedRegister` and `RegisterOperandErrors` |
| Assembler.EncodedStore | Assembler.py:193-199 | sw encodes exactly when rs2, the `imm(reg)` operand, its immediate and its base register all parse, and then the word is `S_code(sw, base, rs2, imm)` |
| Assembler.StoreOperandErrors | Assembler.py:196-198 | after a good rs2 and a well-formed operand, a bad immediate is reported first, naming it, and then a bad base register, naming it stripped |
| Assembler.EncodedLoad | Assembler.py:201-207 | lw encodes exactly when rd, the `imm(reg)` operand, its immediate and its base register all parse, and then the word is `I_code(lw, rd, base, imm)` |
| Assembler.LoadOperandErrors | Assembler.py:204-206 | after a good rd and a well-formed operand, a bad immediate is reported first, naming it, and then a bad base register, naming it stripped |
| Assembler.EncodedImmediate | Assembler.py:208-213 | addi and jalr encode exactly when rd, rs1 and the immediate all parse, and then the word is `I_code(op, rd, rs1, imm)` |
| Assembler.ImmediateOperandErrors | Assembler.py:210-212 | after a good rd, a bad rs1 is reported first, then a bad immediate, each naming its operand |
| Assembler.EncodedRegister | Assembler.py:237-242 | an R-type line encodes exactly when rd, rs1 and rs2 all parse, and then the word is `R_code(op, rd, rs1, rs2)` |
| Assembler.RegisterOperandErrors | Assembler.py:239-241 | after a good rd, a bad rs1 is reported first, then a bad rs2, each naming its operand stripped |
| Assembler.MalformedOperand | Assembler.py:193-207 | a sw or lw whose memory operand is malformed fails with that operand |
| Assembler.UndefinedBranchLabel | Assembler.py:219-225 | a branch to a non-numeric target that is no label fails with an undefined-label error naming it |
| Assembler.UndefinedJumpLabel | Assembler.py:230-236 | a jal to a non-numeric target that is no label fails with an undefined-label error naming it |
| Assembler.OddBranch | Assembler.py:131-133 | a branch whose resolved offset is odd fails with the odd-offset error |
| Assembler.OddJump | Assembler.py:139-141 | a jal whose resolved offset is odd fails with `OddJumpOffset` |
| Assembler.EncodedBranch | Assembler.py:214-225 | an encoded branch is `B_code` of its two registers and its resolved target |
| Assembler.EncodedJump | Assembler.py:226-236 | an encoded jal is `J_code` of its register and its resolved target |
| Assembler.EncodedBranchParts | Assembler.py:214-225 | a branch line encodes exactly when both registers parse and the target resolves to an even offset |
| Assembler.BranchOperandErrors | Assembler.py:217-220 | after a good rs1, a bad rs2 is reported naming the stripped operand, then a numeric target `Immediate` rejects, naming the target |
| Assembler.EncodedJumpParts | Assembler.py:226-236 | a jal line encodes exactly when its link register parses and the target resolves to an even offset |
| Assembler.JumpOperandErrors | Assembler.py:228-231 | after a good rd, a numeric target `Immediate` rejects is reported naming the target |
| Assembler.Collect | Assembler.py:187-249 | each queued line adds at most one word or one error |
| Assembler.CollectOrigins | Assembler.py:187-249 | the words are the outcomes of the successful lines in order; the errors are the failing lines' errors in order, each tagged with its line number |
| Assembler.CollectAllEmit | Assembler.py:245 | when every line encodes, there are no errors and word k is line k's encoding |
| Assembler.AssembleLines | Assembler.py:158-249 | the two passes produce at most one word or one error per line of the file |
| Assembler.SecondPass | Assembler.py:185-249 | the source's second loop, appending to `binary_lines` and `errors`, computes exactly the second pass |
| Assembler.Assemble | Assembler.py:158-249 | `assemble` without its file I/O: both loops together equal both passes on the numbered lines |
| BitOps.ToBinary | Simulator.py:18-21 | `to_binary(v, w)` has `w` digits and unsigned value `v mod 2^w` |
| BitOps.ToDecimal | Simulator.py:23-28 | `to_decimal` is the two's-complement value: unsigned value minus 2^n when the top digit is '1', in [-2^(n-1), 2^(n-1)) |
| BitOps.UnsignedInvert | Simulator.py:25 | inverting every digit gives the unsigned value `2^n - 1 - u` |
| BitOps.ToDecimalOfToBinary | Simulator.py:18-28 | for `-2^(w-1) <= v < 2^(w-1)`, `to_decimal(to_binary(v, w)) == v` |
| BitOps.ToBinaryOfToDecimal | Simulator.py:18-28 | `to_binary(to_decimal(s), len(s)) == s` |
| BitOps.BitExtendSigned | Simulator.py:30-34 | sign extension pads to the target width, keeps the original digits at the end, and keeps `to_decimal` |
| BitOps.SignExtendValue | Simulator.py:32-34 | repeating the sign digit in front keeps `to_decimal` |
| BitOps.AddBinaryValues | Simulator.py:36-41 | the sum word's unsigned value is `(a + b) mod 2^32`, with no error on overflow |
| BitOps.AddWraps | Simulator.py:38-41 | the signed sum is always in the range `to_binary` accepts, and congruent to the unsigned sum modulo 2^32 |
| BitOps.SubtractBinaryValues | Simulator.py:43-48 | the difference word's unsigned value is `(a - b) mod 2^32` |
| BitOps.SubtractWraps | Simulator.py:45-48 | the signed difference is in the range `to_binary` accepts, and congruent to the unsigned difference modulo 2^32 |
| Simulator.InitialMemory | Simulator.py:7-9 | the memory starts as zero words at exactly the word addresses 0x10000..0x1007C |
| Simulator.InitialRegisters | Simulator.py:11-16 | every register starts at zero except x2, which holds 380 |
| Simulator.NextPcAddsFour | Simulator.py:90 | the next-word PC is `add_binary_values(pc, '0…0100')`, that is `pc + 4 mod 2^32` |
| Simulator.NextPc | Simulator.py:90 | the next-word PC keeps the two lowest digits; its value is `NextPcAddsFour` |
| Simulator.JumpTarget | Simulator.py:157-167 | `(pc // 4 + off // 4) * 4` written back as a word; its value and alignment are stated by `SimulatorFacts.JumpTargetValue` and `SimulatorFacts.JumpTargetAligned` |
| Simulator.ClearLowBit | Simulator.py:123 | `target[:-1] + '0'` clears the unit bit: unsigned value `u - u mod 2` |
| Simulator.BranchOffset | Simulator.py:151-156 | the gathered B offset is in [-2^12, 2^12) |
| Simulator.JumpOffset | Simulator.py:184-189 | the gathered J offset is in [-2^20, 2^20) |
| Simulator.Fetch | Simulator.py:215-216 | the fetch succeeds exactly when `-len(program) <= pc // 4 < len(program)` (Python's negative indexing) |
| Simulator.Arithmetic | Simulator.py:50-90 | an R-type instruction leaves memory alone, writes no register but rd, and moves to the next word |
| Simulator.Load | Simulator.py:103-109 | lw fails exactly when `rs1 + sext(imm)` is not a memory key, with a fault naming that address; otherwise it leaves memory alone, writes no register but rd, and moves to the next word |
| Simulator.AddImmediate | Simulator.py:111-115 | addi leaves memory alone, writes no register but rd, and moves to the next word |
| Simulator.JumpAndLinkRegister | Simulator.py:117-125 | jalr leaves memory alone, writes no register but rd, keeps x0 zero and lands on an even PC |
| Simulator.Store | Simulator.py:127-143 | sw changes no register, writes rs2's word at `rs1 + sext(imm)` (adding that key if new), keeps every other address, and moves to the next word |
| Simulator.Branch | Simulator.py:145-178 | a branch changes neither registers nor memory |
| Simulator.Jump | Simulator.py:180-195 | jal leaves memory alone, writes the next-word PC into rd and no other register, and lands on an even PC |
| Simulator.Execute | Simulator.py:197-210 | dispatch fails only for a load (funct3 010 under an I-type opcode) with a load fault, and a successful step never removes a memory address |
| Simulator.Cycle | Simulator.py:214-230 | one pass of the loop: fetch, dispatch, re-zero x0, trace, halt test; what it guarantees is stated by `SimulatorFacts.CycleFails` and `SimulatorFacts.CycleTraces` |
| Simulator.Simulate | Simulator.py:212-234 | the loop run for at most `fuel` passes; its trace and final state are described by `SimulatorFacts.SimulateWellTraced` and `SimulatorFacts.SimulateAtHalt` |
| Simulator.DumpMemory | Simulator.py:232-234 | the dump lists every window address present in memory, only those, in ascending order, with its word |
| Simulator.Machine.constructor | Simulator.py:3-16 | the machine starts in the initial state with an empty trace |
| Simulator.Machine.ExecuteArithmetic | Simulator.py:50-90 | the in-place R-type handler leaves the state that `Arithmetic` gives |
| Simulator.Machine.ExecuteImmediate | Simulator.py:92-125 | the in-place I-type handler leaves the state `Immediate` gives, or reports its load fault and changes nothing |
| Simulator.Machine.ExecuteLoad | Simulator.py:103-109 | the in-place lw leaves the state `Load` gives, or reports the missing key and changes nothing |
| Simulator.Machine.ExecuteAddImmediate | Simulator.py:111-115 | the in-place addi leaves the state `AddImmediate` gives |
| Simulator.Machine.ExecuteJumpAndLinkRegister | Simulator.py:117-125 | the in-place jalr leaves the state `JumpAndLinkRegister` gives |
| Simulator.Machine.ExecuteStore | Simulator.py:127-143 | the in-place sw leaves the state `Store` gives |
| Simulator.Machine.ExecuteBranch | Simulator.py:145-178 | the in-place branch handler, with its early returns, leaves the state `Branch` gives |
| Simulator.Machine.ExecuteJump | Simulator.py:180-195 | the in-place jal leaves the state `Jump` gives |
| Simulator.Machine.ExecUnknown | Simulator.py:197-200 | an unknown opcode only advances the PC to the next word |
| Simulator.Machine.Dispatch | Simulator.py:202-220 | dispatching on the opcode leaves the state `Execute` gives |
| Simulator.Machine.Step | Simulator.py:214-230 | one loop pass (fetch, execute, re-zero x0, append the trace line, test for halt) does what `Cycle` says, and a fault changes nothing |
| Simulator.Machine.RunSimulation | Simulator.py:212-234 | the loop leaves the state, trace and stop reason of `Simulate`; after a halt the dump lists exactly the window addresses present, ascending |
| SimulatorFacts.AddSubOperations | Simulator.py:64-70 | funct7 0000000 adds and 0100000 subtracts, both modulo 2^32 |
| SimulatorFacts.ShiftOperation | Simulator.py:71-75 | srl shifts rs1's unsigned value right by the low 5 bits of rs2 |
| SimulatorFacts.ShiftRightValue | Simulator.py:72-75 | `int(val2[-5:], 2)` is rs2's unsigned value mod 32 |
| SimulatorFacts.SetLessThanOperation | Simulator.py:76-82 | slt writes 1 when rs1 < rs2 as signed numbers and 0 otherwise |
| SimulatorFacts.OrAndOperations | Simulator.py:83-88 | or and and are the digit-wise or and and of the two words |
| SimulatorFacts.OrAndBitwise | Simulator.py:84-88 | `int(a, 2) \| int(b, 2)` and `&`, written back as 32 digits, are the digit-wise operations |
| SimulatorFacts.AluUnknown | Simulator.py:64-88 | no register is written exactly for funct3 000 with an unknown funct7, or a funct3 outside 000/101/010/110/111 |
| SimulatorFacts.ArithmeticWrites | Simulator.py:50-90 | an R-type instruction changes at most rd, and never memory |
| SimulatorFacts.StraightLineAdvances | Simulator.py:90-143 | R-type, a successful lw, addi and sw advance the PC by 4 modulo 2^32 |
| SimulatorFacts.UnknownOpcode | Simulator.py:197-200 | an unknown opcode changes neither registers nor memory and advances the PC by 4 |
| SimulatorFacts.Dispatches | Simulator.py:202-207 | the R, I (load, addi, jalr) and S opcodes select their handlers |
| SimulatorFacts.DispatchesBranch | Simulator.py:208 | the B opcode selects the branch handler |
| SimulatorFacts.DispatchesJump | Simulator.py:209 | the J opcode selects the jal handler |
| SimulatorFacts.ImmediateSelects | Simulator.py:103-125 | funct3 010 loads whatever the opcode; funct3 000 with the addi opcode adds; everything else is jalr |
| SimulatorFacts.EffectiveAddressValue | Simulator.py:104-106 | the load/store address is `(rs1 + sext(imm)) mod 2^32` |
| SimulatorFacts.LoadReads | Simulator.py:103-109 | lw fails exactly when its address is not a memory key, reporting that address; otherwise rd gets the stored word and memory is unchanged |
| SimulatorFacts.StoreWrites | Simulator.py:127-143 | sw sets memory at `(rs1 + sext(imm)) mod 2^32` to rs2's word, adding the key if new, and changes no register |
| SimulatorFacts.StoreThenLoad | Simulator.py:103-141 | a lw from the address a sw just wrote succeeds and returns the stored word |
| SimulatorFacts.InitialLoad | Simulator.py:7-9 | from the initial memory, lw succeeds exactly at the word addresses of the window |
| SimulatorFacts.BranchKeepsData | Simulator.py:145-178 | a branch changes neither registers nor memory |
| SimulatorFacts.BranchZeroOffset | Simulator.py:160-165 | a zero offset after `// 4` with both register values zero leaves the PC in place; otherwise it advances by 4 |
| SimulatorFacts.BranchDecision | Simulator.py:167-178 | with a nonzero offset, the branch is taken exactly for beq with equal values and rs1 not x0, or bne with different values; a taken branch goes to `(pc // 4 + off // 4) * 4`, otherwise to the next word |
| SimulatorFacts.BltNeverTaken | Simulator.py:169-178 | blt either stays put (the zero case) or moves to the next word, never to its target |
| SimulatorFacts.JumpTargetValue | Simulator.py:157-167 | the floor-divided target equals `pc + off mod 2^32` when 4 divides both |
| SimulatorFacts.JumpTargetAligned | Simulator.py:190-194 | a computed target is always a multiple of 4 |
| SimulatorFacts.JumpLinks | Simulator.py:186-187 | jal writes the old `pc + 4` into rd and changes no memory |
| SimulatorFacts.JumpLands | Simulator.py:189-195 | jal's new PC is word-aligned, and is `pc + off mod 2^32` when both are word-aligned |
| SimulatorFacts.JumpAndLinkRegisterLinks | Simulator.py:117-125 | jalr jumps to `(rs1 + sext(imm)) mod 2^32` with bit 0 cleared, reading rs1 before rd is written; rd gets the old `pc + 4`, x0 stays zero, the other registers and memory are unchanged |
| SimulatorFacts.CycleFails | Simulator.py:215-220 | a loop pass fails exactly when the fetch or the handler does |
| SimulatorFacts.CycleTraces | Simulator.py:215-230 | after a pass x0 is zero; the trace line shows the new PC and registers; the pass halts exactly when the fetched word is the halt word |
| SimulatorFacts.HaltWordFields | Simulator.py:229 | the halt word is a beq of x0 with x0 and a zero offset |
| SimulatorFacts.HaltKeepsState | Simulator.py:160-161 | executing the halt word with x0 zero changes nothing |
| SimulatorFacts.SimulateAtHalt | Simulator.py:229-230 | fetching the halt word ends the run after exactly one trace line, in an unchanged state |
| SimulatorFacts.SimulateWellTraced | Simulator.py:214-230 | in every run x0 is zero in every trace line and at the end; there is at most one line per pass; the last line shows the final state |
| SimulatorFacts.InitialState | Simulator.py:3-16 | initially the PC is 0, x0 is zero, x2 is 380, the first fetch reads word 0, and the memory keys are exactly 0x10000 + 4k for k < 32 |

## Left out

- File I/O is not modelled. This covers the assembler's input, output and `error_log.txt` files, the simulator's program and trace files, the `print` calls and command-line handling. `Assemble` takes the list of lines `readlines()` returns. The simulator's inputs and outputs are values: the trace is a sequence of `TraceLine`s and the dump a sequence of (address, word) pairs.
- Text formats are not modelled. The model does not produce the `0b`/`0x` prefixes, the trace line text or the error message texts. An error is an `ErrorKind` value tagged with its line number.
- Encoder.Immediate: `ParseLiteral` accepts a plain digit string in the selected base. Python's `int()` also accepts a leading '+' (so `addi x1, x0, +5` assembles there but is a `BadImmediate` here), underscores, a second sign, white space around the digits, and non-ASCII digits.
- Encoder.Strip: `IsSpace` is the ASCII white space of `str.strip()` and `str.split()`: blank, `\t`, `\n`, `\r`, `\v`, `\f` and the separators `\x1c`-`\x1f`. The non-ASCII white space those methods also remove (such as `\x85` and `\xa0`) and the non-ASCII digits `str.isdigit` accepts are not modelled. `Tokenize` uses the same `IsSpace`.
- BitOps.ToBinary: requires `-2^w <= v < 2^w`, where Python would print a longer or signed string. Every call site meets this, as `AddWraps`, `SubtractWraps` and `Simulator.JumpTargetInRange` show.
- Simulator: program lines are taken to be 32-digit bit strings (`Word`). What Python does with any other line of the program file is not modelled.
- Simulator.Machine.RunSimulation: the loop has a fuel bound, because the source loops until it fetches the halt word. A run that runs out of fuel stops with `OutOfFuel`, and nothing is said about the passes beyond the bound.
- Simulator.NextPc: computed by a ripple-carry increment of the digits above the lowest two. `NextPcAddsFour` proves it equal to the source's `add_binary_values(program_counter, '0…0100')`.
- Simulator.Machine: `ExecuteImmediate` is split into `ExecuteLoad`, `ExecuteAddImmediate` and `ExecuteJumpAndLinkRegister`, one method per branch of the source's `if`.
- Encode: the source's one `try` block is split into one function per format (`EncodeStore`, `EncodeLoad`, `EncodeImmediate`, `EncodeBranch`, `EncodeJump`, `EncodeRegister`). The documented error order within each is the source's order of checks.
- Python `assert` statements are always taken as checked. Running under `python -O` would disable them, and that is not modelled.
- A Python exception other than the two the simulator can raise is not modelled: a missing memory key on lw (`LoadFault`) and a program index out of range (`FetchFault`).
