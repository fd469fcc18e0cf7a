# GRisc emulator and assembler tables, modelled in Dafny

GRisc is a 16-bit register machine. This project models two parts of it.

- **The emulator `gemu`.** This is the main part. It models:
  - the machine state: sixteen signed 16-bit registers and a word-addressed memory, plus the interrupt flags `newCharIn` and `newCharOut`;
  - the field decode of `interpret`, and its dispatch to the fifteen opcode handlers;
  - the handlers themselves;
  - the `emulate` fetch loop;
  - the register initialisation at the start of `main`.
- **The implemented part of the assembler `gasm`.** That is its memory-map constants, its register-name and mnemonic translation tables, and the address counter of `populateTags`.

The model follows the C code as written, including its quirks:

- **Immediate overlaps opcode.** The immediate of `lui`/`ori` is taken from bits 15–8 of the instruction word. Those bits overlap the opcode and A nibbles. So `lui` always loads `0x50 + A` and `ori` always ORs in `0x60 + A`, and the low byte of the word never matters (`Isa.Imm`, `Semantics.LuiThenOri`).
- **Fetch ignores `$pc`.** `emulate` fetches `mem[0]`, `mem[1]`, … `mem[progLen-1]` by its own counter. It never reads `registers[pc]` and never advances it. `beq`/`bne` change `registers[pc]`, but that does not affect what is executed next (`Semantics.Run`, `Semantics.BranchDoesNotRedirectFetch`).
- **The video flag is never set.** `sw` sets `newCharOut` only when the signed register value exceeds `0xF69F`, which no `int16_t` does (`Semantics.StoreWritesOneWord`).
- **Memory size.** `memLen` is written `(2^16)`, which is XOR in C and equals 18. The model uses the 65536 words the comment on that line intends (see Findings).

Layout:
- `words.dfy`: `word`/`uword` and the casts between them.
- `bits.dfy`: bitwise operations defined bit by bit.
- `emudefs.dfy`: the emulator's constants.
- `decode.dfy`: field extraction.
- `semantics.dfy`: the machine semantics as functions on values, with their properties.
- `emulator.dfy`: the machine as a class with `registers`/`mem` arrays and handler methods, each proved against `semantics.dfy`.
- `assembler.dfy`: the assembler tables and `populateTags`.
- `consistency.dfy`: the assembler agrees with the emulator.

C integer semantics are written out explicitly:
- `int16_t` narrowing is `Words.Wrap`, which reduces mod 2^16.
- `(uword)` casts are `Words.Unsigned`.
- C's `/` truncates toward zero; it is `Words.TruncDiv`.
- The arithmetic `>>` of a negative promoted `word` is Dafny's Euclidean division by a power of two.

Operations whose C behaviour is undefined are division by zero, a shift count of 32 or more, and an `sll` whose result overflows `int`. On one of these, `Semantics.Step` returns a `Faulted` outcome and the run stops there.

## Model

| member | source | states |
|---|---|---|
| `Words.Unsigned` | gemu.c:289 | the `(uword)` cast: a non-negative word is unchanged, a negative one gains 2^16 |
| `Words.Signed` | gemu.c:345 | the `(word)` cast of a 16-bit pattern: its unsigned view is the pattern again |
| `Words.Wrap` | gemu.c:353-356 | narrowing an `int` result to `int16_t` is congruent to it mod 2^16 and is the identity on values that fit |
| `Words.TruncDiv` | gemu.c:368-371 | C's `/`: the remainder is smaller than the divisor in magnitude, has the dividend's sign, and the quotient's magnitude times the divisor's is at most the dividend's |
| `Words.WrapAdd` | gasm.c:237 | adding to an already wrapped `word` and wrapping again equals wrapping the exact sum once |
| `Bits.And` | gemu.c:340 | C's `&` on n bits: the result is below 2^n |
| `Bits.AndBit` | gemu.c:340 | bit i of the `&` is set iff it is set in both operands |
| `Bits.Or` | gemu.c:319 | C's bitwise OR on n bits: the result is below 2^n |
| `Bits.OrBit` | gemu.c:319 | bit i of the OR is set iff it is set in either operand |
| `Bits.Complement` | gemu.c:340 | C's `~` on an n-bit pattern: below 2^n, and every bit is flipped |
| `EmuDefs.MemLenAsWritten` | gemu.c:21 | `(2^16)` as C evaluates it is 18 |
| `Semantics.InitialPointersBeyondMemLenAsWritten` | gemu.c:21-28 | with `mem` as written (18 words), the initial `$pc`, `$sp` and `$gp` all hold addresses outside it |
| `Semantics.RegisterAddressesInMemory` | gemu.c:287-295 | with the intended 65536 words, the unsigned value of every register is a memory index, so every `lw`/`sw` address is in range |
| `Isa.Decode` | gemu.c:195-198 | op, a, b and c are each in 0..15, and `op*4096 + a*256 + b*16 + c` is the word's unsigned value |
| `Isa.NibblesOfUnsigned` | gemu.c:195-198 | shifting the signed word then masking gives the same nibbles as the unsigned view |
| `Isa.Imm` | gemu.c:199 | the immediate is below 256, equals `op*16 + a`, and is the high byte of the unsigned word |
| `Isa.ImmIgnoresLowByte` | gemu.c:199 | two words with the same high byte have the same immediate |
| `Isa.PackIsOr` | gemu.c:195-198 | `op<<12`, `a<<8`, `b<<4` and `c` OR-ed together give the same value as their sum, `Pack` |
| `Isa.PackDecode` | gemu.c:195-198 | adding the decoded fields back at bits 12, 8, 4 and 0 rebuilds the word |
| `Isa.DecodePack` | gemu.c:195-198 | decoding a packed word gives back the four fields |
| `Isa.DecodeAddExample` | gemu.c:258-260 | 0xCCAB decodes to `add` (12) with A = 12 (`$t0`), B = 10 (`$s0`), C = 11 (`$s1`) |
| `Semantics.InitialRegisters` | gemu.c:115-120 | sixteen registers, all 0 except `$pc`, `$sp`, `$gp`, whose bit patterns are `pcInit`, `spInit`, `gpInit` |
| `Semantics.LuiValue` | gemu.c:312-315 | the result's high byte is the immediate and its low byte is 0 |
| `Semantics.OriValue` | gemu.c:317-320 | the high byte is kept; each low bit is the OR of the register's and the immediate's |
| `Semantics.NandValue` | gemu.c:338-341 | every one of the 16 bits is the NAND of the operands' bits |
| `Semantics.SllDefined` | gemu.c:343-346 | C's rule for `<<` on a 32-bit `int`: the count is below 32 and the shifted value still fits in an `int` |
| `Semantics.SrlDefined` | gemu.c:348-351 | C's rule for `>>` on a 32-bit `int`: the count is below 32 |
| `Semantics.SllValue` | gemu.c:343-346 | bit i of the result is bit i-n of the unsigned operand, and bits below n are 0 |
| `Semantics.SrlValue` | gemu.c:348-351 | bit i of the result is bit i+n of the unsigned operand |
| `Semantics.DivValue` | gemu.c:368-371 | the truncated quotient, except that -32768 / -1 wraps to -32768 |
| `Semantics.TruncDivFits` | gemu.c:368-371 | every truncated 16-bit quotient fits in `int16_t` except -32768 / -1 |
| `Semantics.Step` | gemu.c:193-283 | one `interpret` call keeps the state well formed (16 registers, 65536 words) |
| `Semantics.AfterCycle` | gemu.c:170-171 | after `dispUpdate` and `_kbhit`, `newCharOut` is clear, `newCharIn` is the sample, and registers and memory are unchanged |
| `Semantics.Run` | gemu.c:164-173 | the loop ends well formed, between i and progLen iterations, and exactly progLen when no fault stops it |
| `Semantics.NopChangesNothing` | gemu.c:278-280 | opcode 0 leaves the state unchanged |
| `Semantics.WritesOnlyRegisterA` | gemu.c:287-371 | `lw` and opcodes 5–15 change only `registers[a]`: memory, flags and other registers keep their values |
| `Semantics.StoreWritesOneWord` | gemu.c:292-298 | `sw` stores `registers[a]` at the unsigned value of `registers[b]`, changes no register, and never sets `newCharOut` |
| `Semantics.LoadAfterStore` | gemu.c:287-298 | a `lw` through a register holding the same address right after a `sw` returns the stored value |
| `Semantics.BranchAddsOffset` | gemu.c:300-310 | a taken branch adds `registers[c]` to `registers[pc]` mod 2^16 and changes nothing else; an untaken one changes nothing |
| `Semantics.BranchesComplementary` | gemu.c:300-310 | for the same A and B, exactly one of `beq` and `bne` branches |
| `Semantics.CompareWritesFlag` | gemu.c:322-336 | `sgt`/`seq` write 0 or 1, and 1 exactly when B > C (signed) or B == C |
| `Semantics.SgtComparesSigned` | gemu.c:322-328 | 0xFFFF is not greater than 1: the comparison is signed |
| `Semantics.LuiLoadsHighByte` | gemu.c:312-315 | `lui` sets A's high byte to the immediate, which is always 0x50 + A, and its low byte to 0 |
| `Semantics.OriMergesLowByte` | gemu.c:317-320 | `ori` keeps A's high byte and ORs the immediate, always 0x60 + A, into the low bits |
| `Semantics.LuiThenOri` | gemu.c:312-320 | `lui` then `ori` on one register always yields (0x50 + A) * 256 + 0x60 + A |
| `Semantics.NandIsBitwise` | gemu.c:338-341 | `nand` writes the bitwise NAND of B and C to A |
| `Semantics.ShiftsAreLogical` | gemu.c:343-351 | `sll`/`srl` shift the unsigned value of B by the unsigned value of C, filling with zeros |
| `Semantics.SrlUndoesSll` | gemu.c:343-351 | shifting right by n undoes shifting left by n when no set bit is lost |
| `Semantics.ArithmeticWraps` | gemu.c:353-366 | `add`/`sub`/`mul` store the exact result mod 2^16, which is the exact result whenever it fits |
| `Semantics.DivideTruncates` | gemu.c:368-371 | `div` faults exactly on a zero divisor; otherwise it stores the truncated quotient, with -32768 / -1 giving -32768 |
| `Semantics.FaultsExactly` | gemu.c:343-371 | an instruction faults exactly for an undefined `sll`, an `srl` by 32 or more, or a division by zero |
| `Semantics.PcNeutralStep` | gemu.c:287-371 | an instruction that is not `sw`/`beq`/`bne` and whose destination A is not 2 leaves `$pc` and memory unchanged |
| `Semantics.PcNeverAdvances` | gemu.c:164-173 | over instructions that are not `sw`/`beq`/`bne` and whose destination A is not 2, the loop leaves `registers[pc]` and memory as they were |
| `Semantics.BranchDoesNotRedirectFetch` | gemu.c:167-169 | after a `beq`/`bne` at i, taken or not, memory is unchanged and the next iteration executes `mem[i + 1]` |
| `Semantics.StoreThenFetch` | gemu.c:167-169 | a word stored at i + 1 by iteration i is the word iteration i + 1 executes |
| `Semantics.FaultStopsRun` | gemu.c:164-173 | a fault ends the run with the state before the faulting word and its index as the count |
| `Emulator.Machine.constructor` | gemu.c:114-120 | all sixteen registers are cleared, then `$pc`, `$sp` and `$gp` are set; memory is the given image |
| `Emulator.Machine.Lw` | gemu.c:287-290 | `registers[reg]` becomes `mem[(uword)registers[loc]]`; nothing else changes |
| `Emulator.Machine.Sw` | gemu.c:292-298 | `mem[(uword)registers[loc]]` becomes `registers[reg]`; the flag is raised only if the signed value exceeds `vidMem` |
| `Emulator.Machine.Beq` | gemu.c:300-304 | `registers[pc]` grows by `registers[dest]`, with wrap-around, iff A == B; otherwise the registers are unchanged |
| `Emulator.Machine.Bne` | gemu.c:306-310 | the same, iff A != B |
| `Emulator.Machine.Lui` | gemu.c:312-315 | only `registers[reg]` changes, to `LuiValue(imm)` |
| `Emulator.Machine.Ori` | gemu.c:317-320 | only `registers[reg]` changes, to `OriValue` of its old value |
| `Emulator.Machine.Sgt` | gemu.c:322-328 | only `registers[a]` changes, to 1 if B > C and 0 otherwise |
| `Emulator.Machine.Seq` | gemu.c:330-336 | only `registers[a]` changes, to 1 if B == C and 0 otherwise |
| `Emulator.Machine.Nand` | gemu.c:338-341 | only `registers[a]` changes, to `NandValue` of B and C |
| `Emulator.Machine.Sll` | gemu.c:343-346 | only `registers[a]` changes, to `SllValue` of B and C |
| `Emulator.Machine.Srl` | gemu.c:348-351 | only `registers[a]` changes, to `SrlValue` of B and C |
| `Emulator.Machine.Add` | gemu.c:353-356 | only `registers[a]` changes, to the wrapped sum |
| `Emulator.Machine.Sub` | gemu.c:358-361 | only `registers[a]` changes, to the wrapped difference |
| `Emulator.Machine.Mul` | gemu.c:363-366 | only `registers[a]` changes, to the wrapped product |
| `Emulator.Machine.Divide` | gemu.c:368-371 | only `registers[a]` changes, to `DivValue` of B and C |
| `Emulator.Machine.Interpret` | gemu.c:193-283 | the new machine state is `Step` of the old one; on a fault, nothing changes |
| `Emulator.Machine.InterpretMemoryBranch` | gemu.c:201-221 | opcodes 1–4 dispatch to `lw`/`sw`/`beq`/`bne`, matching `Step` |
| `Emulator.Machine.InterpretImmediateLogic` | gemu.c:223-246 | opcodes 5–9 dispatch to `lui`/`ori`/`sgt`/`seq`/`nand`, matching `Step` |
| `Emulator.Machine.InterpretShiftArith` | gemu.c:248-276 | opcodes 10–15 dispatch to the shift and arithmetic handlers, matching `Step`, with faults |
| `Emulator.Machine.DispUpdate` | gemu.c:177-189 | `newCharOut` is clear afterwards |
| `Emulator.Machine.Emulate` | gemu.c:164-173 | the final state, count and stop reason are those of `Run` from iteration 0 |
| `Assembler.IndexOf` | gasm.c:103-104 | a name→index lookup: the found index holds the name and no earlier entry does; missing exactly when the name is absent |
| `Assembler.LookupInvertsTable` | gasm.c:45-81 | in a table without repeats, looking up entry i gives i |
| `Assembler.RegisterNamesDistinct` | gasm.c:47-62 | the 16 register names are pairwise distinct |
| `Assembler.CommandsDistinct` | gasm.c:66-81 | the 16 mnemonics are pairwise distinct |
| `Assembler.RegisterLookupIsInverse` | gasm.c:47-62 | looking up each register name gives its index; any other string is not found |
| `Assembler.CommandLookupIsInverse` | gasm.c:66-81 | looking up each mnemonic gives its opcode; any other string is not found |
| `Assembler.Fgets` | gasm.c:232-234 | one `fgets` reads at most the buffer room and stops after the first newline; it hits end of file exactly when the rest is shorter than the room and holds no newline, and then consumes it all |
| `Assembler.FgetsCalls` | gasm.c:229-238 | the `while(!feof)` body runs at least once |
| `Assembler.CallsAfterRead` | gasm.c:229-238 | one iteration of the `feof` loop consumes at least one character unless it hits end of file, and the rest runs on the remaining text |
| `Assembler.PopulateTags` | gasm.c:220-240 | the counter ends at `pcInit` plus the number of loop iterations, mod 2^16; `dict` is not written |
| `Assembler.FgetsReadsLine` | gasm.c:233 | on a short newline-terminated line, `fgets` consumes the line and its newline |
| `Assembler.CallsOnLines` | gasm.c:229-238 | on n short newline-terminated lines the loop body runs n + 1 times |
| `Consistency.MemoryMapsAgree` | gasm.c:36-40 | the assembler's memory constants equal the emulator's; spInit < pcInit < gpInit < keyboard < vidMem, with spInit = pcInit - 1 and keyboard = vidMem - 1 |
| `Consistency.RegisterNamesMatchEmulator` | gasm.c:47-62 | each register name sits at the emulator's index for that register (`$pc` = 2, `$sp` = 4, `$gp` = 5, `$t0` = 12, …) |
| `Consistency.CommandsMatchDispatch` | gasm.c:66-81 | each mnemonic sits at the opcode the emulator's switch dispatches for it (`nop` = 0 via `default`) |

## Left out

- `main` of both programs: argument checks, `fopen`, `fread`, `fileLen` (gemu.c:99-160, gasm.c:132-178). The machine's memory image is a constructor parameter instead. As written, the program-load loop never runs, because `pcInit` is not below 0x2000, so `progLen` stays 0. The memory-clear loop stops at 0xFFFE. Neither matters with the fixed 65536-word memory.
- `dispUpdate`'s rendering (`system("cls")`, `printf` of the video region) and `_kbhit` are console I/O. The model keeps only the flag update; each iteration's keyboard sample is an input sequence `keys`.
- `strip`, `expand`, `getLine`, `isInstruction`, `isPseudo`, `pseudoConvert`, `regNum`, `opNum`, `getType`, `makeR`, `makeI`, `getOp`/`getA`/`getB`/`getC`/`getImm` and `translate` are declared in gasm.c but have no bodies (`expand` is empty). gasm.c as a whole does not compile: the tables are assignments at file scope (gasm.c:47-62, 66-81), and the prototypes at gasm.c:96 and gasm.c:100 lack semicolons. The tables are modelled as the values those assignments name. So the model has no symbol resolution, label relocation, pseudo-instruction expansion or encoder. `Assembler.IndexOf` is the lookup `regNum`/`opNum` would perform, not a model of their code.
- `Assembler.PopulateTags`: the input stream is modelled as the unread text, which each `fgets` shortens; `rewind` is starting from the whole text. The write `line[sizeof(line)] = 0` at gasm.c:234 is one past the end of the buffer. The model leaves it out, because it does not affect the counter.
- `Semantics.Step` and `Emulator.Machine.Interpret`: C gives no meaning to division by zero, to a shift count of 32 or more, or to an `sll` that overflows `int`. On these the model faults and stops, with the state unchanged. Shift counts from 16 to 31 are defined in C, and the model computes them rather than requiring a count below 16.
- `Emulator.Machine.Emulate` requires `progLen` to be at most the memory size. A larger count would read `mem` out of bounds in C.
- `Semantics.Step`: its own contract only states well-formedness. What each opcode does is stated by the lemmas beside it (`WritesOnlyRegisterA` … `FaultsExactly`).

## Findings

| source | as written | input that shows it | evidently intended | confidence | as-written member | corrected member |
|---|---|---|---|---|---|---|
| gemu.c:21 | `#define memLen (2^16)` is bitwise XOR, so `mem` has 18 words | `lw` through a register holding `pcInit` (0xB69E) indexes word 46750 of an 18-word array | 65536 words, one per 16-bit address, as the line's comment says | high; not executed | `Semantics.InitialPointersBeyondMemLenAsWritten` | `Semantics.RegisterAddressesInMemory` |
