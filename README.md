# Two MIPS emulators: a single-cycle interpreter and a pipeline driver

This project models two emulators of the MIPS32 R/I/J instruction encodings in Dafny. Both run over 32 registers of 32 bits, a 1 MiB byte memory and a `pc`.

- **ca-pa2/pa2.c, the single-cycle interpreter.**
  - `process_instruction` writes the word out as a 32-character binary string and copies the field buffers out of it. It reads them back with `strtol`, writes the immediate out in hex and reads it back. It then dispatches on `funct` or `opcode` and updates `registers[]`, `memory[]` and `pc`.
  - `run_program` fetches big-endian words from `INITIAL_PC` on and advances `pc` by 4 before each one. It stops on the halt word `0xffffffff`.
- **ca-pa3/main.c, the pipeline driver.**
  - `__parse_instruction` is a table-driven decoder.
  - `make_stall` and `__should_stall` keep per-stage stall counters.
  - `__run_cycle` first shifts the five stage records toward WB, injecting a bubble at the first stalled slot. It then calls WB, MEM, EX, ID and IF in that order, skipping on stalls. Finally it counts the cycle.
  - `__is_program_finished`, `__run_program` and the `reset` command complete the driver.

Files and modules:

- `words.dfy` (`Words`) and `bitwise.dfy` (`Bitwise`): the `unsigned int` arithmetic of the C code on unbounded integers. This covers wrap-around modulo 2^32, shifts, `&`, `|` and `~`.
- `single_cycle_decode.dfy` (`SingleCycleDecode`): the binary and hex text loops of `process_instruction`, and the proof that they decode every field at its MIPS32 bit position.
- `single_cycle.dfy` (`SingleCycle`): the machine state, and the effect of each case as the pure functions `Execute` and `Run`.
- `single_cycle_properties.dfy` (`SingleCycleProperties`): what each instruction and `run_program` promise, proved of those functions.
- `single_cycle_machine.dfy` (`SingleCycleMachine`): class `Machine`, which holds the globals as arrays and updates them in place. Its methods are proved to agree with `Execute` and `Run`.
- `pipeline_parse.dfy` (`PipelineParse`): `__parse_instruction` with its two tables.
- `pipeline_driver.dfy` (`PipelineDriver`): the stall counters, the preparation loop, one cycle and the run loop, as functions on the five stage records, with their properties.
- `pipeline_machine.dfy` (`PipelineMachine`): class `Pipeline`, which holds the globals in arrays and fields. Its methods update them in place and are proved to agree with `PipelineDriver`.

Where the code departs from MIPS32, the model follows the code:

- `lw` and `sw` add the zero-extended immediate to the base.
- `slti` compares unsigned against the zero-extended immediate.
- `sra` is only defined while bit 31 of the operand is clear. It then equals `srl`.

In ca-pa3/main.c:

- The halt word `0xffffffff` has opcode 0x3f. That opcode has no entry in `mips_instruction_set`, which is declared only up to 0x2b (lines 112-137). The model treats a missing entry as the `unknown_type` of types.h. So decoding the halt word in ID takes the `default` branch of `__parse_instruction` and exits (`PipelineParse.HaltWordAborts`).
- `__is_program_finished` counts a slot as idle when its word is 0 and its `__pc` is not 0 (line 291). An injected bubble has `__pc` 0, so it never counts as idle.

The stage bodies `IF_stage` … `WB_stage` are declared `extern` at ca-pa3/main.c:261-265, and their code is not part of this model. The driver observes three things about them:

- that a body was called: `Pipeline.calls` logs the calls;
- which `make_stall` calls each body issued;
- the word and address `IF_stage` stores in `stages[IF]`. The framework requires IF_stage to store them. The next cycle moves them into ID at lines 343-344 and decodes them at line 374. Line 291 counts them for termination.

The last two are an input per cycle, of type `StageEffects`: the `make_stall` requests of each body, and IF's `Fetch`.

## Model

| member | source | states |
|---|---|---|
| Words.ShiftRight | ca-pa2/pa2.c:234 | `w >> k` on an `unsigned int` never exceeds w |
| Words.ShiftRightValue | ca-pa2/pa2.c:234 | `w >> k` is w divided by 2^k, rounded down |
| Words.ShiftLeftValue | ca-pa2/pa2.c:231 | `w << k` is w * 2^k modulo 2^32 |
| Words.WrapAdd | ca-pa2/pa2.c:216 | wrapping an intermediate sum modulo 2^32 does not change the wrapped total |
| Bitwise.OrPlusAnd | ca-pa2/pa2.c:222-225 | over n bits, a \| b plus a & b is the sum of the low n bits of a and b |
| Bitwise.AndNarrow | ca-pa2/pa2.c:280-282 | against an operand below 2^k, `&` depends only on the low k bits |
| Bitwise.AndLowHalf | ca-pa2/pa2.c:280-282 | `&` over k bits depends only on the first operand modulo 2^k |
| Bitwise.AndLowMask | ca-pa3/main.c:148-152 | `x & (2^k - 1)` keeps the low k bits of x |
| SingleCycleDecode.ToBinary | ca-pa2/pa2.c:152-156 | the loop writes the 32 bits of the word, most significant first, as '0'/'1' characters |
| SingleCycleDecode.ParseBinaryBound | ca-pa2/pa2.c:167-199 | strtol of n binary digits is below 2^n |
| SingleCycleDecode.ParseTopDigits | ca-pa2/pa2.c:152-156 | the first n characters the loop writes read back as the word shifted right by 32 - n |
| SingleCycleDecode.DropDigits | ca-pa2/pa2.c:152-156 | skipping k characters of the text is the text of the word shifted left by k |
| SingleCycleDecode.FieldOfDigits | ca-pa2/pa2.c:157-199 | strtol on characters lo..hi-1 of the text yields bits 31-lo down to 32-hi of the word |
| SingleCycleDecode.DigitsAreBits | ca-pa2/pa2.c:152-156 | character i is '1' exactly when bit 31 - i of the word is set |
| SingleCycleDecode.BinaryInjective | ca-pa2/pa2.c:161-180 | two binary texts of one length that strtol reads alike are the same text, so the opcode tests by strcmp are tests on the value |
| SingleCycleDecode.OpcodeText | ca-pa2/pa2.c:161-180 | the opcode buffer equals a literal exactly when the opcode has that literal's value |
| SingleCycleDecode.FormatByOpcode | ca-pa2/pa2.c:161-187 | opcode 0 selects R format, 2 and 3 select J format, any other value selects I format |
| SingleCycleDecode.DecodeRFields | ca-pa2/pa2.c:161-179 | for opcode 0, rs, rt, rd, shamt and funct are bits 25-21, 20-16, 15-11, 10-6 and 5-0 |
| SingleCycleDecode.DecodeJFields | ca-pa2/pa2.c:180-186 | for opcodes 2 and 3 the target is bits 25-0 |
| SingleCycleDecode.DecodeIFields | ca-pa2/pa2.c:187-199 | for any other opcode, rs, rt and the immediate are bits 25-21, 20-16 and 15-0 |
| SingleCycleDecode.DecodeOpcode | ca-pa2/pa2.c:157-159 | the opcode buffer reads back as bits 31-26 |
| SingleCycleDecode.DecodeCommonFields | ca-pa2/pa2.c:157-199 | bits 31-26, 25-21 and 20-16 as divisions of the word |
| SingleCycleDecode.DecodeOtherFields | ca-pa2/pa2.c:162-199 | bits 15-11, 10-6, 5-0, 25-0 and 15-0 as divisions of the word |
| SingleCycleDecode.BinaryDecodeIsDecode | ca-pa2/pa2.c:152-199 | the route through the binary text decodes every word exactly as the MIPS32 layout `Decode` does |
| SingleCycleDecode.DecodeInstruction | ca-pa2/pa2.c:152-199 | the loop and the buffers give the MIPS32 decoding of the word |
| SingleCycleDecode.HexDigitValue | ca-pa2/pa2.c:204-208 | strtol(.., 16) reads each digit the loop writes as its nibble |
| SingleCycleDecode.HexStep | ca-pa2/pa2.c:202-209 | each round of the hex loop appends the next nibble, so the text read so far is the immediate's top nibbles |
| SingleCycleDecode.ToHex | ca-pa2/pa2.c:202-211 | the four hex digits read back as the 16-bit immediate, so `immed_hex` is the zero-extended immediate |
| SingleCycle.Execute | ca-pa2/pa2.c:215-311 | the effect of a decoded word keeps 32 registers and 1 MiB of memory |
| SingleCycleProperties.LoadWordIsBigEndian | ca-pa2/pa2.c:290-293 | lw assembles memory[a..a+3] most significant byte first |
| SingleCycleProperties.WordBytesValue | ca-pa2/pa2.c:301-303 | the four bytes sw writes, read most significant first, are the stored word |
| SingleCycleProperties.ByteValues | ca-pa2/pa2.c:302 | `(word >> (24 - 8i)) & 0xFF` is byte i of the word counted from the top |
| SingleCycleProperties.StoreWordFrame | ca-pa2/pa2.c:296-304 | sw changes exactly bytes a..a+3, and they hold the word's bytes |
| SingleCycleProperties.LoadAfterStore | ca-pa2/pa2.c:287-304 | a load from the address of a store returns the stored word |
| SingleCycleProperties.SwThenLw | ca-pa2/pa2.c:287-304 | sw leaves registers and pc alone and changes only addr..addr+3, where addr is rs plus the zero-extended immediate; lw from the same base and immediate reads back the stored register |
| SingleCycleProperties.FetchBytes | ca-pa2/pa2.c:396-397 | the fetch expression of run_program assembles the same big-endian word as lw |
| SingleCycleProperties.RTypeFrame | ca-pa2/pa2.c:215-253 | add, sub, and, or, nor, sll, srl, sra and slt change registers[rd] and no other register, memory or pc |
| SingleCycleProperties.AddIsSigned | ca-pa2/pa2.c:216 | without signed overflow, add gives the exact signed sum |
| SingleCycleProperties.AddThenSub | ca-pa2/pa2.c:215-220 | sub undoes add |
| SingleCycleProperties.AndOrSum | ca-pa2/pa2.c:221-226 | and plus or of two registers is their sum |
| SingleCycleProperties.SltVersusSlti | ca-pa2/pa2.c:247-308 | slt compares signed and slti unsigned: 0xffffffff is below 1 for slt and above it for slti |
| SingleCycleProperties.SltSigned | ca-pa2/pa2.c:247-253 | for all operands, slt writes 1 or 0 to rd, and 1 exactly when rs is below rt once both sign bits are flipped (two's-complement order); nothing else changes |
| SingleCycleProperties.SltiUnsigned | ca-pa2/pa2.c:306-308 | for all operands, slti writes 1 exactly when rs is below the zero-extended immediate, unsigned, so an rs with bit 31 set gives 0; nothing else changes |
| SingleCycleProperties.SllThenSrl | ca-pa2/pa2.c:230-235 | srl by k undoes sll by k when no set bit is shifted out |
| SingleCycleProperties.SraIsSrl | ca-pa2/pa2.c:236-246 | with bit 31 of rt clear, sra writes what srl writes |
| SingleCycleProperties.AddiSignExtends | ca-pa2/pa2.c:276-279 | adding the int16_t immediate adds its 32-bit sign extension |
| SingleCycleProperties.AddiExamples | ca-pa2/pa2.c:276-279 | addi of 1 to 0xffffffff gives 0, and immediate 0xffff subtracts one |
| SingleCycleProperties.AndiZeroExtends | ca-pa2/pa2.c:280-282 | andi uses the zero-extended immediate, so the upper half of the result is clear |
| SingleCycleProperties.AndiLowHalf | ca-pa2/pa2.c:280-282 | for all operands, andi writes the `&` of the low 16 bits of rs with the immediate; nothing else changes |
| SingleCycleProperties.OriKeepsUpper | ca-pa2/pa2.c:283-285 | ori uses the zero-extended immediate, so the upper half of rs passes through |
| SingleCycleProperties.BranchEffect | ca-pa2/pa2.c:264-275 | beq and bne move pc by 4 * sext(imm) when taken and leave the state alone otherwise |
| SingleCycleProperties.BranchFromFetchPc | ca-pa2/pa2.c:264-275 | a taken branch lands at fetch pc + 4 + 4 * sext(imm) and an untaken one at fetch pc + 4; registers and memory are untouched |
| SingleCycleProperties.BranchExamples | ca-pa2/pa2.c:264-275 | a taken branch at 0x1000 with immediate 4 goes to 0x1014 |
| SingleCycleProperties.JumpTargetValue | ca-pa2/pa2.c:257-263 | j and jal keep pc's top four bits and put 4 * target below them |
| SingleCycleProperties.JalThenJr | ca-pa2/pa2.c:254-263 | jal stores the incremented pc in $31, so jr $31 returns there |
| SingleCycleProperties.UnmatchedDecodedIsNoop | ca-pa2/pa2.c:309-311 | a decoded word that matches no case changes no state |
| SingleCycleProperties.UnmatchedIsNoop | ca-pa2/pa2.c:309-311 | a word whose opcode, or whose funct under opcode 0, has no case changes no state |
| SingleCycleProperties.HaltIsNoop | ca-pa2/pa2.c:309-311 | the halt word, executed, changes nothing |
| SingleCycleProperties.RunHalts | ca-pa2/pa2.c:395-402 | a run that halts stopped on a halt word and left pc just past it |
| SingleCycleProperties.RunUnfold | ca-pa2/pa2.c:395-405 | a fetched word that is neither halt nor undefined is executed after pc += 4 and the loop goes on |
| SingleCycleProperties.RunStops | ca-pa2/pa2.c:395-405 | the ways one round can end the run: halt after pc += 4, no fuel left, or a word that cannot be fetched or is undefined |
| SingleCycleProperties.RunFaults | ca-pa2/pa2.c:395-405 | a run that faults stopped on a word outside memory or whose C code is undefined |
| SingleCycleMachine.InitialState | ca-pa2/pa2.c:44-81 | the initial globals form a well-formed state |
| SingleCycleMachine.Machine.constructor | ca-pa2/pa2.c:44-81 | registers, memory and pc as initialised |
| SingleCycleMachine.Machine.WriteRegister | ca-pa2/pa2.c:216 | `registers[r] = v` changes that register only |
| SingleCycleMachine.Machine.ExecuteRInPlace | ca-pa2/pa2.c:215-256 | the funct cases update the arrays and pc as `ExecuteR` |
| SingleCycleMachine.Machine.ExecuteJInPlace | ca-pa2/pa2.c:257-263 | j and jal update pc and $31 as `ExecuteJ` |
| SingleCycleMachine.Machine.LoadWordInPlace | ca-pa2/pa2.c:290-293 | the byte loop of lw returns the big-endian word at the address |
| SingleCycleMachine.Machine.StoreWordInPlace | ca-pa2/pa2.c:299-303 | the byte loop of sw writes the word big-endian at the address and nothing else |
| SingleCycleMachine.Machine.LoadInPlace | ca-pa2/pa2.c:287-295 | lw updates the state as `ExecuteI` |
| SingleCycleMachine.Machine.StoreInPlace | ca-pa2/pa2.c:296-304 | sw updates the state as `ExecuteI` |
| SingleCycleMachine.Machine.ExecuteIInPlace | ca-pa2/pa2.c:264-308 | the I-format cases update the state as `ExecuteI` |
| SingleCycleMachine.Machine.ProcessInstruction | ca-pa2/pa2.c:140-313 | process_instruction updates registers, memory and pc exactly as `Execute` of the MIPS32 decoding |
| SingleCycleMachine.Machine.FetchInstruction | ca-pa2/pa2.c:396-397 | the fetched word is the big-endian word at pc |
| SingleCycleMachine.Machine.StepInPlace | ca-pa2/pa2.c:403-404 | pc += 4, then process the word |
| SingleCycleMachine.Machine.Cycle | ca-pa2/pa2.c:395-405 | one round either stops with the outcome `Run` gives or leaves the same run with one less word |
| SingleCycleMachine.Machine.RunProgram | ca-pa2/pa2.c:391-407 | from INITIAL_PC, the final state and the way the run ended are those of `Run` |
| PipelineParse.ShiftMaskValue | ca-pa3/main.c:148-152 | `(w >> k) & mask`, for a mask of n low ones, is bits k..k+n-1 of w |
| PipelineParse.OpcodeValue | ca-pa3/main.c:141 | `instr >> 26` is the top six bits |
| PipelineParse.RFieldValues | ca-pa3/main.c:148-152 | the R-format fields are bits 25-21, 20-16, 15-11, 10-6 and 5-0 |
| PipelineParse.IFieldValues | ca-pa3/main.c:162-164 | the I-format fields are bits 25-21, 20-16 and 15-0 |
| PipelineParse.JFieldValue | ca-pa3/main.c:173 | the J-format target is bits 25-0 |
| PipelineParse.ParseRoundTrip | ca-pa3/main.c:139-187 | a decoded record keeps the word as machine_code with opcode `instr >> 26`, and its fields reassemble to the word |
| PipelineParse.RRoundTrip | ca-pa3/main.c:141-153 | R-format fields reassemble to the word |
| PipelineParse.IRoundTrip | ca-pa3/main.c:157-166 | I-format fields reassemble to the word |
| PipelineParse.ParseFieldsBounded | ca-pa3/main.c:141-176 | opcode < 64; registers and shamt < 32, funct < 64, imm < 2^16, target < 2^26 |
| PipelineParse.ParseFollowsTable | ca-pa3/main.c:112-187 | a word decodes exactly when its opcode has an entry in mips_instruction_set; the format and name come from the tables |
| PipelineParse.HaltWordAborts | ca-pa3/main.c:139-181 | the halt word has no table entry, so decoding it aborts |
| PipelineDriver.IdleCount | ca-pa3/main.c:284-298 | the number of idle slots never exceeds the number of slots |
| PipelineDriver.AllIdle | ca-pa3/main.c:284-298 | all five slots are idle exactly when the count reaches five, which is when __is_program_finished returns false |
| PipelineDriver.BubbleKeepsRunning | ca-pa3/main.c:278-298 | an injected bubble is a noop and is not idle, so a pipeline holding one is not finished |
| PipelineDriver.ShouldStallAt | ca-pa3/main.c:314-322 | the answer is yes exactly when the counter was at least two; the counter drops by one unless it was zero; nothing else changes |
| PipelineDriver.Countdown | ca-pa3/main.c:314-322 | a counter of c makes the next checks answer yes c - 1 times, then no |
| PipelineDriver.StallAfterMakeStall | ca-pa3/main.c:308-322 | from zero, make_stall(s, n) with n >= 1 makes __should_stall(s) answer yes exactly n - 1 times |
| PipelineDriver.ApplyStallsAdds | ca-pa3/main.c:308-312 | make_stall calls leave every instruction and address alone and add the requested total to each counter modulo 2^32 |
| PipelineDriver.FirstStall | ca-pa3/main.c:340-355 | the first slot, scanning down from i, whose counter is at least two; none above it is |
| PipelineDriver.ShiftFromSlot | ca-pa3/main.c:340-355 | the loop from slot i leaves each slot as the reference `ShiftedSlot` says |
| PipelineDriver.MovedSlot | ca-pa3/main.c:341-347 | a slot that moves leaves the rest of the loop the same work |
| PipelineDriver.SameFirstStall | ca-pa3/main.c:340-355 | the first stalled slot depends only on the counters |
| PipelineDriver.ShiftSlots | ca-pa3/main.c:340-355 | slots above the first stalled one receive the pre-cycle instruction and address of the slot below; the stalled one becomes a bubble; lower slots and IF are untouched |
| PipelineDriver.CycleCallOrder | ca-pa3/main.c:362-388 | stage bodies are called in the order WB, MEM, EX, ID, IF, each at most once, WB always; an abort in the decoder comes after WB, MEM and EX |
| PipelineDriver.QuietCycleCalls | ca-pa3/main.c:362-388 | without make_stall requests, MEM, EX and ID run only while their counters are zero and the word decodes; IF runs only if also its counter is below two |
| PipelineDriver.QuietCycleStages | ca-pa3/main.c:370-388 | without make_stall requests, ID holds the decoded instruction when it runs; IF holds the word and address IF_stage fetched, or becomes a bubble when its check says stall |
| PipelineDriver.FetchedSlot | ca-pa3/main.c:362-388 | after any cycle, IF holds the fetched word and address when IF_stage ran, is a bubble when ID ran but IF stalled, and keeps its pre-cycle word and address when the cycle ended before ID_stage |
| PipelineDriver.FetchedSlotAfterDecode | ca-pa3/main.c:374-388 | the same for the part of the cycle from the decode on |
| PipelineDriver.QuietFullCycle | ca-pa3/main.c:340-388 | with every counter zero, no make_stall calls and a decodable word in IF, all five bodies run, every slot from ID up takes the word and address of the slot below, IF takes the new fetch, and the counters stay zero |
| PipelineDriver.ShiftedIdle | ca-pa3/main.c:284-298 | idle slots moved up one place above an idle fetch make all five slots idle |
| PipelineDriver.IdleFetchFinishes | ca-pa3/main.c:284-401 | the run-to-the-end exit is reachable: with IF..EX idle, every counter zero and a fetch of word 0 from a non-zero address, the cycle returns false |
| PipelineDriver.EndOf | ca-pa3/main.c:395-401 | a cycle either aborts in the decoder, or returns false exactly when every slot holds word 0 with a non-zero `__pc` |
| PipelineDriver.RunAppends | ca-pa3/main.c:416-429 | the run loop only appends to the call log and to the cycle ends |
| PipelineDriver.StopsAfterTrue | ca-pa3/main.c:419-422 | a true cycle end followed by a run that stops at its first false end is such a run |
| PipelineDriver.RunStopsAtFirstFalse | ca-pa3/main.c:416-429 | __run_program calls __run_cycle at most n times; every call but the last returned true; it stops early only after a false or an abort |
| PipelineDriver.Completed | ca-pa3/main.c:396 | the number of cycles that reached `__cycles++` is at most the number of cycles |
| PipelineDriver.CompletedAppend | ca-pa3/main.c:396 | a cycle that returns adds one to the count and an abort adds none |
| PipelineMachine.Pipeline.constructor | ca-pa3/main.c:37-89 | zeroed stage records, registers and memory as initialised, pc = INITIAL_PC, no cycles |
| PipelineMachine.Pipeline.MakeStall | ca-pa3/main.c:308-312 | adds the `int` to the counter modulo 2^32 and changes nothing else |
| PipelineMachine.Pipeline.ShouldStall | ca-pa3/main.c:314-322 | answer and new records as `ShouldStallAt` |
| PipelineMachine.Pipeline.InvokeStage | ca-pa3/main.c:261-265 | a stage body call is logged, and its make_stall calls are applied in order |
| PipelineMachine.Pipeline.InvokeFetch | ca-pa3/main.c:387 | a call of IF_stage is logged, stores the fetched word as `machine_code` and its address as `__pc` in stages[IF], and applies its make_stall calls |
| PipelineMachine.Pipeline.IssueStalls | ca-pa3/main.c:308-312 | make_stall for each request in turn |
| PipelineMachine.Pipeline.ShiftStages | ca-pa3/main.c:340-355 | the preparation loop leaves the records `Shift` gives |
| PipelineMachine.Pipeline.IsProgramFinished | ca-pa3/main.c:284-298 | the counting loop returns `NotFinished` of the records |
| PipelineMachine.Pipeline.InvokeIdAndIf | ca-pa3/main.c:374-388 | decoding in place, ID_stage, then IF_stage with its fetch or a bubble, as `DecodeAndFetch` |
| PipelineMachine.Pipeline.InvokeStages | ca-pa3/main.c:362-388 | the stage calls with their `goto done` skips, as `InvokeAll` |
| PipelineMachine.Pipeline.RunCycle | ca-pa3/main.c:334-402 | records, call log and result as `Cycle`; `__cycles` grows by exactly one unless the decoder aborted |
| PipelineMachine.Pipeline.RunRound | ca-pa3/main.c:419-422 | one round of the loop: a cycle, and whether the loop stops after it |
| PipelineMachine.Pipeline.RunProgram | ca-pa3/main.c:416-429 | records, call log and cycle ends as `RunFrom` over nr_cycles rounds; `__cycles` grows by the cycles that returned |
| PipelineMachine.Pipeline.Reset | ca-pa3/main.c:520-523 | `__cycles` becomes 0 and pc INITIAL_PC; stages, registers and memory are unchanged |

## Left out

- The REPL front end (`__parse_command`, the rest of `__process_command`, `main`), the display functions (`__show_registers`, `__dump_memory`, `__pipeline_stat`) and the program loaders read text, files or the terminal, so they are not modelled.
- The stage bodies `IF_stage` … `WB_stage` are not part of this model. Only three of their effects are modelled: their calls, the `make_stall` calls they issue, and IF's store of its fetch into `stages[IF]`. Their other effects are not modelled: the pipeline registers, and the registers, memory and pc. Because of this, the fetched word is an input. The model does not tie it to `memory[pc]`.
- The pipeline's drain after the halt word cannot be stated without the stage bodies, so it is not modelled.
- SingleCycleMachine.Machine.RunProgram: `while (1)` is bounded by a fuel parameter, because a program that never reaches the halt word does not terminate.
- PipelineMachine.Pipeline.RunProgram: `nr_cycles == 0` means run to the end, and that case is bounded by a fuel parameter (`CycleLimit`) for the same reason. The "MAXIMUM CYCLES REACHED" message is output and is not modelled.
- PipelineMachine.Pipeline.RunCycle: the `int` counter `__cycles` is unbounded here, and its overflow is not modelled. The per-cycle display calls are not modelled.
- C undefined behaviour is excluded rather than modelled:
  - `lw` and `sw` outside the 1 MiB memory;
  - `sra` with bit 31 set, whose mask shifts by 32 when shamt is 0 and is wrong otherwise;
  - the missing NUL terminator of `hex_value`.
  `Defined` states these conditions. `SingleCycleMachine.Machine.RunProgram` ends with `Fault` before such a word instead of executing it.
- Table lookups past the end of `mips_instruction_set` or `r_type_instructions` are out of bounds in C. The model treats them as missing entries: `unknown_type` for an opcode and a null name for a funct.
- The funct comparisons of pa2 are `strcmp` on the funct buffer. They are modelled on its value, and `BinaryInjective` shows the two agree.
