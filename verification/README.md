# A verified model of the rz-tracetest frame checker

rz-tracetest compares the execution of single instructions in a real trace with their execution
in the RzIL VM of Rizin. For each frame of a trace it sets up a pre-state from the frame's
pre-operands, takes one VM step that yields an event log, and compares in two directions: every
post-operand of the frame has to be found in the VM's state, and every event of the VM has to be
explained by an operand of the frame. A driver loop does this for all frames and keeps statistics.

This project models that checker in Dafny and proves what its answers mean.

| file | content |
|---|---|
| `BitVectors.dfy` | bit vectors as sequences of bits, bytes, numbers of 64 bits |
| `Trace.dfy` | frames, operands and operand sizes |
| `Coverage.dfy` | the loop that decides whether a memory access is explained by memory operands |
| `Registers.dfy`, `Memory.dfy` | register items over bit arenas; a write cache over a fixed base |
| `Vm.dfy` | Rizin as an abstract deterministic machine: disassembly, lifting, one step with its event log |
| `Adapters.dfy` | the twelve trace adapters; classes for the register file and the adapter object |
| `SparcPacked.dfy` | the packed status registers of Sparc |
| `FrameCheck.dfy` | the outcome of one frame, stated declaratively |
| `CodeMemory.dfy` | the code bytes of all frames in memory, for runs without cache reset |
| `Emulator.dfy` | the class `RizinEmulator`, whose loops are proved against `FrameCheck` |
| `AdapterMeaning.dfy` | register values as bits and numbers of the operand's bytes, waived checks, requested bits, names |
| `PreStateMeaning.dfy` | what the pre-state contains |
| `Soundness.dfy` | what a `Success` verdict means |
| `Exactness.dfy` | exactly which bytes and register bits a `Success` verdict determines |
| `EventMeaning.dfy` | exactly which events of a step a frame explains |
| `VerdictMeaning.dfy` | verdict, instruction id and state of every exit, by the condition that leads to it |
| `Agreement.dfy` | `Success` as agreement of the state with the operands' own bytes, in both directions |
| `NullStep.dfy` | no false alarm on a step that changes only the program counter |
| `History.dfy` | verdicts do not depend on earlier frames, and exactly when |
| `Driver.dfy` | the loop over a trace, statistics, coverage and batches |
| `RunMeaning.dfy` | what a run means for each of its frames |
| `CodeRuns.dfy` | runs without cache reset: the code of the trace stays visible |

Notes on the results:

- **Memory accesses.** The interval loop is characterised on all 64-bit inputs, with its sums and
  differences modulo 2^64. For an access of at least one byte that ends below 2^64 the answer is
  coverage by the operands that end below 2^64; for an empty or wrapping access it is the test for
  full containment alone. The comment on the tail case says that the tail is chopped off, but the
  code enlarges the access to the operand's end (rzemu.cpp:95-98). The model follows the code and
  proves that chopping would give the same answer.
- **Variables.** The documentation of the test for variables speaks of containment in the trace
  register (rzemu.cpp:610-612), the code tests for overlap (rzemu.cpp:632). Where a listed variable
  has a bit outside of the listed registers and the program counter, a frame gets `Success` although
  the step changed that bit; where none has, it never does. `ContainmentIsNecessary` and
  `SuccessKeepsUnlistedCellsExactly` say so for all steps.
- **History.** The comment at rzemu.cpp:253-258 says that with the cache reset the effects depend
  only on the frame. The `asm.bits` setting also survives from frame to frame (rzemu.cpp:180-183).
  This matters exactly for PowerPC traces without a machine number, where a frame without a mode
  requests no bits (adapter.cpp:503-508); `IndependenceExactly` and `BatchesAddUpExactly` say so.
- **Masks.** The 32-bit ARM adapter masks the results of `mrs` in the comparison only, so setup and
  comparison do not agree there; `MrsMasksMore` gives the exact condition. On Sparc32 the register
  `ccr` is compared in eight bits, so it never matches with another size; this is part of
  `PackedComparison`.
- **Operands.** The message for an operand has two independent optional parts
  (frame.piqi.proto:25-28). The frame check looks at the register part first, while the explanation
  of a memory access looks at the memory part of every operand. The bytes of an operand with both
  parts explain stores but are never compared. A store that runs into the top of the address space
  is explained by any memory operand that begins at or below it (rzemu.cpp:85).
  `BytePinnedExactly` and `SuccessDeterminesByteExactly` say for each byte, over all steps, when
  `Success` determines it; `DoubleOperandIsNotCompared` is a concrete frame.

## Model

| member | source | states |
|---|---|---|
| Trace.MemOperandSizeBytes | rz-tracetest/trace.h:22-29 | byte k counts if and only if all of its bits are in the value and below the bit length |
| Trace.RegOperandBits | rz-tracetest/rzemu.cpp:287 | bit i of a register value is bit i mod 8 of byte i / 8, as far as the bit length goes |
| Trace.MemOperandValue | rz-tracetest/rzemu.cpp:298 | memory bytes are those of the value, in their order |
| Coverage.MemAccessJustifiedByOperands | rz-tracetest/rzemu.cpp:73-103 | the answer on every 64-bit input is `AccessJustified`; with n memory operands there are at most 2n improvements and 2n+1 passes, so the loop ends even when sums wrap around |
| Coverage.HeadKeepsAnswer | rz-tracetest/rzemu.cpp:90-94 | cutting off an explained head keeps the answer and the end of the access |
| Coverage.TailKeepsAnswer | rz-tracetest/rzemu.cpp:95-99 | enlarging the access to the operand's end keeps the answer and the start of the access |
| Coverage.EndsAboveDrops | rz-tracetest/rzemu.cpp:77-101 | moving up to one operand's end leaves fewer operand ends above, which bounds the improvements |
| Coverage.MemAccessJustifiedByChopping | rz-tracetest/rzemu.cpp:95-98 | the rule of the comment, cutting off the tail, gives the same answer on every input |
| Coverage.ExactIffPlain | rz-tracetest/rzemu.cpp:59-72 | for operands below the top of the address space, the answer is coverage of every byte if and only if the access is not empty and does not reach the top |
| Coverage.ExactIffTopIsRedundant | rz-tracetest/rzemu.cpp:83-95 | for accesses below the top, the answer is coverage if and only if operands that reach the top add no byte of their own |
| Coverage.WrappingOperandIsDropped | rz-tracetest/rzemu.cpp:83-95 | an operand that reaches the top takes part in no decision on an access below the top |
| Coverage.WrappingAccessRefused | rz-tracetest/rzemu.cpp:85-98 | a concrete wrapping access all of whose bytes are in operands and that is refused |
| Coverage.OrderAndRepetitionIrrelevant | rz-tracetest/rzemu.cpp:79-100 | the answer does not depend on the order or repetition of operands |
| Coverage.MoreOperandsJustifyMore | rz-tracetest/rzemu.cpp:79-100 | more operands never turn an explained access into an unexplained one |
| Adapters.BitsSettledExactly | rz-tracetest/adapter.cpp:503-508 | over all modes the requested bits are never zero or always zero, except for PowerPC with machine number 0 modulo 2^32 |
| Adapters.CustomHandlingByRizinName | rz-tracetest/adapter.cpp:255-257 | trace names for the same Rizin register agree on custom handling, for every adapter |
| Adapters.SetupAndComparisonAgree | rz-tracetest/adapter.cpp:530-567 | for every adapter, a value that was applied to a register passes the comparison with itself, except for mrs on 32-bit ARM |
| Adapters.MrsMasksMore | rz-tracetest/adapter.cpp:133-137 | for mrs, setup and comparison agree if and only if the bits that only the comparison masks are zero |
| Adapters.MaskedComparison | rz-tracetest/adapter.cpp:64-78 | where both sides are masked, values of any sizes compare equal if and only if the sizes are equal, except for XER, and all bits agree that are not ignored |
| AdapterMeaning.FlagValue | rz-tracetest/adapter.cpp:120-126 | a flag register of 32-bit ARM, AArch64 or PowerPC gets one bit, which is set if and only if the number in the trace is not zero |
| AdapterMeaning.CutValue | rz-tracetest/adapter.cpp:530-551 | GE, fprs, crf, VRSAVE and the program counter of the GameBoy keep the number modulo a power of two, in the size of the register |
| AdapterMeaning.KeptValue | rz-tracetest/adapter.h:162-170 | a value without a rule is used as it is |
| AdapterMeaning.AdjustedBits | rz-tracetest/adapter.cpp:119-138 | size and each bit of what is applied and compared, in terms of the bits of the operand, for every adapter, name and mnemonic |
| AdapterMeaning.RegOperandNumber | rz-tracetest/rzemu.cpp:287 | the number of a register operand is that of its bytes, least significant first, modulo its bit length |
| AdapterMeaning.ComparisonIsBitwise | rz-tracetest/rzemu.cpp:463-473 | the comparison of a register succeeds if and only if sizes and all bits that are not masked agree with those of the operand |
| AdapterMeaning.WaivedRegisters | rz-tracetest/adapter.cpp:766-778 | the registers that need not match: pc and npc on Sparc, fprs on Sparc32, cpu_id and syscon in any case of letters on TriCore, and no others |
| AdapterMeaning.WaivedProgramCounters | rz-tracetest/adapter.cpp:140-157 | the program counters accepted for another: any on Sparc; on 32-bit ARM those that differ in the lowest bit and five kernel entries; none elsewhere |
| AdapterMeaning.AssumedExactly | rz-tracetest/adapter.cpp:687-718 | the events that need no explanation, by variable, memory region and value |
| AdapterMeaning.RequestedBits | rz-tracetest/adapter.cpp:503-508 | which modes and machines request 16, 32, 64 or no bits, and that PowerPC without a mode and MIPS take the machine number as a signed one of 32 bits |
| AdapterMeaning.SmallNames | rz-tracetest/adapter.cpp:518-528 | the names of 32-bit ARM, AArch64, PowerPC and x86 are in small letters, with the named exceptions |
| AdapterMeaning.KeptNames | rz-tracetest/adapter.cpp:57-62 | Sparc, 8051 and MIPS keep names, VICE renames sr only and the GameBoy pc only |
| AdapterMeaning.CapitalNames | rz-tracetest/adapter.cpp:754-764 | the names of TriCore and Hexagon are in capitals, except for data and address registers of TriCore |
| Adapters.TraceAdapter.CustomRegSetup | rz-tracetest/adapter.cpp:287-302 | the register file after setting up a packed register is that of the field writes, in order |
| Adapters.TraceAdapter.CompareSubreg | rz-tracetest/adapter.cpp:259-285 | the failure flag is raised exactly by a sub-register that does not match, and never lowered |
| Adapters.TraceAdapter.CustomRegCompare | rz-tracetest/adapter.cpp:304-324 | the result is that all sub-registers match, whatever the failure flag was before |
| SparcPacked.PackedComparison | rz-tracetest/adapter.cpp:259-324 | setup from s and comparison with t succeed if and only if s and t agree on every decoded bit that has room in its sub-register and, on Sparc32, ccr has eight bits |
| SparcPacked.PackedComparisonOfDecodedBits | rz-tracetest/adapter.cpp:420-488 | with roomy sub-registers exactly the bits 0-19 and 24-39 (Sparc64) or 0-4 and 20-23 (Sparc32) play a role |
| SparcPacked.StateAfterSetup | rz-tracetest/adapter.cpp:431-454 | after setup from the number n of `state`, cwp, pstate, asi and ccr hold n mod 2^8, n / 2^8 mod 2^12, n / 2^24 mod 2^8 and n / 2^32 mod 2^8, as far as they have room |
| SparcPacked.StateComparison | rz-tracetest/adapter.cpp:456-488 | the comparison of `state` succeeds if and only if the four registers hold these numbers |
| SparcPacked.PsrAfterSetup | rz-tracetest/adapter.cpp:287-302 | after setup from the number n of `psr`, cwp and ccr hold n mod 2^5 and n / 2^20 mod 2^4 |
| SparcPacked.PsrComparison | rz-tracetest/adapter.cpp:304-324 | the comparison of `psr` succeeds if and only if cwp holds its number, ccr has eight bits and its lowest four are the icc bits |
| FrameCheck.OverlapIsBitSharing | rz-tracetest/rzemu.cpp:600-633 | the test on offsets holds if and only if the variable is bound and shares an arena bit with the trace register |
| Emulator.RizinEmulator.constructor | rz-tracetest/rzemu.cpp:26-40 | the initial bits, registers and memory |
| Emulator.RizinEmulator.SetMem | rz-tracetest/rzemu.cpp:105-137 | memory holds the first frame of each address, in order, and the number of bytes written is the sum of their sizes |
| Emulator.RizinEmulator.GetPostOpMap | rz-tracetest/rzemu.cpp:141-159 | the map holds exactly the named registers of the list with the number of their occurrences |
| Emulator.RizinEmulator.SetupPreState | rz-tracetest/rzemu.cpp:250-305 | the pre-state is the declared one; at the first operand of unknown kind it is the one of the operands before it |
| Emulator.CountersCompared | rz-tracetest/rzemu.cpp:467-478 | with exact counters, a counter of at most one means that this is the last occurrence, and the counters stay exact |
| Emulator.RizinEmulator.ComparePostOperand | rz-tracetest/rzemu.cpp:430-498 | a mismatch is reported exactly for a last occurrence that differs, a packed register that differs or memory that differs |
| Emulator.RizinEmulator.ComparePostOperands | rz-tracetest/rzemu.cpp:423-503 | no mismatch if and only if all last occurrences, all packed registers and all memory operands match; the expected program counter is that of the last operand for it, else the address of the next frame, else behind the code |
| Emulator.RizinEmulator.CheckEvents | rz-tracetest/rzemu.cpp:515-592 | an event is reported if and only if some event is neither assumed nor explained by registers and memory of the frame |
| Emulator.RizinEmulator.RunFrame | rz-tracetest/rzemu.cpp:167-598 | verdict, reported instruction id and new state are those of the declarative outcome, on every path |
| CodeMemory.CodeReadsBackExactly | rz-tracetest/rzemu.cpp:105-137 | all code can be read back if and only if all frames agree on shared addresses and no frame has a byte outside of all first writes |
| CodeRuns.SparedByFrame | rz-tracetest/rzemu.cpp:259-262 | without cache reset, a byte that neither pre-operands nor stores of the step set survives the check of a frame, on every path |
| CodeRuns.CodeVisibleToFrame | rz-tracetest/main.cpp:125-144 | without cache reset, each frame of a run is executed in a memory that holds the code of all frames, except where operands and stores overwrote it |
| CodeMemory.FirstWritesSuffice | rz-tracetest/rzemu.cpp:111-133 | if same addresses mean same code and frames agree, leaving out repetitions gives the memory of writing every frame |
| PreStateMeaning.OperandBytesOfPreState | rz-tracetest/rzemu.cpp:296-298 | byte k of the value of the last pre-operand for an address is at that address, with and without cache reset |
| PreStateMeaning.EntryBytesOfPreState | rz-tracetest/rzemu.cpp:253-262 | any other byte is the one that memory held on entry |
| PreStateMeaning.OtherBytesOfPreState | rz-tracetest/rzemu.cpp:253-262 | with the cache reset, every other byte is that of the frame's code or of the base |
| PreStateMeaning.RegistersOfPreState | rz-tracetest/rzemu.cpp:263-295 | a register bit is the one that the bytes of the last pre-operand for it give, plain, flag, cut or packed, else zero |
| PreStateMeaning.PcOfPreState | rz-tracetest/rzemu.cpp:305 | the program counter register holds the address of the frame, as much of it as fits |
| Soundness.SuccessExactly | rz-tracetest/rzemu.cpp:423-597 | Success is returned if and only if the frame reaches its setup, is lifted, and the step passes the declarative comparison |
| Soundness.MemoryAfterPassing | rz-tracetest/rzemu.cpp:481-498 | when a step passes the comparison, a byte that no justified store reaches is unchanged, and at the address of byte k of an operand that is compared there is byte k of its value |
| Soundness.MemoryMeaningOfSuccess | rz-tracetest/rzemu.cpp:481-498 | after Success every byte that is compared has the value of the post-operands for it, and every byte that no justified store reaches is unchanged; bytes that only operands with both parts have get no value |
| Exactness.UncomparedByteCanBeOverwritten | rz-tracetest/rzemu.cpp:573-575 | after a step that passes, any byte that is not compared can be set to any value by one more justified store, and the step still passes |
| Exactness.BytePinnedExactly | rz-tracetest/rzemu.cpp:481-498 | over all steps that pass, with stores below the top or with all stores, a byte stays unchanged or is as listed if and only if it is compared or no justified store reaches it |
| Exactness.SuccessDeterminesByteExactly | rz-tracetest/rzemu.cpp:423-597 | the same for the verdict: over all steps that Rizin might take, Success determines a byte if and only if it is compared or no justified store reaches it |
| Exactness.UnlistedCellCanBeOverwritten | rz-tracetest/rzemu.cpp:559-568 | after a step that passes, a bit of a listed variable outside of the listed registers can be set to any value by one more justified write, and the step still passes |
| Exactness.ContainmentIsNecessary | rz-tracetest/rzemu.cpp:610-633 | over all truthful steps that pass, bits outside of the listed registers and the program counter are kept if and only if every listed variable lies inside of these |
| Exactness.SuccessKeepsUnlistedCellsExactly | rz-tracetest/rzemu.cpp:548-569 | the same for the verdict: over all truthful steps, Success means that unlisted bits are unchanged if and only if every listed variable is contained |
| Exactness.DoubleOperandIsNotCompared | rz-tracetest/rzemu.cpp:430-487 | a concrete frame whose operand has both parts: Success, although the byte has neither its old value nor the one of the operand |
| Soundness.RegistersAfterPassing | rz-tracetest/rzemu.cpp:548-569 | when a step passes the comparison, a register bit outside of post-operands and program counter is unchanged, also with the same-value exemptions |
| Soundness.RegisterMeaningOfSuccess | rz-tracetest/rzemu.cpp:548-569 | after Success every register that the adapter does not ignore has the bits of its last post-operand, and under containment, for adapters that never waive, every register bit outside of post-operands and program counter is unchanged |
| Soundness.LoadsAreListed | rz-tracetest/rzemu.cpp:570-572 | when a step passes, every byte of a load below the top of the address space is a byte of some pre-operand |
| EventMeaning.JustifiedExactly | rz-tracetest/rzemu.cpp:529-581 | an event is justified if and only if the adapter assumes it or the frame explains it: a read by a pre- or post-operand whose register shares a bit, a write by a post-operand or an exemption, memory by the operands of its side |
| EventMeaning.ReadsAreListed | rz-tracetest/rzemu.cpp:529-547 | when a step passes, every variable that it reads and that is not assumed is bound and shares a bit with the register of some pre- or post-operand |
| EventMeaning.OneMoreReadExactly | rz-tracetest/rzemu.cpp:529-572 | after a step that passes, one more read keeps it passing if and only if it is assumed, its variable shares a bit with an operand's register, or its bytes are those of pre-operands |
| EventMeaning.OneMoreEventExactly | rz-tracetest/rzemu.cpp:515-592 | the same for any event that leaves the state as it is |
| EventMeaning.VerdictWithReadExactly | rz-tracetest/rzemu.cpp:583-597 | the same for the verdict: with one more read, Success stays if it is explained or assumed and becomes a mismatch otherwise |
| VerdictMeaning.VerdictExactly | rz-tracetest/rzemu.cpp:167-364 | for each verdict, exactly the frames that get it |
| VerdictMeaning.IdExactly | rz-tracetest/rzemu.cpp:328 | an instruction id is reported if and only if the frame is lifted, whether valid or not |
| VerdictMeaning.EarlyVerdict | rz-tracetest/rzemu.cpp:169-303 | frames that are not set up: verdict and no id; registers and memory are kept when there is no code, no program counter or the frame is skipped |
| VerdictMeaning.UnsteppedVerdict | rz-tracetest/rzemu.cpp:314-342 | frames that are set up and take no step: verdict, id and the pre-state as state |
| VerdictMeaning.SteppedVerdict | rz-tracetest/rzemu.cpp:347-364 | frames that take a step: the verdict of each result of the step, the id, and the state after the step |
| Agreement.SuccessIsAgreement | rz-tracetest/rzemu.cpp:423-597 | a frame gets Success if and only if its step succeeds, its post-operands all name something, and registers, packed registers, memory, program counter and events agree with the bytes of its operands |
| Agreement.ComparisonExactly | rz-tracetest/rzemu.cpp:423-592 | the comparison of a state and an event log succeeds if and only if they agree with the frame |
| Agreement.PcAfterPassing | rz-tracetest/rzemu.cpp:505-513 | when a step passes, the program counter register holds the expected value as far as it fits, or one that the adapter accepts in its place |
| RunMeaning.OutcomeInRun | rz-tracetest/main.cpp:138-144 | each outcome of a run is that of its frame in the state that the frame before it left, with the address of the next frame |
| RunMeaning.SuccessInRun | rz-tracetest/main.cpp:138-148 | a frame of a run gets Success if and only if the state that it leaves agrees with it |
| RunMeaning.PcInRun | rz-tracetest/main.cpp:139-144 | after Success the program counter holds the address of the next frame of the trace, behind the last frame or before one of another kind the end of the code, and with operands for it the number of the last of them |
| RunMeaning.BitsInRun | rz-tracetest/rzemu.cpp:180-183 | the bits setting after a frame is the one that the latest frame with a request asked for |
| RunMeaning.BitsWithoutRequest | rz-tracetest/rzemu.cpp:26-40 | without any request a run keeps the setting of the machine number, else the default |
| Agreement.PcMeaningOfSuccess | rz-tracetest/rzemu.cpp:505-513 | after Success the program counter register holds the expected value as far as it fits; on 32-bit ARM also one that differs in the lowest bit or a kernel entry |
| Soundness.JustifiedStoreIsListed | rz-tracetest/rzemu.cpp:573-575 | every byte of a justified store below the top of the address space is a byte of some post-operand |
| Soundness.JustifiedStoreAtTop | rz-tracetest/rzemu.cpp:85-88 | any other justified store begins at one of the last addresses, at or above the start of some memory operand |
| Soundness.JustifiedWriteIsListed | rz-tracetest/adapter.cpp:782-789 | under containment, a justified write that changes a register bit changes one of a listed register or the program counter, also with the same-value exemptions |
| Soundness.PassingDeterminesState | rz-tracetest/rzemu.cpp:423-597 | with an adapter that compares exactly, any two steps that pass leave the same registers apart from the program counter and the same memory apart from bytes that justified stores reach and nothing compares |
| NullStep.NullStepPasses | rz-tracetest/rzemu.cpp:265-503 | a frame whose post-operands repeat its pre-operands passes when the step changes only the program counter, for every adapter |
| History.OnlyBitsMatter | rz-tracetest/rzemu.cpp:253-263 | with the cache reset, states with the same bits give the same verdict and id and, for a frame that reaches its setup, the same following state |
| History.HistoryIndependence | rz-tracetest/rzemu.cpp:253-305 | any two sequences of earlier frames, including ones that end early, lead to the same verdict and id and, for a frame that reaches its setup, to the same following state |
| History.HistoryCanMatter | rz-tracetest/rzemu.cpp:180-183 | where the requested bits are not settled, an earlier frame can change a verdict |
| History.IndependenceExactly | rz-tracetest/rzemu.cpp:180-183 | verdicts are independent of history for every Rizin if and only if the trace is not one of PowerPC with machine number 0 modulo 2^32 |
| Driver.CheckFrames | rz-tracetest/main.cpp:129-167 | the loop processes frames in order with lookahead, stops where the flags, the count or the trace say, and keeps statistics and coverage exact |
| Driver.CheckTrace | rz-tracetest/main.cpp:129-180 | each counter is the number of frames with its verdict, coverage and total are those of the one run over the trace, and overall success means that every frame got Success |
| Driver.RunTrace | rz-tracetest/main.cpp:124-180 | the same for the program: without cache reset the run starts in a memory with the code of the trace, otherwise in the state of the emulator |
| Driver.RunLength | rz-tracetest/main.cpp:138-164 | the length of a run is that of the frames within the count, up to and including the first whose verdict triggers a stop flag |
| Driver.RunIsUnique | rz-tracetest/main.cpp:138-167 | the conditions on a run leave only one |
| Driver.StatsSumToTotal | rz-tracetest/main.cpp:148-150 | the counters sum to the number of frames |
| Driver.StatsAreCounters | rz-tracetest/main.cpp:148 | each of the eight counters is the number of frames with the verdict of its position |
| Driver.AllSucceededExactly | rz-tracetest/main.cpp:171-180 | overall success means that the counter of successes is the number of frames, and that every frame got Success |
| Driver.RunEndsAtVerdict | rz-tracetest/main.cpp:152-164 | by flag, the verdicts that end a run: only the last frame has one, and a run that ends early has one |
| Driver.CoverageExactly | rz-tracetest/main.cpp:132-147 | the coverage set holds exactly the non-zero ids that were assigned, although the variable for the id is never cleared |
| Driver.BatchesAddUp | rz-tracetest/main.cpp:129-168 | two batches, each with a new emulator, have statistics and coverage that add up to those of one run, also when the first one goes past the end of the trace |
| Driver.BatchesCanDiffer | rz-tracetest/rzemu.cpp:180-183 | where the requested bits are not settled, two batches need not add up |
| Driver.BatchesAddUpExactly | rz-tracetest/main.cpp:129-168 | batches add up for every Rizin and trace if and only if the trace is not one of PowerPC with machine number 0 modulo 2^32 |

## Left out

- The trace container: a trace is a sequence of frames with a cursor; an offset behind the end gives no frame. The reader is not part of this model.
- Rizin itself: disassembly, analysis and the VM step are functions of bits, registers, memory, address and code. The state after a step is the replay of its event log plus the synchronised program counter; that the log is truthful about old values is a hypothesis where it is needed.
- Memory regions other than 0: stores to them are dropped, so the VM has no other memory that survives a frame, and the statements on history rest on that.
- Failing steps: they replay the events that they report; nothing else about their effects is modelled.
- Register values of another size than their register: they are truncated or zero-extended.
- Addresses beyond 2^64: a write that runs over the top of the address space goes to addresses of its own there instead of wrapping around.
- In-place editing of a single bit vector (`AdjustRegContentsFromTrace`, `AdjustRegContentsFromRizin`): functions on values; the vectors have no other user.
- The adapters as classes: one datatype of kinds with functions by case, and one class for the flag that an adapter object carries.
- Constants from headers that are not part of this model: the machine number of x86-64 and the register table of Hexagon are parameters, frame modes are an enumeration.
- Soundness.RegisterMeaningOfSuccess: says nothing about unlisted bits for Hexagon and Sparc, because their adapters waive the justification of some writes that change registers.
- Soundness.MemoryMeaningOfSuccess: stored values have at most 2^32-8 bits, because for longer ones the 32-bit sum in the size of the access overflows; for Hexagon no byte counts as compared, because its adapter does not compare memory.
- Agreement.PcMeaningOfSuccess: does not cover Sparc, because its adapters accept any program counter.
- User interrupts of the driver loop, option parsing, the skip expression (a function on disassembly here), percentages and all output.
