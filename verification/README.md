# A verified model of the x86port recompiler's core

x86port runs 32-bit x86 code by translating basic blocks to ARM64 or
WebAssembly. Much of what makes it fast is an argument that some work may be
left out: flags are derived only when read, a flag store nobody will read is
not emitted, a block jumps straight into the next one, a load after a store is
answered by a register move, many blocks share one WebAssembly module. This
project models those parts and proves that the short form does what the long
form does. Nothing here was executed; every statement is a proof.

The model is in five groups.

- **Flags and translation.** `Words`, `Flags`, `Alu`, `Cond` and `Guest` are the
  interpreter's integer subset: the lazy flag tuple, the operations, the sixteen
  conditions, and registers, memory and faults. `AluUnit` is the same unit as an
  object over its flag state. `A64`, `A64Cond`, `Emitter` and `Translator` are
  the ARM64 backend: a small machine, the emitters, and the translate loop with
  its look-ahead. `EmitterFacts`, `EmitterProof`, `ShiftProof`, `UnaryProof`,
  `MoveProof`, `InsnProof` and `BlockProof` build up to
  `BlockProof.BlockAgrees`. `GuestMeaning` and `EmittedMeaning` say what
  instructions and their emitted code leave, `BlockShape` which instructions a
  block holds, where it stops and which stores it leaves out, `Inlined` which
  code calls a helper or stores flags, and `Judged` what the look-ahead's
  verdicts mean. `WasmCond` is the WebAssembly backend's conditions.
- **Arithmetic.** `FlagMeaning`, `Shifts`, `Rotates`, `BitMoves`, `LimbChains`,
  `Bcd` and `MulDiv` say what the operations are for: every flag of every
  result, bit-at-a-time shifting, rotation, arithmetic on numbers of any length,
  packed decimal, exact products and quotients.
- **Chained dispatch.** `Chain` holds the inline-cache slots and the run header,
  `Dispatch` the reference loop that returns after every block, `Engine` the
  engine that links and chains, proved to be that loop.
- **Module lifetime.** `WasmHost` (the embedder's contract), `Arena`, `Compact`,
  `Book` and `Storage`: publishing, reference counts, the learned ceiling,
  eviction and all-or-nothing compaction.
- **Encoders and tables.** `Forwarding`, `BranchPatch`, `MoveWide`, `Leb`,
  `WasmEmit`, `Profile`.

32-bit words are integers below 2^32 and every wrap-around is written out;
bitwise operations are defined bit by bit. The flags follow section 3.4.3 of
Volume 1 of the Intel 64 and IA-32 Architectures Software Developer's Manual and
the conditions its Appendix B; host conditions follow section C1.2.4 of the Arm
Architecture Reference Manual; integers of the binary format follow section
5.2.2 of the WebAssembly Core Specification.

What the source does step by step in place is a class or a method proved
against a specification function (`Engine`, `Chain`, `ModuleArena`,
`ModuleStorage`, `Encoder`, `BranchBuffer`, `Buffer`, `Profile`, `FlagState`, the translate and
scan loops); what is a table or an expression is a function.

## Where code and promise differ

Each of these is proved with its exact condition.

- LEA through FS or GS: the interpreter adds the segment base
  (`src/x86port/exec.c:312-321`), the ARM64 translator does not
  (`src/x86port/jit_arm64.c:425-428`). They agree exactly when the base is zero
  (`MoveProof.LeaAgreesExactly`), and `BlockProof.BlockAgrees` assumes it of a
  block's LEAs.
- The emitted bounds check and the interpreter's check agree on every address
  exactly when the mapping does not run past 2^32, or is too small for the
  access (`A64.BoundsCheckExact`).
- Eviction tells the engine nothing about a block that reaches 2^32
  (`src/x86port/jit_storage_wasm.c:398-400`): the entry is forgotten exactly
  when the block ends below it (`Engine.ForgetsExactly`). The run theorem
  assumes that nothing is evicted or that no block ends there.
- A load straight after a store of the same place reads the stored word back,
  which is what forwarding takes for granted, exactly when the base is not the
  scratch register or the displacement fits the instruction
  (`Forwarding.ForwardingExactly`).
- An access through a base and any 32-bit displacement reaches their sum
  exactly when the base is not X9 or the displacement is not wide: a wide one
  is taken through X9, which loses a base held there
  (`Forwarding.ReachesExactly`).
- The profile table holds as many addresses as its header promises exactly for
  hints up to 2^29 (`Profile.HintIsHeldExactly`).

## Model

| member | source | states |
|---|---|---|
| Flags.WordRoundTrip | src/x86port/flags.c:254-293 | the word built from six flags has exactly those six flags in it |
| Flags.SameFlags | src/x86port/flags.c:57-65 | no flag reader can tell apart two tuples that differ only in a `carry_in` the kind does not read |
| Flags.AddMeaning | src/x86port/flags.c:123-220 | after ADD, CF is the carry out of the true sum and OF says the signed sum did not fit |
| Flags.SubMeaning | src/x86port/flags.c:123-220 | after SUB, CF is the borrow and OF says the signed difference did not fit |
| Flags.IncDecMeaning | src/x86port/flags.c:175-220 | the separate OF rules of INC and DEC are signed overflow of adding and subtracting one |
| Flags.AdcMeaning | src/x86port/flags.c:295-328 | ADC's eager word: result and CF together are the true sum with the carry in, OF the signed failure to fit |
| Flags.SbbMeaning | src/x86port/flags.c:330-363 | SBB's eager word: the same for the difference and the borrow |
| Flags.LazyIsEager | src/x86port/flags.c:82-252 | the six flags derived lazily after ADD and SUB are those computed eagerly by ADC and SBB with no carry in |
| Alu.BinaryCongruent | src/x86port/alu.c:65-208 | no operation's result or later flags depend on a dead `carry_in` |
| Alu.UnaryCongruent | src/x86port/alu.c:210-245 | the same for NOT, NEG, INC and DEC |
| Cond.LazyConditionIsEager | src/x86port/cond.c:14-109 | each of the sixteen conditions read off the lazy state is the one read off the materialised word |
| Cond.NegateIsNot | src/x86port/cond.c:65-109 | paired conditions are complements in every state |
| Cond.ComparisonMeans | src/x86port/cond.c:65-109 | after CMP each of the sixteen conditions is the signed, unsigned, sign, overflow or parity comparison it is named for |
| FlagMeaning.WordByBits | src/x86port/flags.c:254-293 | the flags word has each flag at its own bit, bits 1 and 9 set and every other bit clear |
| FlagMeaning.ReadersAgree | src/x86port/flags.c:82-252 | each flag read by itself is the one in the word, and where nothing was recorded all six are clear |
| FlagMeaning.AddsExactly | src/x86port/alu.c:65-113 | ADD and ADC leave the exact sum at the width, and CF, OF, AF, ZF, SF and PF are the carry out, the signed overflow, the digit carry, and the zero, sign and low parity of the result |
| FlagMeaning.SubtractsExactly | src/x86port/alu.c:65-113 | SUB, CMP and SBB: the same with the difference and the borrows |
| FlagMeaning.CombinesBits | src/x86port/alu.c:65-97 | AND, TEST, OR and XOR leave the bitwise result with CF, OF and AF clear and the other three flags the value's |
| FlagMeaning.CountsExactly | src/x86port/alu.c:210-245 | NEG is subtraction from zero with all its flags; INC and DEC are addition and subtraction of one with CF kept |
| FlagMeaning.ShiftFlags | src/x86port/flags.c:123-252 | after a shift by a nonzero count CF is the bit shifted out last, ZF, SF and PF the result's, and OF of a count of one says that the sign changed |
| FlagMeaning.RotateOverflow | src/x86port/alu.c:148-202 | after ROL, ROR, RCL and RCR by a nonzero count OF is as each defines it, for a count of one that the sign changed, and only CF and OF are touched |
| FlagMeaning.ZeroCountKeeps | src/x86port/alu.c:114-202 | a shift or rotate whose five-bit count is zero leaves value and flags |
| Guest.WriteRegReads | src/x86port/cpu.c:38-91 | a register write is read back at its width, the high byte registers included |
| Guest.WriteRegKeeps | src/x86port/cpu.c:63-91 | a narrow write changes no other byte register and no upper half |
| Guest.WriteMemBytes | src/x86port/memory.c:275-286 | a little-endian write changes exactly the bytes it touches |
| Guest.WriteMemReads | src/x86port/memory.c:261-286 | a memory write is read back at its width |
| Guest.SahfUndoesLahf | src/x86port/cpu.c:145-155 | SAHF takes back the five flags LAHF put in AH, and keeps OF |
| GuestMeaning.AddressIsTheSum | src/x86port/exec.c:49-82 | an effective address is displacement, base, scaled index (its low byte alone where asked) and the FS or GS base, summed modulo 2^32 |
| GuestMeaning.InRangeExactly | src/x86port/memory.c:261-286 | an access is admitted exactly when every byte of it is mapped |
| GuestMeaning.AluLeaves | src/x86port/exec.c:259-275 | an ALU instruction with readable operands leaves the unit's flags and result; CMP and TEST leave every register and byte; one that cannot be read changes nothing |
| GuestMeaning.UnaryLeaves | src/x86port/exec.c:277-286 | the same for NOT, NEG, INC and DEC, which always write |
| GuestMeaning.MovesLeave | src/x86port/exec.c:288-295 | MOV copies and SETcc writes 1 or 0 to one byte, neither touches a flag, and either faults without effect |
| GuestMeaning.LeaLeaves | src/x86port/exec.c:312-321 | LEA writes the address, reads no memory, cannot fault and touches no flag |
| GuestMeaning.BranchesLeave | src/x86port/exec.c:444-463 | branches and NOP change EIP alone, to the target exactly when taken |
| GuestMeaning.LahfLeaves | src/x86port/cpu.c:145-155 | LAHF puts the low byte of the flags word in AH and nothing anywhere else |
| GuestMeaning.SahfLeaves | src/x86port/cpu.c:145-155 | SAHF takes five flags from the bits of AH and keeps OF |
| BitMoves.LogicByBits | src/x86port/alu.c:65-97 | every bit of AND, OR, XOR and TEST is that operation on the operands' bits |
| BitMoves.NotByBits | src/x86port/alu.c:210-217 | NOT turns every bit of the width and no flag |
| BitMoves.RolIsRotation | src/x86port/alu.c:148-172 | ROL carries bit i to bit i + count, round the width |
| BitMoves.RorIsRotation | src/x86port/alu.c:148-172 | ROR is the opposite rotation |
| BitMoves.RorUndoesRol | src/x86port/alu.c:148-172 | ROR undoes ROL by the same count, multiples of the width included |
| BitMoves.RotateFlags | src/x86port/alu.c:148-172 | CF is the bit that went round last, only CF and OF change, and a zero count changes nothing |
| AluUnit.FlagState.Set | src/x86port/flags.c:29-65 | recording reads the old CF before it overwrites the tuple that holds it |
| AluUnit.FlagState.SetCfOfOnly | src/x86port/alu.c:59-63 | a rotate replaces two flags of the materialised word and keeps four |
| AluUnit.FlagState.RotateLoop | src/x86port/alu.c:173-202 | the loop over value and carry is that many single-bit rotations |
| AluUnit.FlagState.Apply | src/x86port/alu.c:65-208 | every binary operation in place gives the specified result and flag state |
| AluUnit.FlagState.ApplyUnary | src/x86port/alu.c:210-245 | the same for the unary operations |
| AluUnit.FlagState.Multiply | src/x86port/alu.c:261-275 | both halves and CF and OF, as specified by `MulDiv.Mul` |
| AluUnit.FlagState.MultiplySigned | src/x86port/alu.c:277-302 | both halves and CF and OF, as specified by `MulDiv.Imul` |
| MulDiv.MulIsExact | src/x86port/alu.c:257-275 | the halves are the exact product, CF and OF say the upper half is needed, the other four flags stay |
| MulDiv.ImulIsExact | src/x86port/alu.c:277-302 | the halves are the exact signed product, CF and OF say it does not fit the lower half |
| MulDiv.DivIsExact | src/x86port/alu.c:304-332 | refused exactly for a zero divisor or an upper half that reaches it, otherwise exact quotient and remainder |
| MulDiv.IdivIsExact | src/x86port/alu.c:334-373 | refused exactly when there is no quotient toward zero that fits, otherwise that quotient and its remainder |
| MulDiv.DivUndoesMul | src/x86port/alu.c:261-332 | dividing a product by one factor gives the other, remainder zero |
| MulDiv.IdivUndoesImul | src/x86port/alu.c:277-373 | the same for the signed operations, whether or not the product fit |
| Shifts.ShlMeaning | src/x86port/alu.c:114-147 | SHL multiplies by two to the count at the width, counts past the width included |
| Shifts.ShrMeaning | src/x86port/alu.c:114-147 | SHR divides by two to the count |
| Shifts.SarMeaning | src/x86port/alu.c:114-147 | SAR divides the signed reading by two to the count, rounding down |
| Shifts.ShiftIsSteps | src/x86port/flags.c:148-169 | result and lazily derived CF are those after that many single-bit shifts, for every count and width |
| Rotates.LeftIsRotation | src/x86port/alu.c:173-202 | RCL moves bit i of CF and operand together to bit i + count, round width + 1 |
| Rotates.RightIsRotation | src/x86port/alu.c:173-202 | RCR is the opposite rotation |
| Rotates.RightUndoesLeft | src/x86port/alu.c:173-202 | RCR undoes RCL, CF included |
| Rotates.CountReduces | src/x86port/alu.c:173-202 | reducing the count modulo width + 1 changes nothing |
| Rotates.RotateThroughIsSteps | src/x86port/alu.c:173-202 | the unit's RCL and RCR are single-bit steps, as many as the unreduced five-bit count |
| LimbChains.SkipKeepsCarry | src/x86port/alu.c:218-236 | any number of INC, DEC and NOT leave CF as they found it |
| LimbChains.SkipRunsEach | src/x86port/alu.c:210-245 | those instructions are all run, in order |
| LimbChains.AdcChainIsExact | src/x86port/alu.c:99-113 | an ADC chain over any number of limbs gives the exact sum, CF the final carry |
| LimbChains.SbbChainIsExact | src/x86port/alu.c:99-113 | an SBB chain gives the exact difference, CF the final borrow |
| Bcd.Adjust | src/x86port/bcd.c:68-200 | every decimal instruction leaves the specified AL, AH and flags, and only AAM by zero is refused |
| Bcd.AdjustUnpacked | src/x86port/bcd.c:134-166 | AAA and AAS as written, AX adjusted as a whole and SF taken from it before AL loses its high digit |
| Bcd.AdjustDecimal | src/x86port/bcd.c:76-133 | DAA and DAS as written, adjusting AL and the flags in turn, give the specified AL and flags |
| Bcd.AdjustsByDigits | src/x86port/bcd.c:76-133 | for any AL and flags, packed or not: what DAA and DAS take, both tests on the AL found, every flag, OF the signed overflow of the last adjustment |
| Bcd.AdjustsUnpacked | src/x86port/bcd.c:134-166 | for any AX: AAA and AAS move AX by 0x106 exactly when the low digit or AF calls for it, and every flag after |
| Bcd.AamDivides | src/x86port/bcd.c:167-178 | AAM leaves quotient and remainder of AL with the remainder's flags, and is refused exactly for a zero divisor |
| Bcd.AadAdds | src/x86port/bcd.c:179-191 | AAD is the byte addition of AL and AH times the base, all six flags of it, and clears AH |
| Bcd.DaaIsExact | src/x86port/bcd.c:76-133 | ADC then DAA adds packed-decimal bytes, CF the decimal carry |
| Bcd.DasIsExact | src/x86port/bcd.c:76-133 | SBB then DAS subtracts packed-decimal bytes, CF the decimal borrow |
| Bcd.DecimalChainIsExact | src/x86port/bcd.c:76-133 | packed-decimal strings of any length: exact sum or difference, CF the final carry or borrow |
| Bcd.AaaIsExact | src/x86port/bcd.c:134-166 | AAA after adding two digits: the low digit in AL, the carry in AH and CF |
| Bcd.AasIsExact | src/x86port/bcd.c:134-166 | AAS after subtracting two digits: the digit in AL, the borrow from AH and in CF |
| Bcd.AadUndoesAam | src/x86port/bcd.c:167-191 | AAD puts together what AAM took apart, for every nonzero divisor |
| A64.BoundsCheckExact | src/x86port/jit_arm64.c:363-378 | the emitted check admits the interpreter's addresses exactly when the mapping stays below 2^32 or is too small |
| A64Cond.AlignedCmp | src/x86port/jit_arm64_cond.c:280-306 | comparing operands shifted to the top of the register sets the narrow subtraction's flags, C inverted |
| A64Cond.AlignedCmn | src/x86port/jit_arm64_cond.c:280-306 | CMN of aligned operands sets the narrow addition's flags |
| A64Cond.FoldedParity | src/x86port/jit_arm64_cond.c:265-278 | three folds and a test of bit 0 compute PF of the low byte |
| A64Cond.LoweringIsExact | src/x86port/jit_arm64_cond.c:308-380 | wherever the lowering accepts, the emitted flags read with the chosen host condition are x86p_cond, wherever a, b and r are held |
| A64Cond.RefusedExactly | src/x86port/jit_arm64_cond.c:50-262 | the kinds and conditions left to the helper call, exactly |
| WasmCond.CondCodeIsExact | src/x86port/jit_wasm_cond.c:85-416 | for Sub, Logic, Add, Inc and Dec, every width and condition, the code pushes x86p_cond's 0 or 1 on an otherwise unchanged stack |
| WasmCond.BackendsAgree | src/x86port/jit_wasm_cond.c:369-416 | wherever both backends inline a condition they give the same answer |
| EmitterProof.FoldIsExact | src/x86port/emit_arm64.c:351-368 | an ADD or SUB immediate turned into the opposite operation on its negation computes the same word |
| EmitterProof.FoldsExactly | src/x86port/emit_arm64.c:351-368 | the immediate chosen fits its twelve-bit field, and dead ADD, SUB and CMP do without a register exactly when the value or a small negation of it fits |
| EmitterProof.RunPlain | src/x86port/jit_arm64_integer.c:142-240 | ADD, SUB, CMP, AND, OR, XOR and TEST emitted inline end as the interpreter's, faults included |
| EmittedMeaning.EmittedAluLeaves | src/x86port/jit_arm64_integer.c:142-484 | emitted ALU code leaves the unit's result in its destination and nothing elsewhere; emitted CMP and TEST leave every register and byte; an operand out of range leaves all but EIP |
| ShiftProof.HostMatchesShift | src/x86port/jit_arm64_integer.c:242-301 | the 32-bit host shift of the masked or sign-extended operand, masked again, is the narrow shift |
| ShiftProof.RunShift | src/x86port/jit_arm64_integer.c:242-301 | an inline shift ends as the interpreter's, a run-time count of zero included |
| UnaryProof.RunComputeCarry | src/x86port/jit_arm64_integer.c:84-119 | the inline carry-in for a tracked kind is x86p_flag_cf of the tuple in memory |
| UnaryProof.RunCounting | src/x86port/jit_arm64_integer.c:405-484 | INC and DEC read the old CF before an access that may fault and store it only after |
| MoveProof.LeaAgreesExactly | src/x86port/exec.c:312-321 | the translator's address is the interpreter's if and only if the segment base is zero |
| MoveProof.RunSetcc | src/x86port/jit_arm64_cond.c:441-453 | SETcc stores the interpreter's condition or faults without effect |
| MoveProof.RunJcc | src/x86port/jit_arm64_cond.c:405-439 | Jcc leaves the block at the interpreter's next EIP, however its condition was obtained |
| InsnProof.RunInsn | src/x86port/jit_arm64.c:844-1012 | every translated instruction ends as the interpreter's: same fault, or same state, flags included unless their store was left out |
| InsnProof.TrackingKept | src/x86port/jit_arm64.c:844-1012 | what the translator knows of kind and width stays true of the tuple in memory, elided stores included |
| Inlined.InlinedExactly | src/x86port/jit_arm64_integer.c:84-484 | the code of an instruction calls a shared helper exactly for rotates, operations with a carry, LAHF, SAHF and a carry or condition the tracked kind does not settle, and stores a flag tuple exactly where it writes one that is not dead |
| Inlined.BranchInlinedExactly | src/x86port/jit_arm64_cond.c:405-439 | a conditional branch calls the helper exactly for a condition the tracked kind does not settle |
| Inlined.KnowsWhatIsStored | src/x86port/jit_arm64.c:844-1012 | after an instruction that stores its tuple the translator knows the tuple's kind and width and holds its operands in registers for the next |
| Translator.FlagWriteIsDead | src/x86port/jit_flag_liveness.c:23-95 | the scanning loop computes the specified look-ahead |
| Translator.EmitLoop | src/x86port/jit_arm64.c:748-1024 | the emit loop computes the specified instructions, elisions and stops |
| Translator.TranslateBlock | src/x86port/jit_arm64.c:688-1090 | the whole translation: the loop, and the refusals of a broken bound, a full buffer and an empty block |
| Translator.BudgetSuffices | src/x86port/jit_arm64.c:763-765 | the room kept before each instruction leaves room for the tail after the last |
| Translator.RefusedForItsBounds | src/x86port/jit_arm64.c:1057-1080 | so a nonempty finished block is refused exactly when its tail is past its bound |
| Translator.LookAheadAgrees | src/x86port/jit_flag_liveness.c:31-60 | where the scan says dead, the loop reaches and emits the killing instruction in the same block |
| Translator.EveryDeadStoreIsKilled | src/x86port/jit_flag_liveness.c:23-95 | every store left out of any block is followed there by an instruction that rewrites all six flags, with nothing between that reads them or faults |
| BlockShape.BlockIsItsInstructions | src/x86port/jit_arm64.c:748-1072 | a block holds the instructions decoded in turn from its address, at most 64, each emittable, none after the first at an interception point, each with room; and it ends with its branch or because the next address is such a point, cannot be fetched, decoded or emitted, or has no budget or room left |
| BlockShape.RefusedForTheFirst | src/x86port/jit_arm64.c:748-805 | a fetch fault, an undecodable or an unsupported instruction is reported exactly when it is the first |
| BlockShape.RefusedForSpace | src/x86port/jit_arm64.c:688-1090 | a translation is out of space exactly when its prologue, the code of an instruction it comes to or its tail is longer than its bound, or the tail does not fit |
| BlockShape.ScanIsOverwritten | src/x86port/jit_flag_liveness.c:23-95 | the scan says dead exactly when within eight instructions one rewrites every flag, all up to it would be emitted, and all before it are passed over |
| BlockShape.BlockLeavesOut | src/x86port/jit_flag_liveness.c:23-95 | the stores a block leaves out are exactly those of its instructions for which that holds |
| Judged.KillsExactly | src/x86port/jit_flag_liveness.c:8-95 | of the instructions the gate lets through, the scan takes for killers exactly those that never fault and leave flags independent of the flags before |
| Judged.PassesExactly | src/x86port/jit_flag_liveness.c:8-95 | and passes over exactly those, ALU operations apart, that never fault, leave the flags alone and do the same whatever they are |
| BlockProof.BodyCongruent | src/x86port/flags.c:57-65 | an instruction run on states that differ in a dead `carry_in` ends alike |
| BlockProof.SkippedCongruent | src/x86port/jit_flag_liveness.c:8-95 | what the scan passes over cannot fault or read flags, and the killer's flags depend on none it found |
| BlockProof.LoopAgrees | src/x86port/jit_arm64.c:840-1012 | from any instruction of a block on, translated code and interpreter end alike, with flags live or awaiting their killer |
| BlockProof.BlockAgrees | src/x86port/jit_arm64.c:688-1090 | a translated block with its dead stores removed ends with the interpreter's registers, memory, EIP and flags at its end, branch or fault |
| Chain.Chain.Claim | src/x86port/jit_chain.c:54-61 | the next free slot, unlinked, others untouched; none when all are claimed |
| Chain.Chain.UnlinkAll | src/x86port/jit_chain.c:103-105 | every claimed slot unlinked and still claimed |
| Chain.Chain.Reset | src/x86port/jit_chain.c:107-110 | every slot unlinked and returned |
| Dispatch.PlainAccounting | src/x86port/jit_engine.c:716-898 | steps are blocks entered plus interceptions handled, and never exceed the limit |
| Dispatch.ConsumerIsAskedFirst | src/x86port/jit_engine.c:716-898 | where the consumer intercepts, no block is entered: what it declines ends the run there, what it handles counts a step |
| Dispatch.CachedIsEntered | src/x86port/jit_engine.c:716-898 | a cached block nobody intercepts is entered, and the run goes on where it left, with what its run rewrote dropped |
| Dispatch.MissIsTranslated | src/x86port/jit_engine.c:716-898 | a miss is translated and entered, retried once for space, or ends the run with the translator's status |
| Dispatch.TranslatesOrSays | src/x86port/jit_engine.c:582-667 | translating succeeds exactly with code at a free address and a table that is not full, and otherwise says why |
| Dispatch.RoomAsNeeded | src/x86port/jit_engine.c:548-577 | with room and two slots nothing is evicted; without slots, or when an eviction frees nothing, everything goes |
| Dispatch.SitesAreFresh | src/x86port/jit_chain.c:54-61 | a block's exits take the slots after those claimed, each its own, as far as they go |
| Dispatch.RecordedUnderItsAddress | src/x86port/jit_engine.c:582-667 | a translation is entered under its own address, guarded exactly where the consumer may take over, and every other entry stays |
| Dispatch.OverlapsExactly | src/x86port/jit_engine.c:230-266 | the overlap test of a block and a range holds exactly when they share a guest byte |
| Dispatch.ForgetsOnly | src/x86port/jit_engine.c:548-577 | evicting takes the code of exactly the blocks named |
| Engine.DropsExactly | src/x86port/jit_engine.c:230-266 | after a range is dropped exactly the entries and translations that cover none of its bytes are left, unchanged |
| Engine.ForgetsWhatItCovers | src/x86port/jit_storage_wasm.c:390-402 | evicting a block forgets exactly the entries that cover one of its bytes, when it ends below 2^32, and exactly its code |
| Engine.ForgetsExactly | src/x86port/jit_storage_wasm.c:390-402 | an evicted block's entry is forgotten if and only if the block ends below 2^32 |
| Engine.TransferIsDispatch | src/x86port/jit_engine.c:716-741 | entering an unguarded translation away from the stop address is what the dispatcher would do |
| Engine.Engine.InvalidateAll | src/x86port/jit_engine.c:495-538 | translations, links and slots go together, coherence kept |
| Engine.Engine.DropRange | src/x86port/jit_engine.c:230-266 | exactly the entries and translations that share a byte with the range go, the rest stay as they were, `dropped` says whether an entry went, and every link goes exactly then |
| Engine.Engine.EvictForRoom | src/x86port/jit_engine.c:548-577 | ends with room and free slots for a block, coherence kept |
| Engine.Engine.Translate | src/x86port/jit_engine.c:582-667 | records a translation under its address, or leaves a coherent engine |
| Engine.Engine.LinkPending | src/x86port/jit_engine.c:676-683 | the slot of the pending exit is filled with the live unguarded translation of its address, unless it was returned or flushed since, and no other slot changes |
| Engine.Engine.TransferChecks | src/x86port/jit_arm64_branch.c:54-64 | a transfer only away from the stop address and with budget left, the budget stepped once |
| Engine.Engine.RunOne | src/x86port/jit_arm64_branch.c:78-151 | a block and its exit: on to the translation the dispatcher would enter exactly when the exit's slot or the front array leads there and the checks pass, otherwise back to it with that slot pending |
| Engine.Engine.CallEntry | src/x86port/jit_arm64_branch.c:54-151 | the transfers counted are those made, and the dispatcher would have entered the same blocks |
| Engine.Engine.ApplyRewrite | src/x86port/jit_engine.c:236-266 | while a block runs, a range drops exactly what shares a byte with it and a flush everything, and every slot its exits may name stays claimed or unlinked |
| Engine.Engine.Run | src/x86port/jit_engine.c:686-900 | linking and chaining enter the same blocks and end with the same state, status and steps as returning after every block |
| WasmHost.AdoptOk | src/x86port/jit_wasm_host.c:148-164 | adopting keeps every table entry running a body of the one module that owns it |
| WasmHost.AdoptMoves | src/x86port/jit_wasm_host.c:148-164 | adopting puts the new module's body behind the entry and moves its ownership, nothing else |
| WasmHost.ResolveGives | src/x86port/jit_wasm_host.c:118-133 | resolving gives the entry a body has, or a vacant one that then runs it, or none |
| WasmHost.ReleaseOk | src/x86port/jit_wasm_host.c:166-179 | releasing takes a module's own entries and no others |
| Arena.PublishSound | src/x86port/jit_wasm_arena.c:67-158 | publishing keeps the free list exactly the dead slots, whatever the engine answers |
| Arena.ReleaseSound | src/x86port/jit_wasm_arena.c:215-241 | so does releasing |
| Arena.CeilingKept | src/x86port/jit_wasm_arena.c:130-158 | a ceiling in force leaves no room, through learning, publishing and retiring |
| Arena.ReleasingAllRetires | src/x86port/jit_wasm_arena.c:215-251 | however it was learned, a ceiling is gone once everything is released |
| Arena.ModuleArena.Publish | src/x86port/jit_wasm_arena.c:67-158 | the token handed out exactly when there is room and a dead slot and the engine takes the module; a refusal by the engine leaves a ceiling of at most the modules then live, with a sixteenth of headroom, any other refusal the ceiling there was |
| Arena.ModuleArena.Adopt | src/x86port/jit_wasm_arena.c:181-213 | an entry moved exactly when both modules are live and the target has the body |
| Arena.ModuleArena.Release | src/x86port/jit_wasm_arena.c:224-241 | one live token dropped, anything else ignored, and the ceiling retired exactly when its headroom has come free |
| Arena.ModuleArena.ReleaseAll | src/x86port/jit_wasm_arena.c:243-251 | nothing live and no ceiling afterwards |
| Compact.MovedFacts | src/x86port/jit_wasm_compact.c:150-200 | after any number of adoptions: which module owns and runs every entry |
| Compact.MoveBack | src/x86port/jit_wasm_compact.c:150-200 | adopting an entry back undoes the last adoption |
| Compact.PublishedThenReleased | src/x86port/jit_wasm_compact.c:150-200 | publishing and releasing leaves slots, modules and table as they were |
| Compact.Compact | src/x86port/jit_wasm_compact.c:93-220 | shared exactly when a batch of live modules lowers to the same ranges, exits and leaf sites, the module is taken and every body adopted: then every entry runs the matching body of the new module and the old modules are gone; otherwise slots, modules and table are exactly as before |
| Book.AddBalances | src/x86port/jit_storage_wasm.c:228-236 | recording a block keeps every count and sum, and pending blocks distinct sole owners |
| Book.DropBalances | src/x86port/jit_storage_wasm.c:240-273 | dropping a block keeps them |
| Book.ShareBalances | src/x86port/jit_storage_wasm.c:338-357 | passing the pending blocks to one module keeps them |
| Book.MovingGivesBack | src/x86port/jit_storage_wasm.c:338-357 | moving the pending blocks gives back exactly the bytes of the modules left with none |
| Storage.ModuleStorage.DropBlock | src/x86port/jit_storage_wasm.c:240-273 | one record cleared, its module's count down by one and its bytes given back with the last |
| Storage.ModuleStorage.ModuleToEmpty | src/x86port/jit_storage_wasm.c:370-380 | the first module with blocks from the cursor on, round robin, the cursor left after it; none exactly when there is none |
| Storage.ModuleStorage.Evict | src/x86port/jit_storage_wasm.c:382-409 | exactly one module's blocks go, bytes are freed, and the engine is told exactly the ranges ending below 2^32, nothing exactly when no module has blocks |
| Storage.ModuleStorage.Invalidate | src/x86port/jit_storage_wasm.c:411-422 | exactly the overlapping blocks go |
| Storage.WithoutExactly | src/x86port/jit_storage_wasm.c:411-422 | a record goes exactly when its block shares a byte with the range |
| Storage.ModuleStorage.Reset | src/x86port/jit_storage_wasm.c:160-168 | nothing live, held, pending or learned |
| Storage.ModuleStorage.MakeRoom | src/x86port/jit_engine.c:548-577 | the evict-or-flush loop ends with room, whichever limit was hit: one module at a time, nothing where there was room, and a flush only once no block is left |
| Storage.ModuleStorage.ShareAModule | src/x86port/jit_storage_wasm.c:284-357 | the waiting blocks move to one module, charged its bytes while those left empty give back theirs, exactly when the compactor can share them; otherwise nothing moves and nothing is charged |
| Storage.ModuleStorage.Publish | src/x86port/jit_storage_wasm.c:424-485 | a block is recorded exactly when a record is free, the attempt lowers and the arena and the host take the module, in the first free record, charged its own bytes, with the batch then shared or not; every other record is kept but for the module it names |
| Forwarding.Encoder.EmitLoad32 | src/x86port/emit_arm64.c:220-227 | a load is omitted, moved or emitted as specified |
| Forwarding.Encoder.BindAt | src/x86port/emit_arm64.c:791-805 | binding a branch to the end of a store forgets the store, and nothing else does (the word itself: `BranchPatch`) |
| Forwarding.ForwardingIsSound | src/x86port/emit_arm64.c:220-235 | along every control path forwarded code computes the memory and flags of code with every load kept, and the registers as far as each place needs them: low half, all bits, or zero-extended |
| Forwarding.AnsweredExactly | src/x86port/emit_arm64.c:220-235 | a load is answered by a move, or by nothing when its register holds the word, exactly when the last instruction appended was a store of the same place and no branch can arrive in between |
| Forwarding.RunsWhatWasAppended | src/x86port/emit_arm64.c:128-235 | up to the next branch, running the calls is running the instructions the encoder appended, in order |
| Forwarding.FitsExactly | src/x86port/emit_arm64.c:128-180 | the displacements one access or one addition reaches are exactly those its twelve-bit field can say |
| Forwarding.ExitKeepsToIt | src/x86port/jit_arm64_branch.c:78-91 | a register that holds a flag operand and then the run header is within the discipline |
| BranchPatch.PatchReadsBack | src/x86port/emit_arm64.c:800-844 | in all three layouts an offset in range is read back from the patched word, whose other bits stay |
| BranchPatch.PatchesEveryBranch | src/x86port/emit_arm64.c:731-844 | for B, BL, B.cond, CBZ, CBNZ, TBZ and TBNZ written from their base opcodes and fields, patching an offset gives the instruction with that offset, and is possible exactly within that instruction's own range |
| BranchPatch.BranchBuffer.BindTo | src/x86port/emit_arm64.c:800-844 | every kind of branch goes to its target, every branch bound before still goes to its own, and a target out of that instruction's reach overflows, exactly |
| Forwarding.ReachesExactly | src/x86port/emit_arm64.c:150-211 | base plus displacement is reached in every state if and only if the base is not X9 or the displacement is not wide |
| Forwarding.ZeroStored | src/x86port/emit_arm64.c:220-235 | a store of the zero register leaves zeros |
| Forwarding.ForwardingExactly | src/x86port/emit_arm64.c:156-235 | a load after a store of the same place reads the word back in every state if and only if the base is not the scratch register or the displacement fits |
| MoveWide.MoveImm64 | src/x86port/emit_arm64.c:67-90 | the moves leave exactly the constant, one for each nonzero chunk |
| Leb.UnsignedRoundTrip | src/x86port/emit_wasm.c:68-77 | decoding undoes the unsigned encoding, whatever follows |
| Leb.SignedRoundTrip | src/x86port/emit_wasm.c:88-107 | decoding undoes the signed encoding, sign included |
| Leb.UnsignedShortest | src/x86port/emit_wasm.c:68-77 | no other encoding of the value is shorter |
| Leb.SignedShortest | src/x86port/emit_wasm.c:88-107 | the same for signed values |
| Leb.UnsignedLength | src/x86port/emit_wasm.c:68-77 | n bytes suffice exactly below 128^n |
| Leb.PaddedRoundTrip | src/x86port/emit_wasm.c:135-166 | a five-byte slot decodes to the 32-bit size patched into it |
| WasmEmit.LayoutIsExact | src/x86port/emit_wasm.c:121-166 | in well-bracketed output every slot, at every depth, decodes to the exact length of its contents, and every body and block ends in its END |
| WasmEmit.Buffer.BodyEnd | src/x86port/emit_wasm.c:249-257 | a body gets its END and then its size, the END counted |
| WasmEmit.Buffer.PutU32 | src/x86port/emit_wasm.c:68-77 | the loop appends exactly the unsigned encoding, or overflows for good |
| WasmEmit.Buffer.PutSigned | src/x86port/emit_wasm.c:88-107 | the loop appends exactly the signed encoding |
| WasmEmit.Buffer.SizeEnd | src/x86port/emit_wasm.c:135-166 | only the slot's five bytes change, to the length of what follows it |
| WasmEmit.Buffer.Emit | src/x86port/emit_wasm.c:121-166 | sections, bodies and blocks opened and closed in place give the specified layout, and the encoder calls itself sound afterwards exactly when it was and everything fits |
| Profile.HoldsTheAdmitted | src/x86port/jit_profile.c:72-103 | the addresses held are exactly those first hit before the table was full |
| Profile.CountsEveryHit | src/x86port/jit_profile.c:72-103 | over any hits, each held count is its hits up to the limit and the drops are the hits on the rest |
| Profile.SaturatedExactly | src/x86port/jit_profile.c:72-103 | a hit is lost to a full count exactly when a held address was hit more often than a count can say |
| Profile.HintIsHeldExactly | src/x86port/jit_profile.c:28-60 | a table made for a hint holds that many addresses exactly for hints up to 2^29 |
| Profile.CapacityExactly | src/x86port/jit_profile.c:28-60 | for hints up to 2^29 the table holds the least power of two of addresses that reaches the hint, and 64 at least |
| Profile.OnlyTheMarkerIsDropped | src/x86port/jit_profile.c:72-103 | of all addresses only the one that marks an empty slot is never held, and a count goes up to 2^64 - 1 |
| Profile.FreeSlot | src/x86port/jit_profile.c:72-103 | while keys are fewer than slots there is a free slot, so a probe ends |
| Profile.Profile.Probe | src/x86port/jit_profile.c:82-103 | the probe ends at the address's own slot if and only if it is held, else at a free one |
| Profile.Profile.Hit | src/x86port/jit_profile.c:72-103 | the table afterwards is the bounded map afterwards, every hit in a count, dropped or lost to a full count |

## Left out

- Instructions outside the integer subset of `Guest` (stack, MOVZX and MOVSX, string, wide multiply and divide, calls and returns, double shifts, x87, SIMD, privileged): their translation is not modelled. Block theorems hold for blocks the modelled gate accepts.
- `Guest.Memory` is one contiguous mapping; sparse memory and the host guard above a mapping (a check the translator then omits) are not modelled.
- Decoding is an arbitrary function of the address; code that rewrites the block it is running in is not modelled, beyond a rewritten range reported when the block leaves.
- BlockProof.BlockAgrees: assumes that LEA operands name segments of base zero, because the two engines differ otherwise, and that the mapping stays below 2^32.
- Each helper call of a block leaves any values in the caller-saved registers; the host calling convention and what the prologue sets up are not modelled.
- Translator.TranslateBlock: the refusal of jump sites left unbound is not modelled, because the code of a block here has no unbound branch; the bytes an instruction and the tail take are arbitrary functions.
- Engine.Engine.Run: assumes the intercept contract where there is one, and that nothing is evicted or no block ends at 2^32, because of the difference named above.
- Storage.ModuleStorage.MakeRoom: assumes that the byte budget holds one module, which creating an engine checks (`src/x86port/jit_engine.c:160-168`).
- Translator.BudgetSuffices: takes the bytes reserved for the tail as constant; only x87 instructions raise them.
- `Engine`: the mode with the cache disabled, which neither links nor chains and drops every translation after one use, and leaf call sites with their refill are not modelled.
- The front array of the block cache is a partial copy of the unguarded entries under an arbitrary index function.
- Chained exits of the WebAssembly backend, whose failed check goes on to the probe and steps the budget again.
- Statistics, diagnostics, the entry watch, the chain census and reason strings; `Profile`'s sorted listing.
- Allocation failures: the compaction buffer, the tables and the storage are taken to be allocated; code-memory failures are the arbitrary refusals of `Dispatch.World`.
- `Storage`: what a translation emits is an arbitrary length and shape; the lowering of a batch is an arbitrary list of shapes, compared with the blocks as the source does.
- Compact.Compact: reads a module's exports as a count of bodies; export names are not modelled.
- `WasmHost` is the contract the arena relies on; the JavaScript engine calls are not modelled.
- `Forwarding` models the 32-bit loads and stores that may forward, and every other instruction, paired stores included, as any function of the state; a base of SP and the words an instruction is encoded in are not modelled.
- Profile.Profile.Hit: keeps the totals modulo 2^64 as the source does; the bounded map it is compared with counts without bound.
