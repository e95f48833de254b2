# A verified model of the mayfly RV64 emulator

mayfly is a RISC-V RV64IMA emulator with M, S and U modes, Sv39 translation, trap
delegation, a small platform interrupt controller and a debugger. This project
models its core in Dafny and proves what that core promises.

* **Translation and memory** (`Sv39`, `Mmu`, `Vaddr`, `Paddr`; theorems in
  `Sv39Properties`, `TranslationProperties`, `VaddrProperties`, `Bytewise`). `Sv39` is the
  translation algorithm of section 4.3.2 of the RISC-V Privileged Architecture
  (20211203) with three levels, written as a recursive function. `Mmu` and
  `Vaddr` are the emulator's routines, statement by statement, on a mutable
  processor, proved against it.
* **Traps, CSRs and whole steps** (`Intr`, `Csr`, `Inst`, `CpuExec`; theorems in
  `IntrProperties`, `TrapProperties`, `StepResults`, `CsrProperties`, `Precise`, `StepShape`, `Nesting`,
  `Bracketing`, `Invariant`). `CpuExec.Step` is the value-level meaning of one
  step, `CpuExec.Run` of n steps; the methods that change the processor are proved
  equal to it, and the theorems about runs are proved by induction over it.
* **Atomics and decoding** (`LrSc`, `AmoProperties`, `Pattern`).
* **Debugger** (`Expr`, `Watchpoint`, `WatchpointHistory`) and **interrupt
  controller** (`Plic`).

`Hart` holds the state they share: the class `Cpu` with the emulator's fields and
the datatype `Hart`, its value at one moment. `Bits` defines machine words as
naturals below 2^64 with their bits and bitwise operators.

Where the code departs from what one would expect, the code is modelled and the
difference is proved rather than excluded:

* `PgBASE` shifts a 44-bit field without widening it, so physical addresses are cut
  to 44 bits: `StandardIsGuaranteedExactly` gives the exact condition under which
  translation still meets the standard, `HighFrameIsReplaced` an input where it
  does not.
* A misaligned store while translation is off raises an exception and still writes:
  `ExceptionsArePrecise` names that one case, `MisalignedDirectStoreTraps` shows
  that it does trap and `MisalignedStoreChangesMemory` is an instance.
* A star after a register is read as a dereference: `ReclassificationIsExact` gives
  the exact condition, `RegisterTimesIsMisread` an instance.
* csrrwi keeps the upper bits of the old value: `NewCsrBits` gives the exact
  condition under which that is what the ISA asks.
* Freeing a watchpoint that is not live only prints an error: `FreeWp` states what
  happens to the lists, `FreeingTwiceBreaksTheFreeList` that they are lost.
  (`DeleteWatchpoint`, the only caller, never does so.)
* The satp write takes the bits outside its mask from mstatus: `SatpWrite` and
  `ReachableStatesAreGood` show why this is harmless from reset.

Source lines below are relative to the root of the repository.

## Model

| member | source | states |
|---|---|---|
| `Mmu.IsaMmuTranslate` | mayfly_emu/system/mmu.c:105-152 | The loop-and-goto translation refines the recursive walk of `Sv39.Translate`: the same page base with clear status bits and no exception, or `MEM_RET_FAIL` with the access's page-fault cause, tval = the address and the amo flag cleared; nothing else changes |
| `Mmu.PageWalk` | mayfly_emu/system/mmu.c:114-134 | The walk loop stops at the leaf the recursive walk finds, and takes the `bad` exit exactly when there is none or the address is not canonical |
| `Mmu.CheckPermission` | mayfly_emu/system/mmu.c:33-74 | Grants exactly what the Sv39 rights rule (U/S, SUM, MXR, A, D) allows; otherwise records the fault, redirected to a store fault for an AMO's load |
| `Mmu.IsaMmuCheck` | mayfly_emu/system/mmu.c:76-103 | Direct, translated or failed by effective mode, satp.mode and canonicality; a failure records the fault by access type and keeps the amo flag |
| `Mmu.CanonicalTestsAgree` | mayfly_emu/system/mmu.c:79-81 | The walk's own sign-extension test accepts exactly the addresses that the earlier mask test accepts, so it never fires after that test |
| `Mmu.LeafComposition` | mayfly_emu/system/mmu.c:139-149 | Masking addresses to compose a superpage equals adding low page numbers to the frame number, with the same misalignment fault; a granted base never collides with the status bits |
| `TranslationProperties.StandardIsGuaranteedExactly` | mayfly_emu/system/mmu.c:20-22 | The exact reach of the 44-bit address arithmetic, for every memory, root, address, access and mode: what the emulator's walk reads guarantees the standard's translation if and only if nothing can be granted at all, or the root table, every pointer followed and a granted leaf name frames below 2^32 |
| `TranslationProperties.EmulatorMeetsStandard` | mayfly_emu/system/mmu.c:20-22 | Memory by memory, once the tables lie below 2^44: the two translations agree if and only if a granted leaf names a frame below 2^32 |
| `TranslationProperties.HighFramesDepart` | mayfly_emu/system/mmu.c:20-22 | Otherwise there is a memory, the same wherever the emulator's walk reads, that the standard translates differently |
| `TranslationProperties.HighFrameIsReplaced` | mayfly_emu/system/mmu.c:20-22 | An input where the two part: with one concrete gigapage entry in the root table, reading address 0 goes to RAM at 0x80000000 in the emulator and to 0x100080000000 in the standard |
| `TranslationProperties.WalkFrame` | mayfly_emu/system/mmu.c:118-134 | A walk depends on nothing but the at most three table words it reads |
| `TranslationProperties.WalkedLeafIsValid` | mayfly_emu/system/mmu.c:127-130 | A walk ends only in valid leaves, never in a writable unreadable entry |
| `TranslationProperties.SplitWalk` | mayfly_emu/system/mmu.c:118-134 | After an aligned superpage is replaced by a pointer to 512 next-level leaves, every walk is unchanged or finds the selected child one level further down |
| `TranslationProperties.SplittingPreservesTranslation` | mayfly_emu/system/mmu.c:118-147 | Splitting a superpage preserves translation: the same physical page or the same fault for every address, access type and mode |
| `Sv39Properties.IndicesAreFields` | mayfly_emu/system/mmu.c:29-31 | The low 39 bits of an address are the three nine-bit indices, in units of 1 GiB, 2 MiB and 4 KiB, and the offset |
| `Sv39Properties.RootEntryRead` | mayfly_emu/system/mmu.c:119 | The first word a walk reads: satp.ppn times 4096 plus eight times bits 38 to 30 of the address, within 44 bits |
| `Sv39Properties.WalkIsMapping` | mayfly_emu/system/mmu.c:118-134 | The recursive walk agrees with an account on raw table words: which word is read at each of the three levels and which of its bits decide |
| `Sv39Properties.RightsAreBits` | mayfly_emu/system/mmu.c:33-74 | The rights rule in bit positions of the entry and of mstatus (SUM 18, MXR 19, MPRV 17 with MPP 12 and 11) |
| `Sv39Properties.CheckIsBits` | mayfly_emu/system/mmu.c:76-103 | Untranslated exactly in effective M mode or when satp.mode is not 8; failed exactly when translated and not sign-extended from 39 bits |
| `Sv39Properties.PhysicalAddress` | mayfly_emu/system/mmu.c:105-152 | The whole translation in plain numbers: refused, or the frame plus the offset in a 4 KiB, 2 MiB or 1 GiB page |
| `Sv39Properties.RamWindow` | mayfly_emu/memory/paddr.c:94-96 | RAM is the 128 MiB that begin at 2 GiB |
| `Vaddr.VaddrMmuRead` | mayfly_emu/memory/vaddr.c:7-19 | A translated read returns the bytes at page base plus offset, or 0 with the page fault recorded |
| `Vaddr.VaddrMmuWrite` | mayfly_emu/memory/vaddr.c:22-35 | A translated write stores at page base plus offset, or leaves memory alone with the misalignment or page fault recorded |
| `Vaddr.VaddrIfetch` | mayfly_emu/memory/vaddr.c:37-48 | A fetch is the fetch of the specification: word and exception state |
| `Vaddr.VaddrRead` | mayfly_emu/memory/vaddr.c:50-67 | A load is the load of the specification on every path: misaligned, failed check, direct, translated |
| `Vaddr.VaddrWrite` | mayfly_emu/memory/vaddr.c:69-84 | A store is the store of the specification on every path, including the misaligned direct store that is flagged and still performed |
| `Vaddr.VaddrToPaddr` | mayfly_emu/memory/vaddr.c:86-101 | The address used by LR/SC is where an ordinary access would go, or the same fault is recorded |
| `VaddrProperties.StoreThenLoad` | mayfly_emu/memory/vaddr.c:50-84 | After a successful store to RAM outside its own walk, the load at the same address and length succeeds and returns the low bytes stored |
| `VaddrProperties.LoadAfterOtherStore` | mayfly_emu/memory/vaddr.c:50-84 | Any store leaves unchanged every load (value and exception) whose walk words and target bytes it does not overwrite; one that writes nothing (refused, or misaligned under translation) leaves every load unchanged |
| `VaddrProperties.WritableIsReadable` | mayfly_emu/system/mmu.c:51-72 | A granted write implies a granted read of the same place, because walks reject write-only entries |
| `VaddrProperties.TranslationAfterStore` | mayfly_emu/system/mmu.c:118-134 | A store outside the words of a walk changes no translation made by that walk |
| `VaddrProperties.LoadAfterStore` | mayfly_emu/memory/paddr.c:98-116 | Little-endian bytes read back as the value stored, modulo the width |
| `VaddrProperties.LoadAfterDisjointStore` | mayfly_emu/memory/paddr.c:98-116 | A store leaves loads of other bytes unchanged |
| `Bytewise.TranslationIgnoresOffset` | mayfly_emu/system/mmu.c:29-31 | Addresses in one page have the same check result, walk words and translation |
| `Bytewise.AlignedLoadIsBytewise` | mayfly_emu/memory/vaddr.c:50-67 | A successful aligned load from RAM is the little-endian join of one-byte loads, all of which succeed |
| `Bytewise.AlignedStoreIsBytewise` | mayfly_emu/memory/vaddr.c:69-84 | A successful aligned store to RAM outside its own walk is the same as the one-byte stores of its bytes, each translated afresh |
| `Intr.RaiseIntr` | mayfly_emu/system/intr.c:58-103 | Trap entry field by field equals the specified entry: cause, xepc, stacked enable, previous mode, xtval, new mode and target |
| `Intr.IsaQueryIntr` | mayfly_emu/system/intr.c:105-125 | The priority loop, with its early exit on no pending bit, returns the first ready interrupt of the specification |
| `IntrProperties.ChoiceIsFirstReady` | mayfly_emu/system/intr.c:105-125 | Nothing is chosen exactly when no listed interrupt is pending, enabled and globally enabled; otherwise the first such in the order MEI, MSI, MTI, SEI, SSI, STI, UEI, USI, UTI |
| `IntrProperties.DeliveryAgreesWithChoice` | mayfly_emu/system/intr.c:13-17 | The chosen interrupt is delivered to exactly the level whose enable rule admitted it, and never below the interrupted mode |
| `IntrProperties.EntrySBits` | mayfly_emu/system/intr.c:61-78 | Entry to S stacks SIE and the mode and changes no other bit of mstatus |
| `IntrProperties.EntryMBits` | mayfly_emu/system/intr.c:80-101 | Entry to M stacks MIE and the mode and changes no other bit of mstatus |
| `IntrProperties.TrapOpensNothing` | mayfly_emu/system/intr.c:58-103 | No trap makes a level interruptible that was not, and the level entered is closed |
| `IntrProperties.InterruptLosesRoom` | mayfly_emu/system/intr.c:58-125 | Taking an interrupt strictly lowers the number of interruptible levels |
| `TrapProperties.PriorityOrder` | mayfly_emu/system/intr.c:109-113 | The order of the nine interrupts, one clause per interrupt number |
| `TrapProperties.ReadinessIsRead` | mayfly_emu/system/intr.c:105-122 | Ready means pending in what 0x344 reads, enabled in 0x304, and admitted by 0x303, the mode and bit 1 or 3 of 0x300 |
| `TrapProperties.TrapNumbers` | mayfly_emu/system/intr.c:58-103 | xcause after entry: bit 63 and the number of the interrupt, or the literal number of each exception |
| `TrapProperties.TrapLevelBits` | mayfly_emu/system/intr.c:13-17 | The level entered is S exactly below M with the bit of that number set in mideleg or medeleg |
| `TrapProperties.TrapAddress` | mayfly_emu/system/intr.c:67-75 | xtval is the address for trap numbers 1, 4, 5, 6, 7, 12, 13 and 15, and 0 otherwise |
| `TrapProperties.TrapTarget` | mayfly_emu/system/intr.c:50-56 | The handler is the base of xtvec, for interrupts in vectored mode four times the number beyond it |
| `TrapProperties.TrapStatusBits` | mayfly_emu/system/intr.c:58-103 | Entry in bit positions of mstatus: 1, 5 and 8 for S; 3, 7, 11 and 12 for M; all others stay |
| `TrapProperties.ReturnStatusBits` | mayfly_emu/cpu/inst.c:151-157 | mret and sret in bit positions, with the pc and mode they resume |
| `TrapProperties.TrapIsRead` | mayfly_emu/cpu/reg.h:67-104 | After a trap the CSR numbers of its level read its pc, trap number and address, and those of the other level what they read before |
| `TrapProperties.WrittenVectorIsTaken` | mayfly_emu/cpu/reg.h:109-119 | A value written to 0x105 or 0x305 is where the next trap to that level goes |
| `TrapProperties.WrittenDelegationDecides` | mayfly_emu/cpu/reg.h:110-111 | A value written to 0x302 or 0x303 decides the level of exceptions or interrupts |
| `TrapProperties.WrittenEpcIsResumed` | mayfly_emu/cpu/reg.h:115-122 | A value written to 0x141 or 0x341 is where sret or mret goes |
| `TrapProperties.MisaLetters` | mayfly_emu/cpu/reg.h:93 | misa announces a 64-bit machine with A, I, M, S and U |
| `StepResults.LoadResult` | mayfly_emu/cpu/inst.c:87-94 | After a step that loads without an exception, rd holds the number at the address, as two's complement for lb, lh, lw and ld and unsigned for the others; other registers and memory are unchanged |
| `StepResults.StoreResult` | mayfly_emu/cpu/inst.c:95-118 | After a store without an exception the low bytes of rs2 are at the address; no other byte and no register changed |
| `StepResults.LrResult` | mayfly_emu/cpu/inst.c:162-174 | After an LR without an exception rd holds the number at the address in rs1 as two's complement |
| `StepResults.RegisterResult` | mayfly_emu/cpu/inst.c:66-192 | After a step without an exception: link register of jumps, old CSR value in rd, result of computations, and no register changed by branches, fences and returns |
| `StepResults.NextPc` | mayfly_emu/cpu/cpu-exec.c:65-66 | Without an exception the pc, or the pc saved by an interrupt at the end of the step, is pc + 4, the taken branch, jump or return target |
| `StepResults.StopsExactly` | mayfly_emu/cpu/inst.c:143-188 | A step stops the machine exactly for ebreak, an unknown word or the stop key |
| `StepResults.DeviceLinesInMip` | mayfly_emu/cpu/cpu-exec.c:71 | After every step bits 3, 7 and 9 of mip are the device lines and the other bits those the instruction left |
| `StepResults.ExceptionNumbers` | mayfly_emu/cpu/inst.c:54-194 | The literal trap number that each kind of instruction leaves in xcause when it raises: 12, 2, 8, 9, 11, 4, 6, 13 or 15 |
| `StepResults.FetchedFromRam` | mayfly_emu/cpu/inst.c:196-197 | The instruction executed is the decoding of the little-endian 32-bit word at the physical pc |
| `CpuExec.ExecOnce` | mayfly_emu/cpu/cpu-exec.c:55-88 | One step of the mutable machine equals the specified step, and ring slot counter % 16 receives its pc and word |
| `CpuExec.Execute` | mayfly_emu/cpu/cpu-exec.c:90-108 | The stepping loop stops after n steps or right after the first step that leaves the running state; the state is that of the run, and ring slot (start + k) % 16 holds the pc and word of step k for each of the last sixteen steps; only steps that are executed must be free of failing assertions |
| `CpuExec.HandleIntr` | mayfly_emu/system/intr.c:19-38 | A pending exception goes first with the saved pc; otherwise the chosen interrupt, if any, is taken at the next pc |
| `CpuExec.IsaExecOnce` | mayfly_emu/cpu/inst.c:196-205 | A faulting fetch executes nothing; otherwise the decoded instruction is executed |
| `Precise.TrappingInstruction` | mayfly_emu/cpu/inst.c:54-194 | An instruction that raises an exception changes no register, CSR, mode or reservation, and memory only in the misaligned direct store |
| `Precise.ExceptionsArePrecise` | mayfly_emu/cpu/cpu-exec.c:55-88 | A step that ends in an exception leaves registers, reservation and (but for the misaligned direct store) memory as they were; xepc is the faulting instruction's own pc, xtval the faulting address for address faults and 0 otherwise, and the new pc comes from xtvec alone |
| `Precise.MisalignedDirectStoreTraps` | mayfly_emu/memory/vaddr.c:69-79 | The excepted case does end in an exception |
| `Precise.MisalignedStoreChangesMemory` | mayfly_emu/memory/vaddr.c:69-79 | A concrete step, executing the word 0x00629023 (sh x6,0(x5)) with x5 odd, in which an exception is raised although memory changed |
| `StepShape.InstructionControl` | mayfly_emu/cpu/inst.c:54-194 | CSRs and mode change in an instruction only through mret, sret or one legal CSR write |
| `StepShape.FinishShape` | mayfly_emu/cpu/cpu-exec.c:65-87 | The end of a step takes at most one trap on top of the device lines and counts the step |
| `Nesting.InterruptsAreBounded` | mayfly_emu/system/intr.c:105-125 | In a run without mret, sret or mstatus/sstatus writes, interrupts taken plus levels still open never exceed the levels open at the start, hence at most two, however many exceptions occur |
| `Nesting.FirstSupervisorThenMachine` | mayfly_emu/system/intr.c:105-125 | If two interrupts are taken in such a run, the earlier goes to S and the later to M |
| `Nesting.StepNarrows` | mayfly_emu/system/intr.c:58-125 | Each such step opens no level, and an interrupt closes the open level it enters |
| `Bracketing.MachineBracket` | mayfly_emu/cpu/inst.c:151 | mret after a handler that leaves mepc and mstatus as it found them restores pc, mode, MIE and everything of the supervisor's |
| `Bracketing.SupervisorBracket` | mayfly_emu/cpu/inst.c:157 | sret after such a handler restores pc, mode and SIE |
| `Bracketing.MretBits` | mayfly_emu/cpu/inst.c:151 | mret takes MIE from MPIE, sets MPIE, clears MPP and changes no other bit of mstatus |
| `Bracketing.SretBits` | mayfly_emu/cpu/inst.c:157 | sret takes SIE from SPIE, sets SPIE, clears SPP and changes no other bit of mstatus |
| `Bracketing.RunsStayStacked` | mayfly_emu/system/intr.c:58-103 | In every run of the machine in which handlers leave xepc and mstatus alone (machine traps inside supervisor handlers inside U or S code, instructions outside handlers unrestricted), the state is at all times one from which all open traps can be resumed |
| `Bracketing.EachReturnResumesItsTrap` | mayfly_emu/cpu/inst.c:151-157 | In every such run each mret and sret inside a handler resumes the trap it matches: the pc saved there, the mode, both interrupt enables; an mret also preserves the supervisor's stacked fields and sepc |
| `Bracketing.FrameIsTrapEntry` | mayfly_emu/system/intr.c:58-103 | The matching trap recorded for a return is the one whose entry saved the state |
| `Bracketing.StepMoves` | mayfly_emu/cpu/cpu-exec.c:55-88 | Every step is an instruction's move of the control state followed by at most one trap entry from it |
| `Invariant.ReachableStatesAreGood` | mayfly_emu/main.c:27-43 | In every state reachable from reset x0 is 0, mstatus bits 44 to 59 are clear, and satp is still 0 or holds mode 8, ASID 0 and the page number of the last accepted write |
| `Invariant.StepKeepsGood` | mayfly_emu/cpu/cpu-exec.c:55-88 | Every step keeps that invariant, from any state and with any decoder |
| `Invariant.Sv39StaysSelected` | mayfly_emu/cpu/reg.h:125 | In every run from reset satp.mode is 0 or 8, and once it is 8 it is 8 in every later state |
| `Invariant.ModeIsNeverReserved` | mayfly_emu/cpu/reg.h:108 | If no legal CSR instruction writes 2 to mstatus.MPP, neither the mode nor MPP is ever the reserved value, in every run from a legal state; hence the assertion on the translated mode never fires |
| `Invariant.ResetModesLegal` | mayfly_emu/main.c:27-43 | Reset leaves such a legal state, whatever mstatus held |
| `Invariant.CsrWriteMpp` | mayfly_emu/cpu/reg.h:108-126 | mstatus writes take MPP from the value written, and no other CSR write, sstatus included, touches it |
| `Invariant.CountersAreRead` | mayfly_emu/cpu/reg.h:98-99 | After n steps 0xb02 and 0xb00 read n more than at the start, modulo 2^64 |
| `Invariant.ResetState` | mayfly_emu/main.c:27-43 | The reset state in bit positions: M mode at 0x80000000, SPP, MPP, UXL and SXL set, all other bits of mstatus kept |
| `Invariant.CountersCountSteps` | mayfly_emu/cpu/cpu-exec.c:85-87 | After n steps minstret and mcycle have both advanced by n modulo 2^64, whatever the guest does |
| `Csr.CsrRead` | mayfly_emu/cpu/reg.h:67-104 | Reading raises exactly for unknown numbers and for numbers above 0x200 below machine mode |
| `Csr.CsrWrite` | mayfly_emu/cpu/reg.h:105-140 | Writing raises exactly where reading does, so never after a read of the same number that did not |
| `CsrProperties.WriteThenRead` | mayfly_emu/cpu/reg.h:67-140 | A read after a write returns the value written; for the masked registers and S-level views exactly its writable bits; for satp the old value if the mode is not 8, otherwise the writable bits with the rest from mstatus |
| `CsrProperties.WriteLeavesOthers` | mayfly_emu/cpu/reg.h:105-140 | A write changes no CSR other than those backed by the same register |
| `CsrProperties.CsrBelowMachineMode` | mayfly_emu/cpu/inst.c:80-85 | Below M mode a CSR instruction raises illegal-instruction with nothing written, or changes only rd, S-level CSRs and the S bits of mstatus, mie and mip |
| `CsrProperties.CsrWriteKeepsReserved` | mayfly_emu/cpu/reg.h:108-126 | No CSR write sets mstatus bits 44 to 59 |
| `CsrProperties.SatpWrite` | mayfly_emu/cpu/reg.h:125 | Although the satp write merges bits of mstatus, an accepted write yields mode 8, ASID 0 and the page number written |
| `CsrProperties.NewCsrBits` | mayfly_emu/cpu/inst.c:80-85 | The value each CSR instruction writes, bit by bit: clear, set or replace; csrrwi writes its immediate, as the ISA asks, if and only if the old value is below 32 |
| `Inst.RunDecoded` | mayfly_emu/cpu/inst.c:54-194 | Executing an instruction statement by statement on the mutable machine equals its specification |
| `Inst.RunAmo` | mayfly_emu/cpu/inst.c:164-184 | An AMO's load, store and register write in order equal its specification |
| `Inst.RunSc` | mayfly_emu/cpu/inst.c:163-175 | An SC's reservation test, store and release equal its specification |
| `Inst.RunMret` | mayfly_emu/cpu/inst.c:151 | The sequence of field assignments equals the specified return |
| `LrSc.ReservationIsHistory` | mayfly_emu/cpu/inst.c:11-12 | In every run the reservation registers hold exactly what the history says: the most recent non-faulting LR or SC, if it was an LR |
| `LrSc.ScSucceedsExactlyWhenReserved` | mayfly_emu/cpu/inst.c:163-175 | A non-faulting SC stores and returns 0 exactly when the most recent non-faulting LR or SC was an LR of the same width at the same physical address; otherwise it returns 1 and changes no memory |
| `LrSc.ReservationNeedsFreshLr` | mayfly_emu/cpu/inst.c:162-175 | After an SC a reservation is held again only if an LR completed in between, so each LR authorises at most one SC |
| `AmoProperties.AmoIsAllOrNothing` | mayfly_emu/cpu/inst.c:164-184 | An AMO on RAM raises an exception with registers and memory unchanged, or rd gets the old value sign-extended and memory the operation's result at the AMO's own width |
| `AmoProperties.StoredValueIsResult` | mayfly_emu/cpu/inst.c:164-184 | The 64-bit computation agrees at the width stored with the operation on 32- or 64-bit values, for all nine operations |
| `AmoProperties.AmoLaws` | mayfly_emu/cpu/inst.c:164-184 | The nine results by laws: bit by bit for the logical ones, an operand that bounds both for the minima and maxima |
| `AmoProperties.AmoAddWraps` | mayfly_emu/cpu/inst.c:165 | The sum, less the modulus when it overflows |
| `AmoProperties.SignExtensionPreservesOrder` | mayfly_emu/cpu/inst.c:181-184 | Comparing sign-extended words, signed or as unsigned 64-bit numbers, is comparing the 32-bit words, signed or unsigned |
| `AmoProperties.SignExtendIsTwosComplement` | mayfly_emu/cpu/macro.h:73 | SEXT reads the low bits as two's complement; a zero-extending load keeps them |
| `Pattern.PatternDecode` | mayfly_emu/cpu/decode.h:22-52 | For every pattern the compiled key, mask and shift fit their registers and accept a word exactly when every fixed character among the last 32 significant ones equals its bit |
| `Pattern.CompiledPatternMeansPattern` | mayfly_emu/cpu/decode.h:82-89 | The shift-mask-compare test equals pointwise matching, whatever run of trailing don't-cares is shifted out |
| `Expr.CheckParentheses` | mayfly_emu/monitor/expr.c:162-175 | True exactly when the range is one parenthesis whose opening token closes at its end |
| `Expr.FindPositionMainOperator` | mayfly_emu/monitor/expr.c:177-221 | The scan returns the last of the weakest operators outside parentheses, or 0 when there is none |
| `Expr.RootIsMain` | mayfly_emu/monitor/expr.c:177-221 | For every grammatical tree the main operator of its text is the root operator, and only a parenthesis is recognised as one |
| `Expr.EvalRange` | mayfly_emu/monitor/expr.c:223-281 | On the text of a grammatical tree eval terminates, meets no assertion and returns the tree's value modulo 2^64, stopping at a division by zero exactly when the tree divides by zero |
| `Expr.OperatorLaws` | mayfly_emu/monitor/expr.c:268-278 | The operators by laws: sum and difference inverse modulo 2^64, product modulo 2^64, quotient rounded down, comparisons and && 1 exactly when they hold, else 0 |
| `Expr.AtomLaws` | mayfly_emu/monitor/expr.c:228-256 | Numbers, registers, CSR names (always 0) and dereferences evaluate to their value |
| `Expr.ThreeOperands` | mayfly_emu/monitor/expr.c:177-221 | For every pair of operators, a op1 b op2 c groups to the right exactly when op2 binds more tightly, spelled out operator by operator |
| `Expr.ReclassifyStars` | mayfly_emu/monitor/expr.c:291-295 | The in-place loop changes exactly the stars that follow no number and no closing parenthesis |
| `Expr.ReclassificationIsExact` | mayfly_emu/monitor/expr.c:291-295 | Reclassifying the stars recovers the expression if and only if no multiplication has a left operand that ends in a register |
| `Expr.RegisterTimesIsMisread` | mayfly_emu/monitor/expr.c:291-295 | A register times a number, where it does not |
| `Expr.ParenthesisedIsReadable` | mayfly_emu/monitor/expr.c:177-295 | For every tree the parenthesising printer yields a text that the grammar and the star rule read, with the same value |
| `Expr.ParenthesesAreMinimal` | mayfly_emu/monitor/expr.c:177-295 | The printer adds the fewest parentheses: no readable text of the same expression has fewer pairs |
| `Expr.TextHasOneTree` | mayfly_emu/monitor/expr.c:177-281 | The grammar that eval implements is unambiguous: a text has one tree |
| `Expr.ReadableTreesAreKept` | mayfly_emu/monitor/expr.c:177-295 | A text that is already readable is printed as it is |
| `Expr.PrintThenEval` | mayfly_emu/monitor/expr.c:283-298 | Printing any tree over numbers, registers, the seven operators, parentheses and dereference, and evaluating the tokens, gives the tree's value, or stops at a division by zero exactly when the tree divides by zero |
| `Watchpoint.Pool.constructor` | mayfly_emu/monitor/watchpoint.c:17-26 | The fresh pool: no live node, all 32 free in order |
| `Watchpoint.Pool.NewWp` | mayfly_emu/monitor/watchpoint.c:28-37 | Takes the first free node, or returns null with nothing changed |
| `Watchpoint.Pool.CreateWatchpoint` | mayfly_emu/monitor/watchpoint.c:62-88 | Appends the first free number to the live list, or changes nothing for a bad expression or an exhausted pool; both lists stay acyclic, disjoint and complete |
| `Watchpoint.Pool.FreeWp` | mayfly_emu/monitor/watchpoint.c:39-60 | Unlinks a live node wherever it is and pushes it on the free list, both lists well formed; a node that is not live is pushed again all the same, and the last live node gets its successor |
| `Watchpoint.FreeingTwiceBreaksTheFreeList` | mayfly_emu/monitor/watchpoint.c:47-60 | After freeing a node that is not live the free list is cyclic: it is the list of no nodes at all |
| `Watchpoint.Pool.DeleteWatchpoint` | mayfly_emu/monitor/watchpoint.c:90-104 | Removes the watchpoint of that number, keeping the order of the others, or changes nothing when there is none |
| `Watchpoint.CreateKeeps` | mayfly_emu/monitor/watchpoint.c:62-88 | The pointer assignments of a create leave two disjoint acyclic lists that together hold all 32 nodes with fixed numbers |
| `Watchpoint.DeleteKeeps` | mayfly_emu/monitor/watchpoint.c:39-60 | The same for a delete of the node at any position |
| `WatchpointHistory.CreateFailsOnlyWhenFull` | mayfly_emu/monitor/watchpoint.c:28-37 | After any sequence of operations a create with a valid expression fails if and only if 32 watchpoints are live |
| `WatchpointHistory.LiveListIsInCreationOrder` | mayfly_emu/monitor/watchpoint.c:62-104 | After any sequence of operations the live list is in creation order and each entry is as it was created |
| `WatchpointHistory.LiveMeansNotDeleted` | mayfly_emu/monitor/watchpoint.c:62-104 | A created watchpoint is live later if and only if its number has not been deleted since |
| `Plic.Controller.Update` | mayfly_emu/device/plic.c:41-58 | Claim is the least id of maximal nonzero priority among the pending and enabled sources, seip tells whether that priority exceeds the threshold, the loop never reads past the table, and pending stays within source 1 while only the serial line drives it |
| `Plic.ClaimIsUnique` | mayfly_emu/device/plic.c:43-50 | There is exactly one such claim |
| `Plic.Controller.Write` | mayfly_emu/device/plic.c:26-39 | A register write changes that register only; a claim write clears that pending bit and no other |
| `Plic.Serial.Update` | mayfly_emu/device/serial.c:88-114 | The serial line raises source 1 exactly when a character was written since the last update or one is waiting with receive interrupts enabled, and never another source |
| `Plic.UpdateDevices` | mayfly_emu/device/device.c:3-7 | Serial line, then controller: only source 1 is ever pending, it becomes pending with the line, and the claim and seip are those of the arbitration |
| `Plic.Controller.Read` | mayfly_emu/device/plic.c:10-24 | Each offset reads its register and nothing else |

## Left out

- LoadAfterOtherStore: stores and loads whose bytes straddle the end of RAM are compared on the byte map, where the original array ends.
- StoreThenLoad: data in RAM outside the words of its own walk; a store to a device or over its own page tables is not covered.
- AlignedLoadIsBytewise: RAM only, device reads depend on the access length.
- Execute: a run is followed only while no assertion of the emulator fires (reserved privilege mode 2 selected by mode or MPP, fetch from a non-canonical address).
- PatternDecode: C leaves a shift by 32 or more undefined, which a pattern ending in 32 or more don't-cares asks for; the model's shift gives 0. The hexadecimal variant is not part of this model.
- EvalRange: token lists outside the grammar (empty, adjacent operands, a dereference directly of a dereference), on some of which the original recurses without end; the tree a range represents is a ghost argument.
- Controller.Write: offset 0x1000 (asserted against), offset 0x7c (past the priority table) and claim writes of 32 and above (a shift out of range), the last two undefined in C, are excluded.
- Controller.Read: offset 0x7c, which reads past the priority table and is undefined in C, is excluded.
- FreeWp: with no live node at all the original follows a null pointer; that call is excluded.
- Memory is a map from physical address to byte in which an absent byte is zero, and the registers and CSRs are values in fields that the methods reassign; overlap of host arrays is not captured.
- Devices: a read is an arbitrary function of address and length, a write leaves RAM alone; side effects, the flags for memory-mapped accesses and the abort on unmapped addresses (which also ends a run after a page-faulting LR) are not part of this model.
- The software, timer and external interrupt lines and the stop key are inputs of each step; the ACLINT, flash, GPIO and the serial registers as seen by the guest are not part of this model, and the controller's seip output is not wired to the step.
- Decoding from patterns to instructions: steps take an arbitrary function from words to instructions, so theorems about runs hold for any decoder; the instruction table and operand extraction are not part of this model.
- Results of computation, branch and jump instructions are arbitrary functions of the registers and the pc; no conformance of arithmetic instructions is claimed.
- Watchpoint nodes are linked by pool index instead of pointer; evaluating and displaying watchpoints is not part of this model.
- Reserved bits of page table entries are ignored, as in the code.
- The privilege of mret, sret and TVM/TW/TSR is not checked by the code and not by the model.
- The end and abort states of the debugger's run command, difftest, the shared-library build, tokenising, register names, number parsing, disassembly and image loading.
