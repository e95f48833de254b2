// Precise exceptions: what a whole step leaves behind when it ends in an
// exception.
module Precise {
  import opened Bits
  import opened HartState
  import opened Paddr
  import opened Mmu
  import opened Vaddr
  import opened Intr
  import opened Csr
  import opened Inst
  import opened CpuExec

  /** The virtual address that a memory instruction accesses. */
  function AccessAddress(h: Hart, i: Instr): Word {
    match i
    case LoadReg(_, rs1, imm, _, _) => Wrap(h.gpr[rs1] + imm)
    case StoreReg(rs1, _, imm, _) => Wrap(h.gpr[rs1] + imm)
    case Lr(_, rs1, _) => h.gpr[rs1]
    case Sc(_, rs1, _, _) => h.gpr[rs1]
    case Amo(_, _, rs1, _, _) => h.gpr[rs1]
    case _ => 0
  }

  /** The one case in which a trapping instruction writes memory: a misaligned
      plain store while addresses are not translated. */
  predicate MisalignedDirectStore(h: Hart, i: Instr) {
    i.StoreReg? && AccessAddress(h, i) % i.len != 0 && CheckOf(h.MmuEnv(), AccessAddress(h, i), Write).Direct?
  }

  lemma SameAccess(h: Hart, h': Hart, i: Instr)
    requires h'.gpr == h.gpr && h'.MmuEnv() == h.MmuEnv()
    ensures AccessAddress(h', i) == AccessAddress(h, i) && MisalignedDirectStore(h', i) == MisalignedDirectStore(h, i)
  {
    hide CheckOf, Wrap;
  }

  lemma LoadFault(env: Env, x: Exc, va: Word, len: nat)
    requires AccessLength(len) && !x.isExcept && VRead(env, x, va, len).0.isExcept
    ensures VRead(env, x, va, len).0.tval == va
  {
    hide PageOf, CheckOf, PRead;
  }

  lemma StoreFault(env: Env, x: Exc, va: Word, len: nat, d: Word)
    requires AccessLength(len) && !x.isExcept && VWrite(env, x, va, len, d).0.isExcept
    ensures VWrite(env, x, va, len, d).0.tval == va
    ensures VWrite(env, x, va, len, d).1 == if va % len != 0 && CheckOf(env, va, Write).Direct? then PWrite(env.bus, va, len, d)
                                            else env.bus
  {
    hide PageOf, CheckOf, PWrite;
  }

  /** An instruction that raises an exception changes no register, CSR, mode or
      reservation, and memory only in the misaligned direct store. */
  lemma TrappingInstruction(h: Hart, pc: Word, i: Instr, word: Word)
    requires !h.x.isExcept && h.gpr[0] == 0 && DecodeExec(h, pc, i, word).x.isExcept
    ensures var after := DecodeExec(h, pc, i, word);
            && after.gpr == h.gpr && after.c == h.c && after.mode == h.mode
            && after.res == h.res && after.running == h.running && after.isIrq == h.isIrq
            && after.bus == (if MisalignedDirectStore(h, i) then PWrite(h.bus, AccessAddress(h, i), i.len, h.gpr[i.rs2]) else h.bus)
            && (ReportsAddress(Exception(after.x.cause)) ==> after.x.tval == AccessAddress(h, i))
  {
    var h0 := h.(p := h.p.(dnpc := Wrap(pc + 4)));
    assert h0.MmuEnv() == h.MmuEnv();
    hide CheckOf, Wrap, ExecBody, MisalignedDirectStore, PWrite, AccessAddress, ReportsAddress;
    SameAccess(h, h0, i);
    TrappingBody(h0, pc, i, word);
  }

  lemma TrappingBody(h: Hart, pc: Word, i: Instr, word: Word)
    requires !h.x.isExcept && ExecBody(h, pc, i, word).x.isExcept
    ensures var after := ExecBody(h, pc, i, word);
            && after == h.(x := after.x, bus := after.bus)
            && after.bus == (if MisalignedDirectStore(h, i) then PWrite(h.bus, AccessAddress(h, i), i.len, h.gpr[i.rs2]) else h.bus)
            && (ReportsAddress(Exception(after.x.cause)) ==> after.x.tval == AccessAddress(h, i))
  {
    hide ExecLoad, ExecStore, ExecLr, ExecSc, ExecAmo, PWrite, Wrap, CsrWritten, Legal, CsrValue, NewCsr, CheckOf;
    match i {
      case LoadReg(_, _, _, _, _) => TrappingLoad(h, i);
      case StoreReg(_, _, _, _) => TrappingStore(h, i);
      case Lr(_, _, _) => TrappingLr(h, i);
      case Sc(_, _, _, _) => TrappingSc(h, i);
      case Amo(_, _, _, _, _) => TrappingAmo(h, i);
      case _ =>
    }
  }

  ghost predicate Unchanged(h: Hart, after: Hart, i: Instr) {
    && after.x.isExcept && after.x.tval == AccessAddress(h, i)
    && after == h.(x := after.x, bus := after.bus)
    && after.bus == (if MisalignedDirectStore(h, i) then PWrite(h.bus, AccessAddress(h, i), i.len, h.gpr[i.rs2]) else h.bus)
  }

  lemma TrappingLoad(h: Hart, i: Instr)
    requires i.LoadReg? && !h.x.isExcept && ExecLoad(h, i).x.isExcept
    ensures Unchanged(h, ExecLoad(h, i), i)
  {
    LoadFault(h.MmuEnv(), h.x, AccessAddress(h, i), i.len);
    hide VRead, SignExtend, ZeroExtend, PWrite, Wrap;
  }

  lemma TrappingStore(h: Hart, i: Instr)
    requires i.StoreReg? && !h.x.isExcept && ExecStore(h, i).x.isExcept
    ensures Unchanged(h, ExecStore(h, i), i)
  {
    StoreFault(h.MmuEnv(), h.x, AccessAddress(h, i), i.len, h.gpr[i.rs2]);
    hide VWrite, PWrite, Wrap;
  }

  lemma TrappingLr(h: Hart, i: Instr)
    requires i.Lr? && !h.x.isExcept && ExecLr(h, i).x.isExcept
    ensures Unchanged(h, ExecLr(h, i), i)
  {
    hide PageOf, CheckOf, PRead, SignExtend, PWrite;
  }

  lemma TrappingSc(h: Hart, i: Instr)
    requires i.Sc? && !h.x.isExcept && ExecSc(h, i).x.isExcept
    ensures Unchanged(h, ExecSc(h, i), i)
  {
    hide PageOf, CheckOf, PWrite;
  }

  lemma TrappingAmo(h: Hart, i: Instr)
    requires i.Amo? && !h.x.isExcept && ExecAmo(h, i).x.isExcept
    ensures Unchanged(h, ExecAmo(h, i), i)
  {
    var env, x, va, len := h.MmuEnv(), h.x.(amo := true), h.gpr[i.rs1], Width(i.wide);
    var (x1, loaded) := VRead(env, x, va, len);
    if x1.isExcept {
      LoadFault(env, x, va, len);
    } else {
      assert va % len == 0;
      StoreFault(env, x1, va, len, AmoStored(i.op, i.wide, loaded, h.gpr[i.rs2]));
    }
    hide VRead, VWrite, AmoStored, SignExtend, PWrite;
  }

  // ----- the whole step -----

  predicate FetchFaults(h: Hart) {
    VFetch(h.MmuEnv(), Cleared(h).x, h.p.pc).0.isExcept
  }

  function Executed(h: Hart, decode: Decoder): Instr {
    decode(FetchedWord(Cleared(h)))
  }

  /** The address that a faulting step reports. */
  function FaultAddress(h: Hart, decode: Decoder): Word {
    if FetchFaults(h) then h.p.pc else AccessAddress(h, Executed(h, decode))
  }

  predicate WritesAnyway(h: Hart, decode: Decoder) {
    !FetchFaults(h) && MisalignedDirectStore(h, Executed(h, decode))
  }

  lemma FetchFault(env: Env, x: Exc, va: Word)
    requires !x.isExcept && VFetch(env, x, va).0.isExcept
    ensures VFetch(env, x, va).0.tval == va
  {
    hide PageOf, CheckOf, PRead;
  }

  lemma NoFetchFault(env: Env, x: Exc, va: Word)
    requires !x.isExcept && !VFetch(env, x, va).0.isExcept
    ensures VFetch(env, x, va).0 == x
  {
    hide PageOf, CheckOf, PRead;
  }

  lemma TrappingFetchAndExec(h: Hart, decode: Decoder)
    requires h.gpr[0] == 0 && FetchAndExec(Cleared(h), decode).x.isExcept
    ensures var after := FetchAndExec(Cleared(h), decode);
            && after.gpr == h.gpr && after.c == h.c && after.mode == h.mode
            && after.res == h.res && after.running == h.running && !after.isIrq
            && after.bus == (if WritesAnyway(h, decode)
                             then PWrite(h.bus, AccessAddress(h, Executed(h, decode)), Executed(h, decode).len,
                                         h.gpr[Executed(h, decode).rs2])
                             else h.bus)
            && (ReportsAddress(Exception(after.x.cause)) ==> after.x.tval == FaultAddress(h, decode))
  {
    var h0 := Cleared(h);
    assert h0.MmuEnv() == h.MmuEnv() && h0.p == h.p;
    hide VFetch, DecodeExec, MisalignedDirectStore, PWrite, AccessAddress, ReportsAddress;
    if FetchFaults(h) {
      FetchFault(h.MmuEnv(), h0.x, h.p.pc);
    } else {
      NoFetchFault(h.MmuEnv(), h0.x, h.p.pc);
      var i := Executed(h, decode);
      TrappingInstruction(h0, h.p.pc, i, FetchedWord(h0));
      SameAccess(h, h0, i);
    }
  }

  /** The whole state after a step that ends in an exception, in terms of trap
      entry from the state before it. */
  lemma ExceptionState(h: Hart, decode: Decoder, d: Inputs)
    requires h.gpr[0] == 0 && Step(h, decode, d).x.isExcept
    ensures var after := Step(h, decode, d);
            var no := Exception(after.x.cause);
            var entry := Trap(DeviceLines(h.c, d), h.mode, if ReportsAddress(no) then FaultAddress(h, decode) else 0, no, h.p.pc);
            && after.gpr == h.gpr && after.res == h.res
            && after.bus == (if WritesAnyway(h, decode)
                             then PWrite(h.bus, AccessAddress(h, Executed(h, decode)), Executed(h, decode).len,
                                         h.gpr[Executed(h, decode).rs2])
                             else h.bus)
            && after.c == entry.c.(minstret := Wrap(entry.c.minstret + 1), mcycle := Wrap(entry.c.mcycle + 1))
            && after.mode == entry.mode && after.p.pc == entry.pc && !after.isIrq
  {
    hide *;
    StepException(h, decode, d);
    TrappingFetchAndExec(h, decode);
    var mid := FetchAndExec(Cleared(h), decode);
    TrapIgnoresSilentValue(DeviceLines(h.c, d), h.mode, mid.x.tval, FaultAddress(h, decode), Exception(mid.x.cause), h.p.pc);
  }

  /** Trap entry, register by register: the chosen level's trap registers are
      written, the other level's are not. */
  lemma TrapFields(c: Csrs, mode: Mode, tval: Word, no: TrapNo, epc: Word)
    ensures var t := Trap(c, mode, tval, no, epc);
            var base := if DelegatedToS(c, mode, no) then c.stvec else c.mtvec;
            && t.pc == (if no.Interrupt? && base % 2 == 1 then Wrap(base / 4 * 4 + 4 * Code(no)) else base / 4 * 4)
            && (if DelegatedToS(c, mode, no) then
                  && t.mode == ModeS && t.c.sepc == epc && t.c.scause == Number(no)
                  && t.c.stval == (if ReportsAddress(no) then tval else 0)
                  && t.c.mepc == c.mepc && t.c.mcause == c.mcause && t.c.mtval == c.mtval
                else
                  && t.mode == ModeM && t.c.mepc == epc && t.c.mcause == Number(no)
                  && t.c.mtval == (if ReportsAddress(no) then tval else 0)
                  && t.c.sepc == c.sepc && t.c.scause == c.scause && t.c.stval == c.stval)
  {
    hide EnterS, EnterM, Number, DelegatedToS, ReportsAddress;
  }

  /** A step that ends in an exception is precise: registers, the reservation and
      (but for the misaligned direct store) memory are as before; xepc is the pc of
      the faulting instruction itself, xtval the faulting address or zero, and the
      new pc comes from xtvec alone, whatever dnpc held. */
  lemma ExceptionsArePrecise(h: Hart, decode: Decoder, d: Inputs)
    requires h.gpr[0] == 0 && Step(h, decode, d).x.isExcept
    ensures var after := Step(h, decode, d);
            && after.gpr == h.gpr && after.res == h.res
            && after.bus == (if WritesAnyway(h, decode)
                             then PWrite(h.bus, AccessAddress(h, Executed(h, decode)), Executed(h, decode).len,
                                         h.gpr[Executed(h, decode).rs2])
                             else h.bus)
    ensures var after := Step(h, decode, d);
            var no := Exception(after.x.cause);
            var reported := if ReportsAddress(no) then FaultAddress(h, decode) else 0;
            if Bit(h.c.medeleg, CauseCode(after.x.cause)) && !h.mode.ModeM? then
              && after.mode == ModeS && after.p.pc == h.c.stvec / 4 * 4
              && after.c.sepc == h.p.pc && after.c.stval == reported && after.c.scause == CauseCode(after.x.cause)
              && after.c.mepc == h.c.mepc && after.c.mtval == h.c.mtval && after.c.mcause == h.c.mcause
            else
              && after.mode == ModeM && after.p.pc == h.c.mtvec / 4 * 4
              && after.c.mepc == h.p.pc && after.c.mtval == reported && after.c.mcause == CauseCode(after.x.cause)
              && after.c.sepc == h.c.sepc && after.c.stval == h.c.stval && after.c.scause == h.c.scause
  {
    ExceptionState(h, decode, d);
    var no := Exception(Step(h, decode, d).x.cause);
    TrapFields(DeviceLines(h.c, d), h.mode, if ReportsAddress(no) then FaultAddress(h, decode) else 0, no, h.p.pc);
    hide Step, Trap, FaultAddress, WritesAnyway, Executed, PWrite, SetBit, Bit, ReportsAddress, AccessAddress;
  }

  /** The value reported for a trap that reports no address does not matter. */
  lemma TrapIgnoresSilentValue(c: Csrs, mode: Mode, tval: Word, address: Word, no: TrapNo, epc: Word)
    requires ReportsAddress(no) ==> tval == address
    ensures Trap(c, mode, tval, no, epc) == Trap(c, mode, if ReportsAddress(no) then address else 0, no, epc)
  {
    hide DelegatedToS, EnterS, EnterM, TrapPc, Number;
  }

  lemma StepException(h: Hart, decode: Decoder, d: Inputs)
    requires Step(h, decode, d).x.isExcept
    ensures var mid := FetchAndExec(Cleared(h), decode);
            var after := Step(h, decode, d);
            var entry := Trap(DeviceLines(mid.c, d), mid.mode, mid.x.tval, Exception(mid.x.cause), h.p.pc);
            && mid.x.isExcept && after.x == mid.x && after.gpr == mid.gpr && after.res == mid.res && after.bus == mid.bus
            && after.c == entry.c.(minstret := Wrap(entry.c.minstret + 1), mcycle := Wrap(entry.c.mcycle + 1))
            && after.mode == entry.mode && after.p.pc == entry.pc && after.isIrq == mid.isIrq
  {
    hide FetchAndExec, Trap, QueryIntr, DeviceLines;
  }

  // ----- the exception that is not precise -----

  lemma FinishKeepsException(mid: Hart, pc: Word, d: Inputs)
    ensures FinishStep(mid, pc, d).x == mid.x
  {
    hide Trap, QueryIntr, DeviceLines;
  }

  lemma MisalignedStoreIsFlagged(h: Hart, decode: Decoder)
    requires WritesAnyway(h, decode)
    ensures FetchAndExec(Cleared(h), decode).x.isExcept
  {
    var h0 := Cleared(h);
    assert h0.MmuEnv() == h.MmuEnv() && h0.p == h.p;
    NoFetchFault(h.MmuEnv(), h0.x, h.p.pc);
    var i := Executed(h, decode);
    var h1 := h0.(p := h0.p.(dnpc := Wrap(h.p.pc + 4)));
    assert h1.MmuEnv() == h.MmuEnv();
    StoreIsFlagged(h1.MmuEnv(), h1.x, AccessAddress(h, i), i.len, h.gpr[i.rs2]);
    hide VFetch, VWrite, CheckOf;
  }

  /** A misaligned store without translation does end in an exception. */
  lemma MisalignedDirectStoreTraps(h: Hart, decode: Decoder, d: Inputs)
    requires WritesAnyway(h, decode)
    ensures Step(h, decode, d).x.isExcept
  {
    hide WritesAnyway, FetchAndExec, FinishStep;
    MisalignedStoreIsFlagged(h, decode);
    FinishKeepsException(FetchAndExec(Cleared(h), decode), h.p.pc, d);
  }

  lemma StoreIsFlagged(env: Env, x: Exc, va: Word, len: nat, d: Word)
    requires AccessLength(len) && va % len != 0 && CheckOf(env, va, Write).Direct?
    ensures VWrite(env, x, va, len, d).0.isExcept
  {}

  /** sh x6,0(x5) */
  const STORE_HALFWORD: Word := 0x0062_9023

  /** A concrete instance: the word sh x6,0(x5) at the reset vector, with
      x5 = 0x80000101 and x6 = 1 and translation off, raises an exception, yet
      changes memory. */
  lemma MisalignedStoreChangesMemory(h: Hart, decode: Decoder, d: Inputs)
    requires decode(STORE_HALFWORD) == StoreReg(5, 6, 0, 2)
    requires h.gpr == seq(32, i => 0)[5 := 0x8000_0101][6 := 1]
    requires h.c.satp == 0 && h.p.pc == 0x8000_0000
    requires PRead(h.bus, 0x8000_0000, 4) == STORE_HALFWORD && ByteAt(h.bus.ram, 0x8000_0101) == 0
    ensures Step(h, decode, d).x.isExcept
    ensures ByteAt(Step(h, decode, d).bus.ram, 0x8000_0101) == 1
  {
    var h0 := Cleared(h);
    assert h0.MmuEnv() == h.MmuEnv() && h0.p == h.p;
    assert SatpMode(0) == 0;
    assert CheckOf(h.MmuEnv(), h.p.pc, IFetch).Direct? && CheckOf(h.MmuEnv(), 0x8000_0101, Write).Direct?;
    hide PRead, CheckOf;
    assert !FetchFaults(h) && Executed(h, decode) == StoreReg(5, 6, 0, 2);
    assert AccessAddress(h, Executed(h, decode)) == 0x8000_0101;
    MisalignedDirectStoreTraps(h, decode, d);
    ExceptionsArePrecise(h, decode, d);
    StoredHalfword(h.bus);
    hide Step, PWrite;
  }

  lemma StoredHalfword(bus: Bus)
    ensures ByteAt(PWrite(bus, 0x8000_0101, 2, 1).ram, 0x8000_0101) == 1
  {
    var ram1 := bus.ram[0x8000_0101 := 1];
    assert Store(bus.ram, 0x8000_0101, 2, 1) == Store(ram1, 0x8000_0102, 1, 0) == ram1[0x8000_0102 := 0];
  }
}
