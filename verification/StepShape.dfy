// How one step moves the control state: what the instruction does to the CSRs
// and the mode, and what the trap at its end does on top.
module StepShape {
  import opened Bits
  import opened HartState
  import opened Intr
  import opened Csr
  import opened Inst
  import opened Vaddr
  import opened CpuExec
  import opened Precise

  /** The CSRs and mode after an instruction: xRET restores, a legal CSR
      instruction writes one CSR, nothing else touches them. */
  ghost predicate ControlAfter(h: Hart, i: Instr, after: Hart) {
    match i
    case Mret => after.mode == Mpp(h.c.mstatus) && after.c == h.c.(mstatus := MretStatus(h.c.mstatus)) && after.p.dnpc == h.c.mepc
    case Sret => after.mode == (if Bit(h.c.mstatus, SPP) then ModeS else ModeU)
                 && after.c == h.c.(mstatus := SretStatus(h.c.mstatus)) && after.p.dnpc == h.c.sepc
    case CsrOp(kind, rd, rs1, idx) =>
      after.mode == h.mode
      && if Legal(h.c, h.mode, idx) then
           after.c == CsrWritten(h.c, idx, NewCsr(kind, CsrValue(h.c, idx).value, h.gpr[rs1], rs1))
         else after.c == h.c && after.x.isExcept
    case _ => after.mode == h.mode && after.c == h.c
  }

  lemma BodyControl(h: Hart, pc: Word, i: Instr, word: Word)
    requires !h.x.isExcept
    ensures ControlAfter(h, i, ExecBody(h, pc, i, word))
    ensures ExecBody(h, pc, i, word).isIrq == h.isIrq
  {
    hide VRead, VWrite, Resolve, CsrWritten, Legal, CsrValue, NewCsr, MretStatus, SretStatus, Mpp, Bit,
         Wrap, SignExtend, ZeroExtend, AmoStored;
  }

  lemma InstructionControl(h: Hart, decode: Decoder)
    ensures FetchFaults(h) ==> FetchAndExec(Cleared(h), decode) == Cleared(h).(x := FetchAndExec(Cleared(h), decode).x)
                               && FetchAndExec(Cleared(h), decode).x.isExcept
    ensures !FetchFaults(h) ==> ControlAfter(h, Executed(h, decode), FetchAndExec(Cleared(h), decode))
    ensures !FetchAndExec(Cleared(h), decode).isIrq
  {
    var h0 := Cleared(h);
    assert h0.MmuEnv() == h.MmuEnv() && h0.p == h.p;
    if !FetchFaults(h) {
      NoFetchFault(h.MmuEnv(), h0.x, h.p.pc);
      var h1 := h0.(p := h0.p.(dnpc := Wrap(h.p.pc + 4)));
      BodyControl(h1, h.p.pc, Executed(h, decode), FetchedWord(h0));
      assert FetchAndExec(h0, decode) == DecodeExec(h0, h.p.pc, Executed(h, decode), FetchedWord(h0));
    }
    hide VFetch, ExecBody, Mpp, MretStatus, SretStatus, CsrWritten, Legal, CsrValue, NewCsr, Bit;
  }

  /** The pending trap number at the end of the instruction part of a step. */
  datatype Pending = Nothing | Pending(no: TrapNo, epc: Word)

  function PendingTrap(mid: Hart, pc: Word, d: Inputs): Pending {
    if mid.x.isExcept then Pending(Exception(mid.x.cause), pc)
    else match QueryIntr(DeviceLines(mid.c, d), mid.mode)
         case NoInterrupt => Nothing
         case Take(irq) => Pending(Interrupt(irq), mid.p.dnpc)
  }

  function Counted(c: Csrs): Csrs {
    c.(minstret := Wrap(c.minstret + 1), mcycle := Wrap(c.mcycle + 1))
  }

  /** The end of a step: device lines, then at most one trap. */
  lemma FinishShape(mid: Hart, pc: Word, d: Inputs)
    requires !mid.isIrq
    ensures var after := FinishStep(mid, pc, d);
            && after.gpr == mid.gpr && after.bus == mid.bus && after.res == mid.res && after.x == mid.x
            && match PendingTrap(mid, pc, d)
               case Nothing => after.c == Counted(DeviceLines(mid.c, d)) && after.mode == mid.mode
                               && after.p.pc == mid.p.dnpc && !after.isIrq
               case Pending(no, epc) =>
                 var entry := Trap(DeviceLines(mid.c, d), mid.mode, mid.x.tval, no, epc);
                 && after.c == Counted(entry.c) && after.mode == entry.mode && after.p.pc == entry.pc
                 && after.isIrq == no.Interrupt?
  {
    hide Trap, QueryIntr, DeviceLines;
  }
}
