// Traps, interrupts and CSRs in the numbers that software sees: trap numbers,
// mstatus bit positions, interrupt numbers and CSR numbers.
module TrapProperties {
  import opened Bits
  import opened HartState
  import opened Intr
  import opened IntrProperties
  import opened Csr
  import opened CsrProperties
  import opened Inst
  import opened Precise

  // ----- trap entry -----

  /** The trap number in the CSR of the level entered: bit 63 and the interrupt's
      number, or the number of the exception. */
  lemma TrapNumbers(c: Csrs, mode: Mode, tval: Word, no: TrapNo, epc: Word)
    requires no.Interrupt? ==> no.irq < 16
    ensures var t := Trap(c, mode, tval, no, epc);
            var xcause := if t.mode.ModeS? then t.c.scause else t.c.mcause;
            match no
            case Interrupt(irq) => xcause / 0x8000_0000_0000_0000 == 1 && xcause % 0x8000_0000_0000_0000 == irq
            case Exception(cause) =>
              xcause == match cause
                        case EX_IAM => 0  case EX_IAF => 1  case EX_II => 2   case EX_BP => 3
                        case EX_LAM => 4  case EX_LAF => 5  case EX_SAM => 6  case EX_SAF => 7
                        case EX_ECU => 8  case EX_ECS => 9  case EX_RS0 => 10 case EX_ECM => 11
                        case EX_IPF => 12 case EX_LPF => 13 case EX_RS1 => 14 case EX_SPF => 15
  {
    hide EnterS, EnterM, Bit, TrapPc, TrapValue;
  }

  /** The level entered: S exactly when the trap comes from below M and the bit
      of its number is set in mideleg or medeleg. */
  lemma TrapLevelBits(c: Csrs, mode: Mode, tval: Word, no: TrapNo, epc: Word)
    requires no.Interrupt? ==> no.irq < 16
    ensures var t := Trap(c, mode, tval, no, epc);
            var xcause := if t.mode.ModeS? then t.c.scause else t.c.mcause;
            var delegated := match no
                             case Interrupt(irq) => Bit(c.mideleg, irq)
                             case Exception(_) => Bit(c.medeleg, xcause);
            t.mode == if !mode.ModeM? && delegated then ModeS else ModeM
  {
    hide EnterS, EnterM, Bit, TrapPc, TrapValue;
  }

  /** xtval is the given address for address misaligned (4, 6), access (1, 5, 7)
      and page faults (12, 13, 15), and 0 for every other trap. */
  lemma TrapAddress(c: Csrs, mode: Mode, tval: Word, no: TrapNo, epc: Word)
    requires no.Interrupt? ==> no.irq < 16
    ensures var t := Trap(c, mode, tval, no, epc);
            var xcause := if t.mode.ModeS? then t.c.scause else t.c.mcause;
            var xtval := if t.mode.ModeS? then t.c.stval else t.c.mtval;
            xtval == if xcause in {1, 4, 5, 6, 7, 12, 13, 15} then tval else 0
  {
    TrapNumbers(c, mode, tval, no, epc);
    hide EnterS, EnterM, Bit, TrapPc;
  }

  /** The handler: the base of xtvec, or with its bit 0 set, for interrupts, four
      times the number beyond it. */
  lemma TrapTarget(c: Csrs, mode: Mode, tval: Word, no: TrapNo, epc: Word)
    requires no.Interrupt? ==> no.irq < 16
    ensures var t := Trap(c, mode, tval, no, epc);
            var xtvec := if t.mode.ModeS? then c.stvec else c.mtvec;
            t.pc == if no.Interrupt? && xtvec % 2 == 1 then (xtvec / 4 * 4 + 4 * no.irq) % 0x1_0000_0000_0000_0000
                    else xtvec / 4 * 4
  {
    hide EnterS, EnterM, Bit, TrapValue, Number;
  }

  /** Entry to S moves SIE (bit 1) to SPIE (bit 5), clears it and records in SPP
      (bit 8) whether the trap came from S; entry to M does the same with bits 3
      and 7 and records the mode in bits 12 and 11.  All other bits stay. */
  lemma TrapStatusBits(c: Csrs, mode: Mode, tval: Word, no: TrapNo, epc: Word)
    requires !mode.ModeH?
    ensures var t := Trap(c, mode, tval, no, epc);
            var a, b := c.mstatus, t.c.mstatus;
            if t.mode.ModeS? then
              && Bit(b, 5) == Bit(a, 1) && !Bit(b, 1) && Bit(b, 8) == mode.ModeS?
              && forall i: nat :: i != 1 && i != 5 && i != 8 ==> Bit(b, i) == Bit(a, i)
            else
              && Bit(b, 7) == Bit(a, 3) && !Bit(b, 3) && Bit(b, 12) == mode.ModeM? && Bit(b, 11) == !mode.ModeU?
              && forall i: nat :: i != 3 && i != 7 && i != 11 && i != 12 ==> Bit(b, i) == Bit(a, i)
  {
    TrapLevel(c, mode, tval, no, epc);
    NotFromMachine(c, mode, no);
    EntrySBits(c.mstatus, mode);
    EntryMBits(c.mstatus, mode);
    hide EnterS, EnterM, Number, TrapPc, TrapValue, Bit, DelegatedToS;
  }

  lemma NotFromMachine(c: Csrs, mode: Mode, no: TrapNo)
    ensures DelegatedToS(c, mode, no) ==> !mode.ModeM?
  {
    hide Bit;
  }

  /** mret and sret undo it: the pc from xepc, the mode from MPP or SPP, the enable
      from bit 7 or 5, which becomes set, and MPP or SPP cleared. */
  lemma ReturnStatusBits(h: Hart)
    ensures var after := ExecMret(h);
            var a, b := h.c.mstatus, after.c.mstatus;
            && after.p.dnpc == h.c.mepc
            && after.mode == (if Bit(a, 12) then (if Bit(a, 11) then ModeM else ModeH) else if Bit(a, 11) then ModeS else ModeU)
            && Bit(b, 3) == Bit(a, 7) && Bit(b, 7) && !Bit(b, 11) && !Bit(b, 12)
            && forall i: nat :: i != 3 && i != 7 && i != 11 && i != 12 ==> Bit(b, i) == Bit(a, i)
    ensures var after := ExecSret(h);
            var a, b := h.c.mstatus, after.c.mstatus;
            && after.p.dnpc == h.c.sepc && after.mode == (if Bit(a, 8) then ModeS else ModeU)
            && Bit(b, 1) == Bit(a, 5) && Bit(b, 5) && !Bit(b, 8)
            && forall i: nat :: i != 1 && i != 5 && i != 8 ==> Bit(b, i) == Bit(a, i)
  {
    SetMppBits(SetBit(SetBit(h.c.mstatus, MIE, Bit(h.c.mstatus, MPIE)), MPIE, true), ModeU);
    hide Put, SetMpp, Bit;
  }

  // ----- which interrupt -----

  /** The order MEI (11), MSI (3), MTI (7), SEI (9), SSI (1), STI (5), UEI (8),
      USI (0), UTI (4). */
  lemma PriorityOrder(c: Csrs, mode: Mode)
    ensures var q := QueryIntr(c, mode);
            var r := (k: nat) => Ready(c, mode, k);
            && (q == Take(11) <==> r(11))
            && (q == Take(3) <==> r(3) && !r(11))
            && (q == Take(7) <==> r(7) && !r(11) && !r(3))
            && (q == Take(9) <==> r(9) && !r(11) && !r(3) && !r(7))
            && (q == Take(1) <==> r(1) && !r(11) && !r(3) && !r(7) && !r(9))
            && (q == Take(5) <==> r(5) && !r(11) && !r(3) && !r(7) && !r(9) && !r(1))
            && (q == Take(8) <==> r(8) && !r(11) && !r(3) && !r(7) && !r(9) && !r(1) && !r(5))
            && (q == Take(0) <==> r(0) && !r(11) && !r(3) && !r(7) && !r(9) && !r(1) && !r(5) && !r(8))
            && (q == Take(4) <==> r(4) && !r(11) && !r(3) && !r(7) && !r(9) && !r(1) && !r(5) && !r(8) && !r(0))
            && (q == NoInterrupt <==> !r(11) && !r(3) && !r(7) && !r(9) && !r(1) && !r(5) && !r(8) && !r(0) && !r(4))
            && (q.Take? ==> q.irq in {11, 3, 7, 9, 1, 5, 8, 0, 4})
  {
    var j := FirstReadyIsFirst(c, mode, 0);
    hide Ready, FirstReady;
    assert forall i :: 0 <= i < j ==> !Ready(c, mode, PRIORITY[i]);
    assert PRIORITY[0] == 11 && PRIORITY[1] == 3 && PRIORITY[2] == 7 && PRIORITY[3] == 9 && PRIORITY[4] == 1;
    assert PRIORITY[5] == 5 && PRIORITY[6] == 8 && PRIORITY[7] == 0 && PRIORITY[8] == 4;
  }

  /** What CSR reads say about an interrupt: it is ready when pending in mip
      (0x344), enabled in mie (0x304) and admitted -- a delegated one (mideleg,
      0x303) in U mode and in S mode with mstatus (0x300) bit 1, another one
      below M and in M mode with bit 3. */
  lemma ReadinessIsRead(c: Csrs, mode: Mode, irq: nat)
    ensures CsrValue(c, 0x344).Known? && CsrValue(c, 0x304).Known? && CsrValue(c, 0x303).Known? && CsrValue(c, 0x300).Known?
    ensures Ready(c, mode, irq) <==>
              && Bit(CsrValue(c, 0x344).value, irq) && Bit(CsrValue(c, 0x304).value, irq)
              && if Bit(CsrValue(c, 0x303).value, irq) then mode.ModeU? || (mode.ModeS? && Bit(CsrValue(c, 0x300).value, 1))
                 else !mode.ModeM? || Bit(CsrValue(c, 0x300).value, 3)
  {
    hide Bit;
  }

  // ----- CSR numbers and the rest of the machine -----

  /** After a trap, reads of sepc, scause and stval (0x141 to 0x143) or of mepc,
      mcause and mtval (0x341 to 0x343) give its pc, number and address; those of
      the other level read as before. */
  lemma TrapIsRead(c: Csrs, mode: Mode, tval: Word, no: TrapNo, epc: Word)
    requires no.Interrupt? ==> no.irq < 16
    ensures var t := Trap(c, mode, tval, no, epc);
            var s := t.mode.ModeS?;
            && CsrValue(t.c, if s then 0x141 else 0x341) == Known(epc)
            && CsrValue(t.c, if s then 0x341 else 0x141) == CsrValue(c, if s then 0x341 else 0x141)
            && CsrValue(t.c, if s then 0x342 else 0x142) == CsrValue(c, if s then 0x342 else 0x142)
            && CsrValue(t.c, if s then 0x343 else 0x143) == CsrValue(c, if s then 0x343 else 0x143)
            && CsrValue(t.c, if s then 0x142 else 0x342).Known? && CsrValue(t.c, if s then 0x143 else 0x343).Known?
            && var xcause, xtval := CsrValue(t.c, if s then 0x142 else 0x342).value, CsrValue(t.c, if s then 0x143 else 0x343).value;
            && (no.Interrupt? ==> xcause == 0x8000_0000_0000_0000 + no.irq)
            && (no == Exception(EX_II) ==> xcause == 2) && (no == Exception(EX_LAM) ==> xcause == 4)
            && (no == Exception(EX_SAM) ==> xcause == 6) && (no == Exception(EX_ECU) ==> xcause == 8)
            && (no == Exception(EX_ECS) ==> xcause == 9) && (no == Exception(EX_ECM) ==> xcause == 11)
            && (no == Exception(EX_IPF) ==> xcause == 12) && (no == Exception(EX_LPF) ==> xcause == 13)
            && (no == Exception(EX_SPF) ==> xcause == 15)
            && xtval == if xcause in {1, 4, 5, 6, 7, 12, 13, 15} then tval else 0
  {
    hide Trap, CsrValue, DelegatedToS;
    TrapNumbers(c, mode, tval, no, epc);
    TrapAddress(c, mode, tval, no, epc);
    TrapLevel(c, mode, tval, no, epc);
    TrapFields(c, mode, tval, no, epc);
    TrapCsrNumbers(c);
    TrapCsrNumbers(Trap(c, mode, tval, no, epc).c);
    hide Number, ReportsAddress, Code;
  }

  lemma TrapCsrNumbers(c: Csrs)
    ensures CsrValue(c, 0x141) == Known(c.sepc) && CsrValue(c, 0x142) == Known(c.scause) && CsrValue(c, 0x143) == Known(c.stval)
    ensures CsrValue(c, 0x341) == Known(c.mepc) && CsrValue(c, 0x342) == Known(c.mcause) && CsrValue(c, 0x343) == Known(c.mtval)
  {}

  lemma TrapCsrsWritten(c: Csrs, w: Word)
    ensures CsrWritten(c, 0x105, w) == c.(stvec := w) && CsrWritten(c, 0x305, w) == c.(mtvec := w)
    ensures CsrWritten(c, 0x302, w) == c.(medeleg := w) && CsrWritten(c, 0x303, w) == c.(mideleg := w)
    ensures CsrWritten(c, 0x141, w) == c.(sepc := w) && CsrWritten(c, 0x341, w) == c.(mepc := w)
  {}

  /** A value written to stvec (0x105) or mtvec (0x305) is where the next trap to
      that level goes. */
  lemma WrittenVectorIsTaken(c: Csrs, w: Word, mode: Mode, tval: Word, no: TrapNo, epc: Word)
    requires no.Interrupt? ==> no.irq < 16
    ensures var target := if no.Interrupt? && w % 2 == 1 then (w / 4 * 4 + 4 * no.irq) % 0x1_0000_0000_0000_0000 else w / 4 * 4;
            && (Trap(CsrWritten(c, 0x105, w), mode, tval, no, epc).mode.ModeS? ==>
                  Trap(CsrWritten(c, 0x105, w), mode, tval, no, epc).pc == target)
            && (Trap(CsrWritten(c, 0x305, w), mode, tval, no, epc).mode.ModeM? ==>
                  Trap(CsrWritten(c, 0x305, w), mode, tval, no, epc).pc == target)
  {
    hide Trap, CsrWritten;
    TrapCsrsWritten(c, w);
    TrapTarget(CsrWritten(c, 0x105, w), mode, tval, no, epc);
    TrapTarget(CsrWritten(c, 0x305, w), mode, tval, no, epc);
  }

  /** A value written to medeleg (0x302) decides the level of exceptions, one
      written to mideleg (0x303) that of interrupts. */
  lemma WrittenDelegationDecides(c: Csrs, w: Word, mode: Mode, tval: Word, epc: Word, cause: Cause, irq: nat)
    requires irq < 16
    ensures Trap(CsrWritten(c, 0x303, w), mode, tval, Interrupt(irq), epc).mode
            == if !mode.ModeM? && Bit(w, irq) then ModeS else ModeM
    ensures var t := Trap(CsrWritten(c, 0x302, w), mode, tval, Exception(cause), epc);
            var xcause := if t.mode.ModeS? then t.c.scause else t.c.mcause;
            t.mode == if !mode.ModeM? && Bit(w, xcause) then ModeS else ModeM
  {
    hide Trap, Bit, CsrWritten;
    TrapCsrsWritten(c, w);
    TrapLevelBits(CsrWritten(c, 0x303, w), mode, tval, Interrupt(irq), epc);
    TrapLevelBits(CsrWritten(c, 0x302, w), mode, tval, Exception(cause), epc);
  }

  /** A value written to sepc (0x141) or mepc (0x341) is where the return goes. */
  lemma WrittenEpcIsResumed(h: Hart, w: Word)
    ensures ExecSret(h.(c := CsrWritten(h.c, 0x141, w))).p.dnpc == w
    ensures ExecMret(h.(c := CsrWritten(h.c, 0x341, w))).p.dnpc == w
  {
    hide MretStatus, SretStatus, Bit, CsrWritten;
    TrapCsrsWritten(h.c, w);
  }

  /** Translation is steered by what satp (0x180) and mstatus (0x300) read. */
  lemma TranslationReadsCsrs(h: Hart)
    ensures CsrValue(h.c, 0x180) == Known(h.MmuEnv().satp) && CsrValue(h.c, 0x300) == Known(h.MmuEnv().mstatus)
  {}

  /** misa (0x301) announces a 64-bit machine (2 in the top bits) with the letters
      U (bit 20), S (18), M (12), I (8) and A (0). */
  lemma MisaLetters(c: Csrs)
    ensures CsrValue(c, 0x301) == Known(2 * 0x4000_0000_0000_0000 + 0x10_0000 + 0x4_0000 + 0x1000 + 0x100 + 1)
  {}
}
