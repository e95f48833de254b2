// What holds in every state reachable from reset.
module Invariant {
  import opened Bits
  import opened HartState
  import opened Mmu
  import opened Vaddr
  import opened Intr
  import opened IntrProperties
  import opened Csr
  import opened CsrProperties
  import opened Inst
  import opened CpuExec
  import opened Precise
  import opened StepShape
  import opened Bracketing
  import opened Nesting

  const RESET_VECTOR: Word := 0x8000_0000

  function ZeroCsrs(): Csrs {
    Csrs(0, 0, 0, 0, 0, 0, 0, 0, 0, 0, 0, 0, 0, 0, 0, 0, 0, 0, 0)
  }

  /** The zero-initialised processor. */
  function PowerOn(bus: Bus): Hart {
    Hart(seq(32, i => 0), ZeroCsrs(), ModeU, Pcs(0, 0, 0), Exc(0, EX_IAM, false, false), false, bus, Reservation(0, 0), true)
  }

  /** restart(): spp = 1, mpp = 3, uxl = 2, sxl = 2. */
  function ResetStatus(mstatus: Word): Word {
    SetBit(SetBit(SetBit(SetBit(SetMpp(SetBit(mstatus, SPP, true), ModeM), 33, true), 32, false), 35, true), 34, false)
  }

  function Reset(h: Hart): Hart {
    h.(mode := ModeM, p := h.p.(pc := RESET_VECTOR), x := h.x.(amo := false, isExcept := false), isIrq := false,
       c := h.c.(minstret := 0, mcycle := 0, mstatus := ResetStatus(h.c.mstatus)), gpr := h.gpr[0 := 0])
  }

  method Restart(cpu: Cpu)
    modifies cpu
    ensures cpu.Snap() == Reset(old(cpu.Snap()))
  {
    hide SetBit, SetMpp;
    cpu.mode := ModeM;
    cpu.p := cpu.p.(pc := RESET_VECTOR);
    cpu.x := cpu.x.(amo := false);
    cpu.isIrq := false;
    cpu.x := cpu.x.(isExcept := false);
    cpu.c := cpu.c.(minstret := 0);
    cpu.c := cpu.c.(mcycle := 0);
    cpu.c := cpu.c.(mstatus := ResetStatus(cpu.c.mstatus));
    cpu.gpr := cpu.gpr[0 := 0];
  }

  // ----- the invariant -----

  /** satp is untouched, or selects Sv39 with ASID 0 and page number `root`. */
  datatype Root = Untouched | Written(ppn: nat)

  predicate SatpIs(satp: Word, root: Root) {
    match root
    case Untouched => satp == 0
    case Written(ppn) => SatpMode(satp) == 8 && SatpAsid(satp) == 0 && SatpPpn(satp) == ppn
  }

  ghost predicate Good(h: Hart, root: Root) {
    h.gpr[0] == 0 && ReservedClear(h.c.mstatus) && SatpIs(h.c.satp, root)
  }

  /** The page number of an accepted satp write executed by this step, if any. */
  function RootAfter(h: Hart, i: Instr, root: Root): Root {
    if i.CsrOp? && i.idx == 0x180 && Legal(h.c, h.mode, 0x180) then
      var w := NewCsr(i.kind, h.c.satp, h.gpr[i.rs1], i.rs1);
      if SatpMode(w) == 8 then Written(SatpPpn(w)) else root
    else root
  }

  function NewRoot(h: Hart, decode: Decoder, root: Root): Root {
    if FetchFaults(h) then root else RootAfter(h, Executed(h, decode), root)
  }

  lemma TrapKeepsGood(c: Csrs, mode: Mode, tval: Word, no: TrapNo, epc: Word)
    requires ReservedClear(c.mstatus)
    ensures ReservedClear(Trap(c, mode, tval, no, epc).c.mstatus) && Trap(c, mode, tval, no, epc).c.satp == c.satp
  {
    EntrySBits(c.mstatus, mode);
    EntryMBits(c.mstatus, mode);
    hide EnterS, EnterM, Bit, DelegatedToS, Number, TrapPc, TrapValue;
  }

  lemma XretKeepsGood(mstatus: Word)
    requires ReservedClear(mstatus)
    ensures ReservedClear(MretStatus(mstatus)) && ReservedClear(SretStatus(mstatus))
  {
    MretBits(mstatus);
    SretBits(mstatus);
    hide MretStatus, SretStatus, Bit;
  }

  lemma OtherCsrsKeepSatp(c: Csrs, idx: nat, w: Word)
    requires idx != 0x180
    ensures CsrWritten(c, idx, w).satp == c.satp
  {
    hide Merge;
  }

  lemma CsrKeepsGood(c: Csrs, idx: nat, w: Word, root: Root)
    requires ReservedClear(c.mstatus) && SatpIs(c.satp, root)
    ensures var after := CsrWritten(c, idx, w);
            && ReservedClear(after.mstatus)
            && SatpIs(after.satp, if idx == 0x180 && SatpMode(w) == 8 then Written(SatpPpn(w)) else root)
  {
    CsrWriteKeepsReserved(c, idx, w);
    if idx == 0x180 {
      if SatpMode(w) == 8 {
        SatpWrite(c, w);
      } else {
        RejectedSatpWrite(c, w);
      }
    } else {
      OtherCsrsKeepSatp(c, idx, w);
    }
    hide CsrWritten, SatpAsid, SatpPpn, ReservedClear;
  }

  lemma RejectedSatpWrite(c: Csrs, w: Word)
    requires SatpMode(w) != 8
    ensures CsrWritten(c, 0x180, w) == c
  {
    hide Merge;
  }

  lemma ZeroRegister(h: Hart, decode: Decoder)
    requires h.gpr[0] == 0
    ensures FetchAndExec(Cleared(h), decode).gpr[0] == 0
  {
    hide VFetch, ExecBody;
  }

  lemma ControlKeepsGood(h: Hart, i: Instr, after: Hart, root: Root)
    requires ControlAfter(h, i, after) && ReservedClear(h.c.mstatus) && SatpIs(h.c.satp, root)
    ensures ReservedClear(after.c.mstatus) && SatpIs(after.c.satp, RootAfter(h, i, root))
  {
    hide CsrWritten, NewCsr, Mpp, MretStatus, SretStatus, Bit, SatpIs, ReservedClear, SatpMode, SatpPpn, CsrValue;
    match i {
      case Mret => XretKeepsGood(h.c.mstatus);
      case Sret => XretKeepsGood(h.c.mstatus);
      case CsrOp(kind, _, rs1, idx) =>
        SatpReads(h.c);
        if Legal(h.c, h.mode, idx) {
          CsrKeepsGood(h.c, idx, NewCsr(kind, CsrValue(h.c, idx).value, h.gpr[rs1], rs1), root);
        }
      case _ =>
    }
  }

  lemma InstructionKeepsGood(h: Hart, decode: Decoder, root: Root)
    requires Good(h, root)
    ensures Good(FetchAndExec(Cleared(h), decode), NewRoot(h, decode, root))
  {
    hide FetchAndExec, FetchFaults, Executed, ControlAfter, SatpIs, ReservedClear, RootAfter;
    InstructionControl(h, decode);
    ZeroRegister(h, decode);
    if !FetchFaults(h) {
      ControlKeepsGood(h, Executed(h, decode), FetchAndExec(Cleared(h), decode), root);
    }
  }

  lemma SatpReads(c: Csrs)
    ensures CsrValue(c, 0x180) == Known(c.satp)
  {}

  lemma StepKeepsGood(h: Hart, decode: Decoder, d: Inputs, root: Root)
    requires Good(h, root)
    ensures Good(Step(h, decode, d), NewRoot(h, decode, root))
  {
    hide FetchAndExec, FinishStep, SatpIs, ReservedClear, NewRoot, Trap;
    InstructionKeepsGood(h, decode, root);
    InstructionControl(h, decode);
    var mid := FetchAndExec(Cleared(h), decode);
    FinishShape(mid, h.p.pc, d);
    match PendingTrap(mid, h.p.pc, d) {
      case Nothing =>
      case Pending(no, epc) => TrapKeepsGood(DeviceLines(mid.c, d), mid.mode, mid.x.tval, no, epc);
    }
  }

  // ----- runs from reset -----

  function LastRoot(h: Hart, decode: Decoder, inputs: nat -> Inputs, n: nat): Root
    decreases n
  {
    if n == 0 then Untouched
    else NewRoot(Run(h, decode, inputs, n - 1), decode, LastRoot(h, decode, inputs, n - 1))
  }

  lemma ResetIsGood(bus: Bus)
    ensures Good(Reset(PowerOn(bus)), Untouched)
  {
    hide Put;
    forall i: nat | 44 <= i < 60 ensures !Bit(ResetStatus(0), i) {
      SetMppBits(SetBit(0, SPP, true), ModeM);
      BitOfZero(i);
    }
  }

  /** In every state reachable from reset x0 is zero, mstatus bits 44 to 59 are
      clear, and satp is still zero or holds mode 8, ASID 0 and the page number of
      the last accepted write. */
  lemma {:induction false} ReachableStatesAreGood(bus: Bus, decode: Decoder, inputs: nat -> Inputs, n: nat)
    ensures Good(Run(Reset(PowerOn(bus)), decode, inputs, n), LastRoot(Reset(PowerOn(bus)), decode, inputs, n))
    decreases n
  {
    hide Step, Good, NewRoot, Reset;
    if n == 0 {
      ResetIsGood(bus);
    } else {
      ReachableStatesAreGood(bus, decode, inputs, n - 1);
      StepKeepsGood(Run(Reset(PowerOn(bus)), decode, inputs, n - 1), decode, inputs(n - 1),
                    LastRoot(Reset(PowerOn(bus)), decode, inputs, n - 1));
    }
  }

  lemma {:induction false} RootStaysWritten(h: Hart, decode: Decoder, inputs: nat -> Inputs, j: nat, k: nat)
    requires j <= k && LastRoot(h, decode, inputs, j).Written?
    ensures LastRoot(h, decode, inputs, k).Written?
    decreases k
  {
    hide Run, FetchFaults, Executed, Legal, NewCsr, SatpMode, SatpPpn;
    if j < k {
      RootStaysWritten(h, decode, inputs, j, k - 1);
    }
  }

  lemma ModeTellsRoot(h: Hart, root: Root)
    requires Good(h, root)
    ensures SatpMode(h.c.satp) == (if root.Written? then 8 else 0)
  {
    hide ReservedClear;
  }

  /** From reset satp.mode is 0 or 8, and once it is 8 it never leaves 8. */
  lemma Sv39StaysSelected(bus: Bus, decode: Decoder, inputs: nat -> Inputs, j: nat, k: nat)
    requires j <= k
    ensures var reset := Reset(PowerOn(bus));
            var earlier, later := SatpMode(Run(reset, decode, inputs, j).c.satp), SatpMode(Run(reset, decode, inputs, k).c.satp);
            (later == 0 || later == 8) && (earlier == 8 ==> later == 8)
  {
    hide *;
    var reset := Reset(PowerOn(bus));
    ReachableStatesAreGood(bus, decode, inputs, j);
    ReachableStatesAreGood(bus, decode, inputs, k);
    ModeTellsRoot(Run(reset, decode, inputs, j), LastRoot(reset, decode, inputs, j));
    ModeTellsRoot(Run(reset, decode, inputs, k), LastRoot(reset, decode, inputs, k));
    if LastRoot(reset, decode, inputs, j).Written? {
      RootStaysWritten(reset, decode, inputs, j, k);
    }
  }

  // ----- the mode -----

  /** Neither the mode nor mpp is the reserved value. */
  ghost predicate ModesLegal(mode: Mode, mstatus: Word) {
    !mode.ModeH? && !Mpp(mstatus).ModeH?
  }

  /** The step does not ask for the reserved value in mpp: the only instruction
      that could is a legal write to mstatus. */
  predicate RequestsLegalMpp(h: Hart, decode: Decoder) {
    var i := Executed(h, decode);
    !FetchFaults(h) && i.CsrOp? && i.idx == 0x300 && Legal(h.c, h.mode, 0x300) ==>
      !Mpp(NewCsr(i.kind, CsrValue(h.c, 0x300).value, h.gpr[i.rs1], i.rs1)).ModeH?
  }

  lemma MppMasks()
    ensures Bit(MSTATUS_WRITE, MPP_LO) && Bit(MSTATUS_WRITE, MPP_HI)
    ensures !Bit(SSTATUS_WRITE, MPP_LO) && !Bit(SSTATUS_WRITE, MPP_HI)
  {
    hide Bit;
    MstatusMask(11);
    MstatusMask(12);
    SstatusMask(11);
    SstatusMask(12);
  }

  /** A CSR write leaves mpp alone, or takes it from the value written. */
  lemma CsrWriteMpp(c: Csrs, idx: nat, w: Word)
    ensures Mpp(CsrWritten(c, idx, w).mstatus) == if idx == 0x300 then Mpp(w) else Mpp(c.mstatus)
  {
    hide Bit, Bitwise;
    MppMasks();
    if idx == 0x300 {
      MppFromBits(CsrWritten(c, idx, w).mstatus, w);
    } else if idx == 0x100 {
      MppFromBits(CsrWritten(c, idx, w).mstatus, c.mstatus);
    } else {
      OtherCsrsKeepStatus(c, idx, w);
    }
  }

  lemma ControlKeepsModes(h: Hart, i: Instr, after: Hart)
    requires ControlAfter(h, i, after) && ModesLegal(h.mode, h.c.mstatus)
    requires i.CsrOp? && i.idx == 0x300 && Legal(h.c, h.mode, 0x300) ==>
               !Mpp(NewCsr(i.kind, CsrValue(h.c, 0x300).value, h.gpr[i.rs1], i.rs1)).ModeH?
    ensures ModesLegal(after.mode, after.c.mstatus)
  {
    hide CsrWritten, NewCsr, Mpp, MretStatus, SretStatus, Bit, CsrValue;
    match i {
      case Mret => MretBits(h.c.mstatus);
      case Sret =>
        SretBits(h.c.mstatus);
        MppFromBits(SretStatus(h.c.mstatus), h.c.mstatus);
      case CsrOp(kind, _, rs1, idx) =>
        if Legal(h.c, h.mode, idx) {
          CsrWriteMpp(h.c, idx, NewCsr(kind, CsrValue(h.c, idx).value, h.gpr[rs1], rs1));
        }
      case _ =>
    }
  }

  lemma TrapKeepsModes(c: Csrs, mode: Mode, tval: Word, no: TrapNo, epc: Word)
    requires ModesLegal(mode, c.mstatus)
    ensures var after := Trap(c, mode, tval, no, epc);
            ModesLegal(after.mode, after.c.mstatus)
  {
    hide EnterS, EnterM, Mpp, Bit, DelegatedToS, Number, TrapPc, TrapValue;
    EntrySKeepsMpp(c.mstatus, mode);
    EntryMBits(c.mstatus, mode);
  }

  lemma EntrySKeepsMpp(mstatus: Word, mode: Mode)
    ensures Mpp(EnterS(mstatus, mode)) == Mpp(mstatus)
  {
    hide Bit, EnterS;
    EntrySBits(mstatus, mode);
    MppFromBits(EnterS(mstatus, mode), mstatus);
  }

  lemma StepKeepsModes(h: Hart, decode: Decoder, d: Inputs)
    requires ModesLegal(h.mode, h.c.mstatus) && RequestsLegalMpp(h, decode)
    ensures ModesLegal(Step(h, decode, d).mode, Step(h, decode, d).c.mstatus)
  {
    hide FetchAndExec, FinishStep, Trap, Mpp, QueryIntr, CsrValue, NewCsr, Legal, FetchFaults, Executed, ControlAfter, ModesLegal;
    InstructionControl(h, decode);
    var mid := FetchAndExec(Cleared(h), decode);
    if !FetchFaults(h) {
      ControlKeepsModes(h, Executed(h, decode), mid);
    }
    FinishShape(mid, h.p.pc, d);
    match PendingTrap(mid, h.p.pc, d) {
      case Nothing =>
      case Pending(no, epc) => TrapKeepsModes(DeviceLines(mid.c, d), mid.mode, mid.x.tval, no, epc);
    }
  }

  /** If no instruction writes the reserved value to mpp, neither the mode nor mpp
      is ever reserved: traps stack a legal mode and returns restore one.  Hence
      the emulator's assertion on the translated mode never fires. */
  lemma {:induction false} ModeIsNeverReserved(h: Hart, decode: Decoder, inputs: nat -> Inputs, n: nat)
    requires ModesLegal(h.mode, h.c.mstatus)
    requires forall k: nat :: k < n ==> RequestsLegalMpp(Run(h, decode, inputs, k), decode)
    ensures ModesLegal(Run(h, decode, inputs, n).mode, Run(h, decode, inputs, n).c.mstatus)
    ensures NoHypervisor(Run(h, decode, inputs, n).c.mstatus, Run(h, decode, inputs, n).mode)
    decreases n
  {
    hide Step, Mpp, RequestsLegalMpp, Bit;
    if n > 0 {
      ModeIsNeverReserved(h, decode, inputs, n - 1);
      StepKeepsModes(Run(h, decode, inputs, n - 1), decode, inputs(n - 1));
    }
  }

  /** Reset starts legal. */
  lemma ResetModesLegal(h: Hart)
    ensures ModesLegal(Reset(h).mode, Reset(h).c.mstatus)
  {
    var s := SetMpp(SetBit(h.c.mstatus, SPP, true), ModeM);
    SetMppBits(SetBit(h.c.mstatus, SPP, true), ModeM);
    MppFromBits(ResetStatus(h.c.mstatus), s);
    hide SetMpp, Mpp, Put, Bit;
  }

  // ----- the counters -----

  lemma CsrWritesKeepCounters(c: Csrs, idx: nat, w: Word)
    ensures CsrWritten(c, idx, w).minstret == c.minstret && CsrWritten(c, idx, w).mcycle == c.mcycle
  {
    hide Merge;
  }

  lemma TrapKeepsCounters(c: Csrs, mode: Mode, tval: Word, no: TrapNo, epc: Word)
    ensures Trap(c, mode, tval, no, epc).c.minstret == c.minstret && Trap(c, mode, tval, no, epc).c.mcycle == c.mcycle
  {
    hide DelegatedToS, EnterS, EnterM, Number, TrapPc, TrapValue;
  }

  lemma InstructionKeepsCounters(h: Hart, decode: Decoder)
    ensures var mid := FetchAndExec(Cleared(h), decode);
            mid.c.minstret == h.c.minstret && mid.c.mcycle == h.c.mcycle
  {
    InstructionControl(h, decode);
    var i := Executed(h, decode);
    if i.CsrOp? && Legal(h.c, h.mode, i.idx) {
      CsrWritesKeepCounters(h.c, i.idx, NewCsr(i.kind, CsrValue(h.c, i.idx).value, h.gpr[i.rs1], i.rs1));
    }
    hide FetchAndExec, Mpp, CsrWritten, CsrValue, NewCsr, Legal, FetchFaults, Executed, MretStatus, SretStatus, Bit;
  }

  lemma StepCounts(h: Hart, decode: Decoder, d: Inputs)
    ensures Step(h, decode, d).c.minstret == Wrap(h.c.minstret + 1) && Step(h, decode, d).c.mcycle == Wrap(h.c.mcycle + 1)
  {
    hide FetchAndExec, FinishStep, Trap, QueryIntr, SetBit, Wrap;
    InstructionKeepsCounters(h, decode);
    InstructionControl(h, decode);
    var mid := FetchAndExec(Cleared(h), decode);
    FinishShape(mid, h.p.pc, d);
    match PendingTrap(mid, h.p.pc, d) {
      case Nothing =>
      case Pending(no, epc) => TrapKeepsCounters(DeviceLines(mid.c, d), mid.mode, mid.x.tval, no, epc);
    }
  }

  /** After n steps minstret and mcycle have both advanced by n, modulo 2^64;
      nothing the guest does can change them. */
  lemma {:induction false} CountersCountSteps(h: Hart, decode: Decoder, inputs: nat -> Inputs, n: nat)
    ensures Run(h, decode, inputs, n).c.minstret == Wrap(h.c.minstret + n)
    ensures Run(h, decode, inputs, n).c.mcycle == Wrap(h.c.mcycle + n)
    decreases n
  {
    hide Step;
    if n > 0 {
      CountersCountSteps(h, decode, inputs, n - 1);
      StepCounts(Run(h, decode, inputs, n - 1), decode, inputs(n - 1));
      WrapKeepsSlot(h.c.minstret, n - 1);
      WrapKeepsSlot(h.c.mcycle, n - 1);
    }
  }

  /** What a program reads from minstret (0xb02) and mcycle (0xb00) after n steps. */
  lemma CountersAreRead(h: Hart, decode: Decoder, inputs: nat -> Inputs, n: nat)
    ensures CsrValue(Run(h, decode, inputs, n).c, 0xb02) == Known((h.c.minstret + n) % 0x1_0000_0000_0000_0000)
    ensures CsrValue(Run(h, decode, inputs, n).c, 0xb00) == Known((h.c.mcycle + n) % 0x1_0000_0000_0000_0000)
  {
    CountersCountSteps(h, decode, inputs, n);
    CounterNumbers(Run(h, decode, inputs, n).c);
    hide Run, CsrValue;
  }

  lemma CounterNumbers(c: Csrs)
    ensures CsrValue(c, 0xb02) == Known(c.minstret) && CsrValue(c, 0xb00) == Known(c.mcycle)
  {}

  /** Reset starts in M mode at 0x80000000 with SPP (bit 8), MPP (12 and 11), UXL
      and SXL (33 to 32 and 35 to 34) set to S, M, 2 and 2, the counters at zero
      and all other bits of mstatus kept. */
  lemma ResetState(h: Hart)
    ensures var r := Reset(h);
            && r.mode == ModeM && r.p.pc == 0x8000_0000 && r.gpr[0] == 0 && r.c.minstret == 0 && r.c.mcycle == 0
            && Bit(r.c.mstatus, 8) && Bit(r.c.mstatus, 12) && Bit(r.c.mstatus, 11)
            && Bit(r.c.mstatus, 33) && !Bit(r.c.mstatus, 32) && Bit(r.c.mstatus, 35) && !Bit(r.c.mstatus, 34)
            && forall i: nat :: i !in {8, 11, 12, 32, 33, 34, 35} ==> Bit(r.c.mstatus, i) == Bit(h.c.mstatus, i)
  {
    SetMppBits(SetBit(h.c.mstatus, SPP, true), ModeM);
    ModeBits(SetMpp(SetBit(h.c.mstatus, SPP, true), ModeM));
    hide SetMpp, Mpp, Put, Bit;
  }

  lemma ModeBits(mstatus: Word)
    ensures Mpp(mstatus) == ModeM <==> Bit(mstatus, 12) && Bit(mstatus, 11)
  {
    hide Bit;
  }
}
