// What a whole step leaves in the registers, in memory, in the pc and in the trap
// registers, instruction by instruction.
module StepResults {
  import opened Bits
  import opened HartState
  import opened Paddr
  import opened Mmu
  import opened Vaddr
  import opened VaddrProperties
  import opened Intr
  import opened Csr
  import opened Inst
  import opened CpuExec
  import opened Precise
  import opened StepShape
  import opened AmoProperties
  import opened TrapProperties

  // ----- the body of a step -----

  /** The state in which the instruction executes. */
  function Started(h: Hart): Hart {
    Cleared(h).(p := h.p.(dnpc := Wrap(h.p.pc + 4)))
  }

  function Body(h: Hart, decode: Decoder): Hart {
    ExecBody(Started(h), h.p.pc, Executed(h, decode), FetchedWord(Cleared(h)))
  }

  lemma FetchAndExecIsBody(h: Hart, decode: Decoder)
    requires !FetchFaults(h)
    ensures Started(h).MmuEnv() == h.MmuEnv()
    ensures FetchAndExec(Cleared(h), decode) == Body(h, decode).(gpr := Body(h, decode).gpr[0 := 0])
    ensures !Body(h, decode).isIrq
  {
    var h0 := Cleared(h);
    assert h0.MmuEnv() == h.MmuEnv() && h0.p == h.p;
    NoFetchFault(h.MmuEnv(), h0.x, h.p.pc);
    BodyControl(Started(h), h.p.pc, Executed(h, decode), FetchedWord(h0));
    hide VFetch, ExecBody, ControlAfter;
  }

  /** Registers, memory and the pending exception of a step are those of its body. */
  lemma StepIsBody(h: Hart, decode: Decoder, d: Inputs)
    requires !FetchFaults(h)
    ensures var after, body := Step(h, decode, d), Body(h, decode);
            after.gpr == body.gpr[0 := 0] && after.bus == body.bus && after.x == body.x && after.res == body.res
  {
    hide FetchAndExec, FinishStep, Body, Trap, FetchFaults;
    FetchAndExecIsBody(h, decode);
    FinishShape(FetchAndExec(Cleared(h), decode), h.p.pc, d);
  }

  lemma StartedFacts(h: Hart)
    ensures var h1 := Started(h);
            && h1.gpr == h.gpr && h1.MmuEnv() == h.MmuEnv() && h1.bus == h.bus && h1.x == Cleared(h).x
            && !h1.x.isExcept && !h1.x.amo
  {}

  /** The body of a load, store or LR. */
  lemma BodyOfAccess(h: Hart, decode: Decoder)
    ensures Executed(h, decode).LoadReg? ==> Body(h, decode) == ExecLoad(Started(h), Executed(h, decode))
    ensures Executed(h, decode).StoreReg? ==> Body(h, decode) == ExecStore(Started(h), Executed(h, decode))
    ensures Executed(h, decode).Lr? ==> Body(h, decode) == ExecLr(Started(h), Executed(h, decode))
  {
    hide Started, Executed, ExecLoad, ExecStore, ExecLr;
  }

  /** The instruction executed is the little-endian word at the physical pc. */
  lemma FetchedFromRam(h: Hart, decode: Decoder)
    requires !FetchFaults(h) && Resolve(h.MmuEnv(), Cleared(h).x, h.p.pc, IFetch).At?
    requires InPmem(Resolve(h.MmuEnv(), Cleared(h).x, h.p.pc, IFetch).pa)
    ensures Executed(h, decode) == decode(Load(h.bus.ram, Resolve(h.MmuEnv(), Cleared(h).x, h.p.pc, IFetch).pa, 4) % TWO32)
    ensures Load(h.bus.ram, Resolve(h.MmuEnv(), Cleared(h).x, h.p.pc, IFetch).pa, 4) < TWO32
  {
    assert Cleared(h).MmuEnv() == h.MmuEnv();
    LoadBound(h.bus.ram, Resolve(h.MmuEnv(), Cleared(h).x, h.p.pc, IFetch).pa, 4);
    Pow2Values();
    hide Resolve, Load, Pow2;
  }

  // ----- loads and stores -----

  /** Where the memory access of an instruction goes; LR and AMOs count as atomics. */
  function DataTarget(h: Hart, i: Instr, t: MemType): Access {
    Resolve(h.MmuEnv(), Cleared(h).x.(amo := i.Lr? || i.Sc? || i.Amo?), AccessAddress(h, i), t)
  }

  lemma LoadEffect(h: Hart, i: Instr)
    requires i.LoadReg? && !h.x.isExcept && !ExecLoad(h, i).x.isExcept
    ensures var target := Resolve(h.MmuEnv(), h.x, AccessAddress(h, i), Read);
            && target.At?
            && ExecLoad(h, i).bus == h.bus
            && ExecLoad(h, i).gpr == h.gpr[i.rd := var data := PRead(h.bus, target.pa, i.len);
                                                   if i.signed then SignExtend(data, i.len) else ZeroExtend(data, i.len)]
  {
    hide PageOf, CheckOf, PRead, SignExtend, ZeroExtend;
  }

  lemma AddressIsSum(h: Hart, i: Instr)
    requires i.LoadReg? || i.StoreReg?
    ensures AccessAddress(h, i) == (h.gpr[i.rs1] + i.imm) % 0x1_0000_0000_0000_0000
  {}

  lemma AddressIsRegister(h: Hart, i: Instr)
    requires i.Lr? || i.Sc? || i.Amo?
    ensures AccessAddress(h, i) == h.gpr[i.rs1]
  {}

  lemma ZeroKept(gpr: Regs)
    ensures gpr[0] == 0 ==> gpr[0 := 0] == gpr
    ensures forall rd: Reg, v: Word {:trigger gpr[rd := v]} :: rd != 0 && gpr[0] == 0 ==> gpr[rd := v][0 := 0] == gpr[rd := v]
  {}

  /** Where an access goes does not depend on the pending exception. */
  lemma TargetOfStarted(h: Hart, i: Instr, x: Exc, t: MemType)
    requires var target := Resolve(Started(h).MmuEnv(), x, AccessAddress(Started(h), i), t); target.At?
    ensures AccessAddress(Started(h), i) == AccessAddress(h, i)
    ensures DataTarget(h, i, t) == Resolve(Started(h).MmuEnv(), x, AccessAddress(Started(h), i), t)
  {
    SameAccess(h, Started(h), i);
    StartedFacts(h);
    hide PageOf, CheckOf, AccessAddress, Started;
  }

  /** A load that ends without an exception puts the number at its address into rd,
      read as two's complement by the signed loads and as an unsigned number by the
      others, and changes nothing else. */
  lemma LoadResult(h: Hart, decode: Decoder, d: Inputs)
    requires h.gpr[0] == 0 && !FetchFaults(h) && Executed(h, decode).LoadReg? && Executed(h, decode).rd != 0
    requires !Step(h, decode, d).x.isExcept
    ensures var i := Executed(h, decode);
            var target := DataTarget(h, i, Read);
            var after := Step(h, decode, d);
            && AccessAddress(h, i) == (h.gpr[i.rs1] + i.imm) % 0x1_0000_0000_0000_0000
            && target.At? && after.bus == h.bus && after.gpr == h.gpr[i.rd := after.gpr[i.rd]]
            && (InPmem(target.pa) ==>
                  var number := Load(h.bus.ram, target.pa, i.len);
                  if i.signed then Signed(after.gpr[i.rd]) == SignedAt(number, Pow2(8 * i.len)) else after.gpr[i.rd] == number)
  {
    var i, h1 := Executed(h, decode), Started(h);
    hide *;
    AddressIsSum(h, i);
    StepIsBody(h, decode, d);
    StartedFacts(h);
    BodyOfAccess(h, decode);
    LoadEffect(h1, i);
    ZeroKept(h.gpr);
    TargetOfStarted(h, i, h1.x, Read);
    LoadedNumber(h.bus, DataTarget(h, i, Read).pa, i.len);
  }

  lemma LoadedNumber(bus: Bus, pa: nat, len: Len)
    ensures InPmem(pa) ==>
              && Signed(SignExtend(PRead(bus, pa, len), len)) == SignedAt(Load(bus.ram, pa, len), Pow2(8 * len))
              && ZeroExtend(PRead(bus, pa, len), len) == Load(bus.ram, pa, len)
  {
    hide SignExtend, ZeroExtend, Signed, SignedAt, Load, Pow2, InPmem;
    if InPmem(pa) {
      LoadBound(bus.ram, pa, len);
      SignExtendIsTwosComplement(PRead(bus, pa, len), len);
    }
  }

  lemma StoreEffect(h: Hart, i: Instr)
    requires i.StoreReg? && !h.x.isExcept && !ExecStore(h, i).x.isExcept
    ensures var target := Resolve(h.MmuEnv(), h.x, AccessAddress(h, i), Write);
            && target.At? && ExecStore(h, i) == h.(bus := PWrite(h.bus, target.pa, i.len, h.gpr[i.rs2]))
  {
    hide PageOf, CheckOf, PWrite;
  }

  lemma {:induction false} StoreKeepsOthers(ram: map<nat, Byte>, a: nat, n: nat, d: nat, b: nat)
    requires !(a <= b < a + n)
    ensures ByteAt(Store(ram, a, n, d), b) == ByteAt(ram, b)
    decreases n
  {
    if n > 0 {
      StoreKeepsOthers(ram[a := d % 256], a + 1, n - 1, d / 256, b);
    }
  }

  /** A store that ends without an exception puts the low bytes of rs2 at its
      address and changes no other byte and no register. */
  lemma StoreResult(h: Hart, decode: Decoder, d: Inputs)
    requires h.gpr[0] == 0 && !FetchFaults(h) && Executed(h, decode).StoreReg? && !Step(h, decode, d).x.isExcept
    ensures var i := Executed(h, decode);
            var target := DataTarget(h, i, Write);
            var after := Step(h, decode, d);
            && AccessAddress(h, i) == (h.gpr[i.rs1] + i.imm) % 0x1_0000_0000_0000_0000
            && target.At? && after.gpr == h.gpr
            && (InPmem(target.pa) ==>
                  && Load(after.bus.ram, target.pa, i.len) == h.gpr[i.rs2] % Pow2(8 * i.len)
                  && forall b: nat :: !(target.pa <= b < target.pa + i.len) ==> ByteAt(after.bus.ram, b) == ByteAt(h.bus.ram, b))
            && (!InPmem(target.pa) ==> after.bus == h.bus)
  {
    var i, h1 := Executed(h, decode), Started(h);
    hide *;
    AddressIsSum(h, i);
    StepIsBody(h, decode, d);
    StartedFacts(h);
    BodyOfAccess(h, decode);
    StoreEffect(h1, i);
    ZeroKept(h.gpr);
    TargetOfStarted(h, i, h1.x, Write);
    StoredBytes(h.bus, DataTarget(h, i, Write).pa, i.len, h.gpr[i.rs2]);
  }

  lemma StoredBytes(bus: Bus, pa: nat, len: Len, d: Word)
    ensures var after := PWrite(bus, pa, len, d);
            && (InPmem(pa) ==>
                  && Load(after.ram, pa, len) == d % Pow2(8 * len)
                  && forall b: nat :: !(pa <= b < pa + len) ==> ByteAt(after.ram, b) == ByteAt(bus.ram, b))
            && (!InPmem(pa) ==> after == bus)
  {
    hide Load, Store, Pow2;
    LoadAfterStore(bus.ram, pa, len, d);
    forall b: nat | !(pa <= b < pa + len) ensures ByteAt(Store(bus.ram, pa, len, d), b) == ByteAt(bus.ram, b) {
      StoreKeepsOthers(bus.ram, pa, len, d, b);
    }
  }

  lemma LrEffect(h: Hart, i: Instr)
    requires i.Lr? && !h.x.isExcept && !ExecLr(h, i).x.isExcept
    ensures var target := Resolve(h.MmuEnv(), h.x.(amo := true), AccessAddress(h, i), Read);
            && target.At? && ExecLr(h, i).bus == h.bus
            && ExecLr(h, i).gpr == h.gpr[i.rd := SignExtend(PRead(h.bus, target.pa, Width(i.wide)), Width(i.wide))]
  {
    hide PageOf, CheckOf, PRead, SignExtend;
  }

  /** An LR that ends without an exception puts the number at its address into rd,
      read as two's complement. */
  lemma LrResult(h: Hart, decode: Decoder, d: Inputs)
    requires h.gpr[0] == 0 && !FetchFaults(h) && Executed(h, decode).Lr? && Executed(h, decode).rd != 0
    requires !Step(h, decode, d).x.isExcept
    ensures var i := Executed(h, decode);
            var target := DataTarget(h, i, Read);
            var after := Step(h, decode, d);
            var len := if i.wide then 8 else 4;
            && AccessAddress(h, i) == h.gpr[i.rs1] && target.At? && after.bus == h.bus && after.gpr == h.gpr[i.rd := after.gpr[i.rd]]
            && (InPmem(target.pa) ==> Signed(after.gpr[i.rd]) == SignedAt(Load(h.bus.ram, target.pa, len), Pow2(8 * len)))
  {
    var i, h1 := Executed(h, decode), Started(h);
    hide *;
    StepIsBody(h, decode, d);
    StartedFacts(h);
    BodyOfAccess(h, decode);
    LrEffect(h1, i);
    ZeroKept(h.gpr);
    TargetOfStarted(h, i, h1.x.(amo := true), Read);
    WidthInBytes(i.wide);
    AddressIsRegister(h, i);
    LoadedNumber(h.bus, DataTarget(h, i, Read).pa, Width(i.wide));
  }

  lemma WidthInBytes(wide: bool)
    ensures Width(wide) == if wide then 8 else 4
  {}

  // ----- other registers -----

  /** A jump links to the next instruction, a legal CSR instruction gives rd the
      old value of the CSR, a computation its result; branches, fences and returns
      change no register. */
  lemma RegisterResult(h: Hart, decode: Decoder, d: Inputs)
    requires h.gpr[0] == 0 && !FetchFaults(h) && !Step(h, decode, d).x.isExcept
    ensures var i := Executed(h, decode);
            var after := Step(h, decode, d);
            match i
            case Jump(rd, _) => after.gpr == h.gpr[rd := (h.p.pc + 4) % 0x1_0000_0000_0000_0000][0 := 0]
            case CsrOp(_, rd, _, idx) => Legal(h.c, h.mode, idx) && after.gpr == h.gpr[rd := CsrValue(h.c, idx).value][0 := 0]
            case Compute(rd, value) => after.gpr == h.gpr[rd := value(h.gpr, h.p.pc)][0 := 0]
            case Branch(_, _) => after.gpr == h.gpr
            case Mret => after.gpr == h.gpr
            case Sret => after.gpr == h.gpr
            case Fence => after.gpr == h.gpr
            case _ => true
  {
    hide *;
    StepIsBody(h, decode, d);
    StartedFacts(h);
    StartedCsrs(h);
    ZeroKept(h.gpr);
    BodyIsExec(h, decode);
    BodyRegisters(Started(h), h.p.pc, Executed(h, decode), FetchedWord(Cleared(h)));
  }

  lemma BodyIsExec(h: Hart, decode: Decoder)
    ensures Body(h, decode) == ExecBody(Started(h), h.p.pc, Executed(h, decode), FetchedWord(Cleared(h)))
  {
    hide ExecBody;
  }

  lemma StartedCsrs(h: Hart)
    ensures Started(h).c == h.c && Started(h).mode == h.mode
  {}

  lemma BodyRegisters(h: Hart, pc: Word, i: Instr, word: Word)
    requires !h.x.isExcept && !ExecBody(h, pc, i, word).x.isExcept
    ensures var gpr := ExecBody(h, pc, i, word).gpr;
            match i
            case Jump(rd, _) => gpr == h.gpr[rd := (pc + 4) % 0x1_0000_0000_0000_0000]
            case CsrOp(_, rd, _, idx) => Legal(h.c, h.mode, idx) && gpr == h.gpr[rd := CsrValue(h.c, idx).value]
            case Compute(rd, value) => gpr == h.gpr[rd := value(h.gpr, pc)]
            case Branch(_, _) => gpr == h.gpr
            case Mret => gpr == h.gpr
            case Sret => gpr == h.gpr
            case Fence => gpr == h.gpr
            case _ => true
  {
    hide CsrValue, CsrWritten, NewCsr, MretStatus, SretStatus, Mpp, Bit, ExecLoad, ExecStore, ExecLr, ExecSc, ExecAmo;
  }

  // ----- the next pc -----

  /** Where the program continues after an instruction that ends without an
      exception. */
  function Successor(h: Hart, i: Instr): Word {
    match i
    case Branch(taken, offset) => if taken(h.gpr) then Wrap(h.p.pc + offset) else Wrap(h.p.pc + 4)
    case Jump(_, target) => target(h.gpr, h.p.pc)
    case Mret => h.c.mepc
    case Sret => h.c.sepc
    case _ => Wrap(h.p.pc + 4)
  }

  lemma BodyPc(h: Hart, decode: Decoder)
    ensures Body(h, decode).p.dnpc == Successor(h, Executed(h, decode))
  {
    hide VRead, VWrite, Resolve, Executed, CsrValue, CsrWritten, NewCsr, Legal, MretStatus, SretStatus, Mpp, Bit, SignExtend,
         ZeroExtend, AmoStored, Wrap;
  }

  /** Without an exception the pc, or the pc saved by an interrupt taken at the end
      of the step, is that of the successor: four further for everything but taken
      branches, jumps and returns. */
  lemma NextPc(h: Hart, decode: Decoder, d: Inputs)
    requires !FetchFaults(h) && !Step(h, decode, d).x.isExcept
    ensures var after := Step(h, decode, d);
            var next := Successor(h, Executed(h, decode));
            if !after.isIrq then after.p.pc == next
            else if after.mode.ModeS? then after.c.sepc == next
            else after.mode == ModeM && after.c.mepc == next
  {
    hide FetchAndExec, FinishStep, Body, Trap, FetchFaults, Successor, Executed, QueryIntr, DeviceLines;
    var mid := FetchAndExec(Cleared(h), decode);
    FetchAndExecIsBody(h, decode);
    BodyPc(h, decode);
    FinishShape(mid, h.p.pc, d);
    match PendingTrap(mid, h.p.pc, d) {
      case Nothing =>
      case Pending(no, epc) =>
        TrapFields(DeviceLines(mid.c, d), mid.mode, mid.x.tval, no, epc);
        hide DelegatedToS, Number, ReportsAddress, Code;
    }
  }

  /** The successor in numbers. */
  lemma SuccessorIsNext(h: Hart, i: Instr)
    ensures !i.Branch? && !i.Jump? && !i.Mret? && !i.Sret? ==> Successor(h, i) == (h.p.pc + 4) % 0x1_0000_0000_0000_0000
    ensures i.Branch? ==> Successor(h, i) == (h.p.pc + if i.taken(h.gpr) then i.offset else 4) % 0x1_0000_0000_0000_0000
  {}

  // ----- stopping, devices, counters -----

  /** A step stops the machine exactly when it executes ebreak or an unknown word,
      or the stop key is pressed. */
  lemma StopsExactly(h: Hart, decode: Decoder, d: Inputs)
    ensures Step(h, decode, d).running <==>
              h.running && !d.stop && (FetchFaults(h) || (!Executed(h, decode).Ebreak? && !Executed(h, decode).Invalid?))
  {
    hide FetchAndExec, HandleIrqOrExcept, FetchFaults, Executed, DeviceLines;
    InstructionStops(h, decode);
    TrapKeepsRunning(Retire(FetchAndExec(Cleared(h), decode), h.p.pc, d));
  }

  lemma TrapKeepsRunning(h: Hart)
    ensures HandleIrqOrExcept(h).running == h.running
  {
    hide Trap, QueryIntr;
  }

  lemma BodyStops(h: Hart, pc: Word, i: Instr, word: Word)
    ensures ExecBody(h, pc, i, word).running == (h.running && !i.Ebreak? && !i.Invalid?)
  {
    hide VRead, VWrite, Resolve, CsrValue, CsrWritten, NewCsr, Legal, MretStatus, SretStatus, Mpp, Bit, SignExtend,
         ZeroExtend, AmoStored, Wrap;
  }

  lemma InstructionStops(h: Hart, decode: Decoder)
    ensures FetchAndExec(Cleared(h), decode).running ==
              (h.running && (FetchFaults(h) || (!Executed(h, decode).Ebreak? && !Executed(h, decode).Invalid?)))
  {
    InstructionControl(h, decode);
    if !FetchFaults(h) {
      FetchAndExecIsBody(h, decode);
      BodyStops(Started(h), h.p.pc, Executed(h, decode), FetchedWord(Cleared(h)));
    }
    hide FetchAndExec, ExecBody, FetchFaults, Executed, ControlAfter;
  }

  /** After every step bits 3, 7 and 9 of mip (MSIP, MTIP, SEIP) are what the
      devices drive; the other bits are those that the instruction left. */
  lemma DeviceLinesInMip(h: Hart, decode: Decoder, d: Inputs)
    ensures var mip := Step(h, decode, d).c.mip;
            && Bit(mip, 3) == d.msip && Bit(mip, 7) == d.mtip && Bit(mip, 9) == d.seip
            && forall i: nat :: i != 3 && i != 7 && i != 9 ==> Bit(mip, i) == Bit(FetchAndExec(Cleared(h), decode).c.mip, i)
  {
    hide FetchAndExec, FinishStep, Trap, Bit;
    InstructionControl(h, decode);
    var mid := FetchAndExec(Cleared(h), decode);
    FinishShape(mid, h.p.pc, d);
    LinesAreBits(mid.c, d);
    hide DeviceLines, QueryIntr, ControlAfter, FetchFaults, Executed;
    match PendingTrap(mid, h.p.pc, d) {
      case Nothing =>
      case Pending(no, epc) => TrapKeepsMip(DeviceLines(mid.c, d), mid.mode, mid.x.tval, no, epc);
    }
  }

  lemma LinesAreBits(c: Csrs, d: Inputs)
    ensures var mip := DeviceLines(c, d).mip;
            && Bit(mip, 3) == d.msip && Bit(mip, 7) == d.mtip && Bit(mip, 9) == d.seip
            && forall i: nat :: i != 3 && i != 7 && i != 9 ==> Bit(mip, i) == Bit(c.mip, i)
  {
    hide Bit, Put;
  }

  lemma TrapKeepsMip(c: Csrs, mode: Mode, tval: Word, no: TrapNo, epc: Word)
    ensures Trap(c, mode, tval, no, epc).c.mip == c.mip
  {
    hide DelegatedToS, EnterS, EnterM, Number, TrapPc, TrapValue;
  }

  // ----- exception numbers -----

  /** The number of the exception that an instruction raises, if it raises one. */
  function RaisedNumber(h: Hart, i: Instr): nat {
    match i
    case LoadReg(_, _, _, len, _) => if AccessAddress(h, i) % len != 0 then 4 else 13
    case StoreReg(_, _, _, len) =>
      if AccessAddress(h, i) % len != 0 && !CheckOf(h.MmuEnv(), AccessAddress(h, i), Write).Failed? then 6 else 15
    case Amo(_, _, _, _, wide) => if AccessAddress(h, i) % (if wide then 8 else 4) != 0 then 4 else 15
    case Lr(_, _, _) => 15
    case Sc(_, _, _, _) => 15
    case Ecall => if h.mode.ModeM? then 11 else if h.mode.ModeS? then 9 else 8
    case _ => 2
  }

  lemma BodyRaises(h: Hart, pc: Word, i: Instr, word: Word)
    requires !h.x.isExcept && !h.x.amo && ExecBody(h, pc, i, word).x.isExcept
    ensures CauseCode(ExecBody(h, pc, i, word).x.cause) == RaisedNumber(h, i)
  {
    hide ExecLoad, ExecStore, ExecLr, ExecSc, ExecAmo, Wrap, CsrWritten, Legal, CsrValue, NewCsr, CheckOf, MretStatus, SretStatus,
         Mpp, Bit;
    match i {
      case LoadReg(_, _, _, _, _) => LoadRaises(h, i);
      case StoreReg(_, _, _, _) => StoreRaises(h, i);
      case Lr(_, _, _) => LrRaises(h, i);
      case Sc(_, _, _, _) => ScRaises(h, i);
      case Amo(_, _, _, _, _) => AmoRaises(h, i);
      case _ =>
    }
  }

  lemma LoadRaises(h: Hart, i: Instr)
    requires i.LoadReg? && !h.x.isExcept && !h.x.amo && ExecLoad(h, i).x.isExcept
    ensures CauseCode(ExecLoad(h, i).x.cause) == RaisedNumber(h, i)
  {
    hide PageOf, CheckOf, PRead, SignExtend, ZeroExtend;
  }

  lemma StoreRaises(h: Hart, i: Instr)
    requires i.StoreReg? && !h.x.isExcept && !h.x.amo && ExecStore(h, i).x.isExcept
    ensures CauseCode(ExecStore(h, i).x.cause) == RaisedNumber(h, i)
  {
    hide PageOf, CheckOf, PWrite;
  }

  lemma LrRaises(h: Hart, i: Instr)
    requires i.Lr? && !h.x.isExcept && ExecLr(h, i).x.isExcept
    ensures CauseCode(ExecLr(h, i).x.cause) == 15
  {
    hide PageOf, CheckOf, PRead, SignExtend;
  }

  lemma ScRaises(h: Hart, i: Instr)
    requires i.Sc? && !h.x.isExcept && ExecSc(h, i).x.isExcept
    ensures CauseCode(ExecSc(h, i).x.cause) == 15
  {
    hide PageOf, CheckOf, PWrite;
  }

  lemma AmoLoadRaises(env: Env, x: Exc, va: Word, len: nat)
    requires AccessLength(len) && x.amo && !x.isExcept
    ensures VRead(env, x, va, len).0.isExcept ==>
              CauseCode(VRead(env, x, va, len).0.cause) == if va % len != 0 then 4 else 15
    ensures !VRead(env, x, va, len).0.isExcept ==> VRead(env, x, va, len).0 == x && va % len == 0
  {
    hide PageOf, CheckOf, PRead;
  }

  lemma AlignedStoreRaises(env: Env, x: Exc, va: Word, len: nat, d: Word)
    requires AccessLength(len) && va % len == 0 && !x.isExcept && VWrite(env, x, va, len, d).0.isExcept
    ensures CauseCode(VWrite(env, x, va, len, d).0.cause) == 15
  {
    hide PageOf, CheckOf, PWrite;
  }

  lemma AmoRaises(h: Hart, i: Instr)
    requires i.Amo? && !h.x.isExcept && ExecAmo(h, i).x.isExcept
    ensures CauseCode(ExecAmo(h, i).x.cause) == RaisedNumber(h, i)
  {
    var env, x, va, len := h.MmuEnv(), h.x.(amo := true), h.gpr[i.rs1], Width(i.wide);
    AmoLoadRaises(env, x, va, len);
    var (x1, loaded) := VRead(env, x, va, len);
    if !x1.isExcept {
      AlignedStoreRaises(env, x1, va, len, AmoStored(i.op, i.wide, loaded, h.gpr[i.rs2]));
    }
    hide VRead, VWrite, AmoStored, SignExtend;
  }

  lemma FetchRaises(env: Env, x: Exc, va: Word)
    requires !x.isExcept && VFetch(env, x, va).0.isExcept
    ensures CauseCode(VFetch(env, x, va).0.cause) == 12
  {
    hide PageOf, CheckOf, PRead;
  }

  /** The number that a step ending in an exception leaves in scause or mcause: 12
      for a faulting fetch, 2 for an illegal CSR access, 8, 9 or 11 for an ecall by
      mode, 4 and 6 for misaligned loads and stores, 13 for a page fault of a load,
      15 for one of a store or an atomic. */
  lemma ExceptionNumbers(h: Hart, decode: Decoder, d: Inputs)
    requires h.gpr[0] == 0 && Step(h, decode, d).x.isExcept
    ensures var after := Step(h, decode, d);
            var xcause := if after.mode.ModeS? then after.c.scause else after.c.mcause;
            xcause == if FetchFaults(h) then 12 else RaisedNumber(h, Executed(h, decode))
  {
    ExceptionCode(h, decode, d);
    ExceptionsArePrecise(h, decode, d);
    hide Step, RaisedNumber, FetchFaults, Executed, CauseCode, WritesAnyway, FaultAddress, AccessAddress, ReportsAddress, Bit, PWrite;
  }

  lemma ExceptionCode(h: Hart, decode: Decoder, d: Inputs)
    requires h.gpr[0] == 0 && Step(h, decode, d).x.isExcept
    ensures CauseCode(Step(h, decode, d).x.cause) == if FetchFaults(h) then 12 else RaisedNumber(h, Executed(h, decode))
  {
    if FetchFaults(h) {
      FinishKeepsException(FetchAndExec(Cleared(h), decode), h.p.pc, d);
      assert Cleared(h).MmuEnv() == h.MmuEnv();
      FetchRaises(h.MmuEnv(), Cleared(h).x, h.p.pc);
      hide VFetch, FinishStep, CauseCode;
    } else {
      StepIsBody(h, decode, d);
      FetchAndExecIsBody(h, decode);
      hide Step, FetchFaults, ExecBody, FetchAndExec, CauseCode, CheckOf, Executed;
      BodyRaises(Started(h), h.p.pc, Executed(h, decode), FetchedWord(Cleared(h)));
      SameNumber(h, Started(h), Executed(h, decode));
    }
  }

  lemma SameNumber(h: Hart, h': Hart, i: Instr)
    requires h'.gpr == h.gpr && h'.MmuEnv() == h.MmuEnv() && h'.mode == h.mode
    ensures RaisedNumber(h', i) == RaisedNumber(h, i)
  {
    SameAccess(h, h', i);
    hide CheckOf, Wrap;
  }
}
