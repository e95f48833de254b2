// inst.c: what each kind of instruction does to the processor.  Computation,
// branch and jump results are arbitrary functions of the registers and the pc.
module Inst {
  import opened Bits
  import opened HartState
  import opened Paddr
  import opened Vaddr
  import opened Csr

  type Reg = r: nat | r < 32

  type Len = n: nat | AccessLength(n) witness 1

  datatype CsrKind = CSRRC | CSRRCI | CSRRS | CSRRSI | CSRRW | CSRRWI
  datatype AmoKind = SWAP | ADD | LXOR | LAND | LOR | MIN | MAX | MINU | MAXU

  datatype Instr =
    | Compute(rd: Reg, value: (Regs, Word) -> Word)
    | Branch(taken: Regs -> bool, offset: Word)
    | Jump(rd: Reg, target: (Regs, Word) -> Word)
    | LoadReg(rd: Reg, rs1: Reg, imm: Word, len: Len, signed: bool)
    | StoreReg(rs1: Reg, rs2: Reg, imm: Word, len: Len)
    | CsrOp(kind: CsrKind, rd: Reg, rs1: Reg, idx: nat)
    | Mret | Sret | Ecall | Ebreak | Fence | Invalid
    | Lr(rd: Reg, rs1: Reg, wide: bool)
    | Sc(rd: Reg, rs1: Reg, rs2: Reg, wide: bool)
    | Amo(op: AmoKind, rd: Reg, rs1: Reg, rs2: Reg, wide: bool)

  /** The access length of a .d or .w atomic. */
  function Width(wide: bool): Len {
    if wide then 8 else 4
  }

  /** SEXT(x, 8 * len) */
  function SignExtend(x: Word, len: nat): Word {
    match len
    case 1 => if x % 0x100 >= 0x80 then x % 0x100 + TWO64 - 0x100 else x % 0x100
    case 2 => if x % 0x1_0000 >= 0x8000 then x % 0x1_0000 + TWO64 - 0x1_0000 else x % 0x1_0000
    case 4 => if x % TWO32 >= 0x8000_0000 then x % TWO32 + TWO64 - TWO32 else x % TWO32
    case _ => x
  }

  function ZeroExtend(x: Word, len: nat): Word {
    match len
    case 1 => x % 0x100
    case 2 => x % 0x1_0000
    case 4 => x % TWO32
    case _ => x
  }

  function Signed(x: Word): int {
    if x < 0x8000_0000_0000_0000 then x else x - TWO64
  }

  function NewCsr(kind: CsrKind, old_: Word, src: Word, imm: Word): Word {
    match kind
    case CSRRC => Bitwise(ANDNOT, old_, src)
    case CSRRCI => Bitwise(ANDNOT, old_, imm)
    case CSRRS => Bitwise(OR, old_, src)
    case CSRRSI => Bitwise(OR, old_, imm)
    case CSRRW => src
    case CSRRWI => Bitwise(OR, imm, Bitwise(ANDNOT, old_, 0x1f))
  }

  /** The 64-bit value an AMO hands to the store, from the loaded value. */
  function AmoStored(op: AmoKind, wide: bool, loaded: Word, src: Word): Word {
    var old_ := if wide then loaded else SignExtend(loaded, 4);
    var new_ := if wide then src else SignExtend(src, 4);
    match op
    case SWAP => src
    case ADD => Wrap(src + loaded)
    case LXOR => Bitwise(XOR, src, loaded)
    case LAND => Bitwise(AND, src, loaded)
    case LOR => Bitwise(OR, src, loaded)
    case MIN => if Signed(new_) > Signed(old_) then old_ else src
    case MAX => if Signed(new_) < Signed(old_) then old_ else src
    case MINU => if new_ > old_ then old_ else src
    case MAXU => if new_ < old_ then old_ else src
  }

  /** Reservation flag of a width. */
  function FlagOf(wide: bool): nat {
    if wide then 0xff else 0xf
  }

  function PutReg(gpr: Regs, rd: Reg, v: Word): Regs {
    gpr[rd := v]
  }

  // ----- one instruction, without the final reset of x0 -----

  function ExecLoad(h: Hart, i: Instr): Hart
    requires i.LoadReg?
  {
    var (x, data) := VRead(h.MmuEnv(), h.x, Wrap(h.gpr[i.rs1] + i.imm), i.len);
    var value := if i.signed then SignExtend(data, i.len) else ZeroExtend(data, i.len);
    if x.isExcept then h.(x := x) else h.(x := x, gpr := PutReg(h.gpr, i.rd, value))
  }

  function ExecStore(h: Hart, i: Instr): Hart
    requires i.StoreReg?
  {
    var (x, bus) := VWrite(h.MmuEnv(), h.x, Wrap(h.gpr[i.rs1] + i.imm), i.len, h.gpr[i.rs2]);
    h.(x := x, bus := bus)
  }

  function ExecCsr(h: Hart, i: Instr, word: Word): Hart
    requires i.CsrOp?
  {
    if h.x.isExcept || !Legal(h.c, h.mode, i.idx) then h.(x := h.x.(isExcept := true, tval := word, cause := EX_II))
    else
      var old_ := CsrValue(h.c, i.idx).value;
      h.(gpr := PutReg(h.gpr, i.rd, old_), c := CsrWritten(h.c, i.idx, NewCsr(i.kind, old_, h.gpr[i.rs1], i.rs1)))
  }

  function MretStatus(mstatus: Word): Word {
    SetMpp(SetBit(SetBit(mstatus, MIE, Bit(mstatus, MPIE)), MPIE, true), ModeU)
  }

  function SretStatus(mstatus: Word): Word {
    SetBit(SetBit(SetBit(mstatus, SIE, Bit(mstatus, SPIE)), SPIE, true), SPP, false)
  }

  function ExecMret(h: Hart): Hart {
    h.(p := h.p.(dnpc := h.c.mepc), mode := Mpp(h.c.mstatus), c := h.c.(mstatus := MretStatus(h.c.mstatus)))
  }

  function ExecSret(h: Hart): Hart {
    h.(p := h.p.(dnpc := h.c.sepc), mode := if Bit(h.c.mstatus, SPP) then ModeS else ModeU,
       c := h.c.(mstatus := SretStatus(h.c.mstatus)))
  }

  function EcallCause(mode: Mode): Cause {
    if mode.ModeM? then EX_ECM else if mode.ModeS? then EX_ECS else EX_ECU
  }

  function ExecLr(h: Hart, i: Instr): Hart
    requires i.Lr?
  {
    var x := h.x.(amo := true);
    match Resolve(h.MmuEnv(), x, h.gpr[i.rs1], Read)
    case Refused(x') => h.(x := x')
    case At(pa) =>
      var data := PRead(h.bus, pa, Width(i.wide));
      if x.isExcept then h.(x := x)
      else h.(x := x, gpr := PutReg(h.gpr, i.rd, SignExtend(data, Width(i.wide))), res := Reservation(pa, FlagOf(i.wide)))
  }

  function ExecSc(h: Hart, i: Instr): Hart
    requires i.Sc?
  {
    var x := h.x.(amo := true);
    match Resolve(h.MmuEnv(), x, h.gpr[i.rs1], Write)
    case Refused(x') => h.(x := x')
    case At(pa) =>
      if x.isExcept then h.(x := x)
      else if h.res == Reservation(pa, FlagOf(i.wide)) then
        h.(x := x, bus := PWrite(h.bus, pa, Width(i.wide), h.gpr[i.rs2]), gpr := PutReg(h.gpr, i.rd, 0), res := h.res.(flag := 0))
      else
        h.(x := x, gpr := PutReg(h.gpr, i.rd, 1), res := h.res.(flag := 0))
  }

  function ExecAmo(h: Hart, i: Instr): Hart
    requires i.Amo?
  {
    var va := h.gpr[i.rs1];
    var (x1, loaded) := VRead(h.MmuEnv(), h.x.(amo := true), va, Width(i.wide));
    if x1.isExcept then h.(x := x1)
    else
      var (x2, bus) := VWrite(h.MmuEnv(), x1, va, Width(i.wide), AmoStored(i.op, i.wide, loaded, h.gpr[i.rs2]));
      if x2.isExcept then h.(x := x2, bus := bus)
      else h.(x := x2, bus := bus, gpr := PutReg(h.gpr, i.rd, SignExtend(loaded, Width(i.wide))))
  }

  function ExecBody(h: Hart, pc: Word, i: Instr, word: Word): Hart
  {
    match i
    case Compute(rd, value) => h.(gpr := PutReg(h.gpr, rd, value(h.gpr, pc)))
    case Branch(taken, offset) => if taken(h.gpr) then h.(p := h.p.(dnpc := Wrap(pc + offset))) else h
    case Jump(rd, target) => h.(gpr := PutReg(h.gpr, rd, Wrap(pc + 4)), p := h.p.(dnpc := target(h.gpr, pc)))
    case LoadReg(_, _, _, _, _) => ExecLoad(h, i)
    case StoreReg(_, _, _, _) => ExecStore(h, i)
    case CsrOp(_, _, _, _) => ExecCsr(h, i, word)
    case Mret => ExecMret(h)
    case Sret => ExecSret(h)
    case Ecall => h.(x := h.x.(isExcept := true, cause := EcallCause(h.mode)))
    case Ebreak => h.(running := false)
    case Invalid => h.(running := false)
    case Fence => h
    case Lr(_, _, _) => ExecLr(h, i)
    case Sc(_, _, _, _) => ExecSc(h, i)
    case Amo(_, _, _, _, _) => ExecAmo(h, i)
  }

  /** decode_exec: dnpc starts at the next instruction, x0 ends at zero. */
  function DecodeExec(h: Hart, pc: Word, i: Instr, word: Word): Hart
  {
    var h1 := ExecBody(h.(p := h.p.(dnpc := Wrap(pc + 4))), pc, i, word);
    h1.(gpr := PutReg(h1.gpr, 0, 0))
  }

  // ----- the instructions as they run -----

  /** The reserved privilege level is nowhere selected: the emulator asserts this
      whenever it translates an address. */
  predicate NoHypervisor(mstatus: Word, mode: Mode) {
    !mode.ModeH? && (Bit(mstatus, MPRV) ==> !Mpp(mstatus).ModeH?)
  }

  lemma NoAssert(env: Env, va: Word, t: MemType)
    requires NoHypervisor(env.mstatus, env.mode)
    ensures NoAssertFires(env, va, t)
  {}

  method RunLoad(cpu: Cpu, i: Instr)
    requires i.LoadReg? && NoHypervisor(cpu.c.mstatus, cpu.mode)
    modifies cpu`x, cpu`gpr
    ensures cpu.Snap() == ExecLoad(old(cpu.Snap()), i)
  {
    var va := Wrap(cpu.gpr[i.rs1] + i.imm);
    NoAssert(cpu.MmuEnv(), va, Read);
    hide VRead, SignExtend, ZeroExtend, NoAssertFires, NoHypervisor, Wrap, AccessLength;
    var data := VaddrRead(cpu, va, i.len);
    var rdata := if i.signed then SignExtend(data, i.len) else ZeroExtend(data, i.len);
    if !cpu.x.isExcept {
      cpu.gpr := PutReg(cpu.gpr, i.rd, rdata);
    }
  }

  method RunStore(cpu: Cpu, i: Instr)
    requires i.StoreReg? && NoHypervisor(cpu.c.mstatus, cpu.mode)
    modifies cpu`x, cpu`bus
    ensures cpu.Snap() == ExecStore(old(cpu.Snap()), i)
  {
    var va := Wrap(cpu.gpr[i.rs1] + i.imm);
    NoAssert(cpu.MmuEnv(), va, Write);
    hide VWrite, NoAssertFires, NoHypervisor, Wrap;
    VaddrWrite(cpu, va, i.len, cpu.gpr[i.rs2]);
  }

  method RunCsr(cpu: Cpu, i: Instr, word: Word)
    requires i.CsrOp?
    modifies cpu`x, cpu`gpr, cpu`c
    ensures cpu.Snap() == ExecCsr(old(cpu.Snap()), i, word)
  {
    hide CsrWritten, CsrValue, NewCsr;
    var src1 := cpu.gpr[i.rs1];
    var old_ := CsrRead(cpu, i.idx);
    if cpu.x.isExcept {
      cpu.x := cpu.x.(tval := word, cause := EX_II);
    } else {
      cpu.gpr := PutReg(cpu.gpr, i.rd, old_);
      CsrWrite(cpu, i.idx, NewCsr(i.kind, old_, src1, i.rs1));
    }
  }

  method RunMret(cpu: Cpu)
    modifies cpu`p, cpu`c, cpu`mode
    ensures cpu.Snap() == ExecMret(old(cpu.Snap()))
  {
    hide Mpp, SetMpp;
    cpu.p := cpu.p.(dnpc := cpu.c.mepc);
    cpu.c := cpu.c.(mstatus := SetBit(cpu.c.mstatus, MIE, Bit(cpu.c.mstatus, MPIE)));
    cpu.c := cpu.c.(mstatus := SetBit(cpu.c.mstatus, MPIE, true));
    MppUnchanged(old(cpu.c.mstatus), cpu.c.mstatus);
    cpu.mode := Mpp(cpu.c.mstatus);
    cpu.c := cpu.c.(mstatus := SetMpp(cpu.c.mstatus, ModeU));
  }

  lemma MppUnchanged(a: Word, b: Word)
    requires Bit(a, MPP_LO) == Bit(b, MPP_LO) && Bit(a, MPP_HI) == Bit(b, MPP_HI)
    ensures Mpp(a) == Mpp(b)
  {}

  method RunSret(cpu: Cpu)
    modifies cpu`p, cpu`c, cpu`mode
    ensures cpu.Snap() == ExecSret(old(cpu.Snap()))
  {
    hide Put, Bit;
    cpu.p := cpu.p.(dnpc := cpu.c.sepc);
    cpu.c := cpu.c.(mstatus := SetBit(cpu.c.mstatus, SIE, Bit(cpu.c.mstatus, SPIE)));
    cpu.c := cpu.c.(mstatus := SetBit(cpu.c.mstatus, SPIE, true));
    cpu.mode := if Bit(cpu.c.mstatus, SPP) then ModeS else ModeU;
    cpu.c := cpu.c.(mstatus := SetBit(cpu.c.mstatus, SPP, false));
  }

  method RunLr(cpu: Cpu, i: Instr)
    requires i.Lr? && NoHypervisor(cpu.c.mstatus, cpu.mode)
    modifies cpu`x, cpu`gpr, cpu`res
    ensures cpu.Snap() == ExecLr(old(cpu.Snap()), i)
  {
    NoAssert(cpu.MmuEnv(), cpu.gpr[i.rs1], Read);
    hide Resolve, SignExtend, PRead, NoAssertFires;
    cpu.x := cpu.x.(amo := true);
    var paddr := VaddrToPaddr(cpu, cpu.gpr[i.rs1], Read);
    var rdata := SignExtend(PRead(cpu.bus, paddr, Width(i.wide)), Width(i.wide));
    if !cpu.x.isExcept {
      cpu.gpr := PutReg(cpu.gpr, i.rd, rdata);
      cpu.res := Reservation(paddr, FlagOf(i.wide));
    }
  }

  method RunSc(cpu: Cpu, i: Instr)
    requires i.Sc? && NoHypervisor(cpu.c.mstatus, cpu.mode)
    modifies cpu`x, cpu`gpr, cpu`res, cpu`bus
    ensures cpu.Snap() == ExecSc(old(cpu.Snap()), i)
  {
    NoAssert(cpu.MmuEnv(), cpu.gpr[i.rs1], Write);
    hide Resolve, PWrite, NoAssertFires;
    var src2 := cpu.gpr[i.rs2];
    cpu.x := cpu.x.(amo := true);
    var paddr := VaddrToPaddr(cpu, cpu.gpr[i.rs1], Write);
    if !cpu.x.isExcept {
      if paddr == cpu.res.addr && cpu.res.flag == FlagOf(i.wide) {
        PaddrWrite(cpu, paddr, Width(i.wide), src2);
        cpu.gpr := PutReg(cpu.gpr, i.rd, 0);
      } else {
        cpu.gpr := PutReg(cpu.gpr, i.rd, 1);
      }
      cpu.res := cpu.res.(flag := 0);
    }
  }

  method RunAmo(cpu: Cpu, i: Instr)
    requires i.Amo? && NoHypervisor(cpu.c.mstatus, cpu.mode)
    modifies cpu`x, cpu`gpr, cpu`bus
    ensures cpu.Snap() == ExecAmo(old(cpu.Snap()), i)
  {
    var va := cpu.gpr[i.rs1];
    var src2 := cpu.gpr[i.rs2];
    NoAssert(cpu.MmuEnv(), va, Read);
    NoAssert(cpu.MmuEnv(), va, Write);
    hide VRead, VWrite, SignExtend, AmoStored, NoAssertFires, NoHypervisor;
    cpu.x := cpu.x.(amo := true);
    ghost var env := cpu.MmuEnv();
    var rdata := VaddrRead(cpu, va, Width(i.wide));
    assert cpu.MmuEnv() == env;
    if !cpu.x.isExcept {
      VaddrWrite(cpu, va, Width(i.wide), AmoStored(i.op, i.wide, rdata, src2));
      if !cpu.x.isExcept {
        cpu.gpr := PutReg(cpu.gpr, i.rd, SignExtend(rdata, Width(i.wide)));
      }
    }
  }

  method RunBody(cpu: Cpu, pc: Word, i: Instr, word: Word)
    requires NoHypervisor(cpu.c.mstatus, cpu.mode)
    modifies cpu
    ensures cpu.Snap() == ExecBody(old(cpu.Snap()), pc, i, word)
  {
    hide ExecLoad, ExecStore, ExecCsr, ExecMret, ExecSret, ExecLr, ExecSc, ExecAmo, NoHypervisor;
    match i {
      case Compute(rd, value) => cpu.gpr := PutReg(cpu.gpr, rd, value(cpu.gpr, pc));
      case Branch(taken, offset) =>
        if taken(cpu.gpr) {
          cpu.p := cpu.p.(dnpc := Wrap(pc + offset));
        }
      case Jump(rd, target) =>
        cpu.p := cpu.p.(dnpc := target(cpu.gpr, pc));
        cpu.gpr := PutReg(cpu.gpr, rd, Wrap(pc + 4));
      case LoadReg(_, _, _, _, _) => RunLoad(cpu, i);
      case StoreReg(_, _, _, _) => RunStore(cpu, i);
      case CsrOp(_, _, _, _) => RunCsr(cpu, i, word);
      case Mret => RunMret(cpu);
      case Sret => RunSret(cpu);
      case Ecall =>
        cpu.x := cpu.x.(isExcept := true, cause := EcallCause(cpu.mode));
      case Ebreak => cpu.running := false;
      case Invalid => cpu.running := false;
      case Fence =>
      case Lr(_, _, _) => RunLr(cpu, i);
      case Sc(_, _, _, _) => RunSc(cpu, i);
      case Amo(_, _, _, _, _) => RunAmo(cpu, i);
    }
  }

  method RunDecoded(cpu: Cpu, pc: Word, i: Instr, word: Word)
    requires NoHypervisor(cpu.c.mstatus, cpu.mode)
    modifies cpu
    ensures cpu.Snap() == DecodeExec(old(cpu.Snap()), pc, i, word)
  {
    hide ExecBody, NoHypervisor;
    cpu.p := cpu.p.(dnpc := Wrap(pc + 4));
    RunBody(cpu, pc, i, word);
    cpu.gpr := PutReg(cpu.gpr, 0, 0);
  }
}
