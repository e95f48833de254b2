// The processor state shared by every part of the emulator: constants, the bit
// fields of mstatus, a value-level snapshot (Hart) and the mutable object (Cpu).

module HartState {
  import opened Bits

  // ----- privilege modes, exception numbers, access types -----

  /** The two-bit privilege mode, in ascending order of privilege. */
  datatype Mode = ModeU | ModeS | ModeH | ModeM

  datatype Cause =
    | EX_IAM | EX_IAF | EX_II | EX_BP | EX_LAM | EX_LAF | EX_SAM | EX_SAF
    | EX_ECU | EX_ECS | EX_RS0 | EX_ECM | EX_IPF | EX_LPF | EX_RS1 | EX_SPF

  type Byte = b: nat | b < 256

  /** The integer registers. */
  type Regs = g: seq<Word> | |g| == 32 witness seq(32, i => 0)

  datatype MemType = IFetch | Read | Write

  // ----- bit positions of mstatus -----

  const SIE: Position := 1
  const MIE: Position := 3
  const SPIE: Position := 5
  const MPIE: Position := 7
  const SPP: Position := 8
  const MPP_LO: Position := 11
  const MPP_HI: Position := 12
  const MPRV: Position := 17
  const SUM: Position := 18
  const MXR: Position := 19

  function ModeOfBits(hi: bool, lo: bool): Mode {
    if hi then (if lo then ModeM else ModeH) else if lo then ModeS else ModeU
  }

  predicate HighBit(mode: Mode) { mode.ModeH? || mode.ModeM? }
  predicate LowBit(mode: Mode) { mode.ModeS? || mode.ModeM? }

  function Mpp(mstatus: Word): Mode {
    ModeOfBits(Bit(mstatus, MPP_HI), Bit(mstatus, MPP_LO))
  }

  function SetMpp(mstatus: Word, mode: Mode): Word {
    SetBit(SetBit(mstatus, MPP_LO, LowBit(mode)), MPP_HI, HighBit(mode))
  }

  // ----- value-level state -----

  /** What a memory access can see: RAM bytes (an absent byte is still zero, as
      in a zero-initialised array) and the devices, an arbitrary function of the
      address and the access length. */
  datatype Bus = Bus(ram: map<nat, Byte>, dev: (nat, nat) -> Word)

  datatype Csrs = Csrs(
    mstatus: Word, mtvec: Word, medeleg: Word, mideleg: Word, mip: Word, mie: Word,
    mscratch: Word, mepc: Word, mcause: Word, mtval: Word,
    stvec: Word, scounteren: Word, sscratch: Word, sepc: Word, scause: Word, stval: Word,
    satp: Word, minstret: Word, mcycle: Word)

  /** The pending exception and the flag that redirects an AMO's read faults. */
  datatype Exc = Exc(tval: Word, cause: Cause, amo: bool, isExcept: bool)

  /** Everything address translation looks at. */
  datatype Env = Env(bus: Bus, satp: Word, mstatus: Word, mode: Mode)

  /** The LR/SC reservation: flag 0xff for a doubleword, 0xf for a word. */
  datatype Reservation = Reservation(addr: nat, flag: nat)

  datatype Pcs = Pcs(pc: Word, prePc: Word, dnpc: Word)

  datatype Hart = Hart(
    gpr: Regs, c: Csrs, mode: Mode, p: Pcs, x: Exc, isIrq: bool,
    bus: Bus, res: Reservation, running: bool)
  {
    function MmuEnv(): Env {
      Env(bus, c.satp, c.mstatus, mode)
    }
  }

  // ----- the mutable processor -----

  class Cpu {
    var gpr: Regs
    var c: Csrs
    var mode: Mode
    var p: Pcs
    var x: Exc
    var isIrq: bool
    var bus: Bus
    var res: Reservation
    var running: bool

    constructor (h: Hart)
      ensures Snap() == h
    {
      gpr, c, mode, p, x := h.gpr, h.c, h.mode, h.p, h.x;
      isIrq, bus, res, running := h.isIrq, h.bus, h.res, h.running;
    }

    function MmuEnv(): Env
      reads this`bus, this`c, this`mode
    {
      Env(bus, c.satp, c.mstatus, mode)
    }

    ghost function Snap(): Hart
      reads this
    {
      Hart(gpr, c, mode, p, x, isIrq, bus, res, running)
    }
  }
}
