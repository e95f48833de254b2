// intr.c: delegation, trap entry and the choice of an interrupt.
module Intr {
  import opened Bits
  import opened HartState

  datatype TrapNo = Exception(cause: Cause) | Interrupt(irq: nat)

  function CauseCode(c: Cause): (n: nat)
    ensures n < 16
  {
    match c
    case EX_IAM => 0  case EX_IAF => 1  case EX_II => 2   case EX_BP => 3
    case EX_LAM => 4  case EX_LAF => 5  case EX_SAM => 6  case EX_SAF => 7
    case EX_ECU => 8  case EX_ECS => 9  case EX_RS0 => 10 case EX_ECM => 11
    case EX_IPF => 12 case EX_LPF => 13 case EX_RS1 => 14 case EX_SPF => 15
  }

  /** The low four bits of the trap number. */
  function Code(no: TrapNo): nat {
    match no
    case Exception(c) => CauseCode(c)
    case Interrupt(irq) => irq % 16
  }

  /** The trap number as written to xcause: interrupts carry bit 63. */
  function Number(no: TrapNo): Word {
    match no
    case Exception(c) => CauseCode(c)
    case Interrupt(irq) => irq % 0x8000_0000_0000_0000 + 0x8000_0000_0000_0000
  }

  predicate DelegatedToS(c: Csrs, mode: Mode, no: TrapNo) {
    Bit(if no.Interrupt? then c.mideleg else c.medeleg, Code(no)) && !mode.ModeM?
  }

  /** xtvec: 4-byte aligned base, vectored for interrupts when bit 0 is set. */
  function TrapPc(xtvec: Word, no: TrapNo): Word {
    var base := xtvec / 4 * 4;
    if no.Interrupt? && xtvec % 2 == 1 then Wrap(base + Code(no) * 4) else base
  }

  predicate ReportsAddress(no: TrapNo) {
    no.Exception? && (match no.cause
                      case EX_IPF | EX_LPF | EX_SPF | EX_LAM | EX_SAM | EX_IAF | EX_LAF | EX_SAF => true
                      case _ => false)
  }

  function TrapValue(no: TrapNo, tval: Word): Word {
    if ReportsAddress(no) then tval else 0
  }

  datatype Trapped = Trapped(c: Csrs, mode: Mode, pc: Word)

  /** Entry to S: SPP, SPIE and SIE change and nothing else of mstatus. */
  function EnterS(mstatus: Word, mode: Mode): Word {
    SetBit(SetBit(SetBit(mstatus, SPP, LowBit(mode)), SPIE, Bit(mstatus, SIE)), SIE, false)
  }

  /** Entry to M: MPP, MPIE and MIE change and nothing else of mstatus. */
  function EnterM(mstatus: Word, mode: Mode): Word {
    SetBit(SetBit(SetMpp(mstatus, mode), MPIE, Bit(mstatus, MIE)), MIE, false)
  }

  function Trap(c: Csrs, mode: Mode, tval: Word, no: TrapNo, epc: Word): Trapped {
    if DelegatedToS(c, mode, no) then
      Trapped(c.(scause := Number(no), sepc := epc, mstatus := EnterS(c.mstatus, mode), stval := TrapValue(no, tval)),
              ModeS, TrapPc(c.stvec, no))
    else
      Trapped(c.(mcause := Number(no), mepc := epc, mstatus := EnterM(c.mstatus, mode), mtval := TrapValue(no, tval)),
              ModeM, TrapPc(c.mtvec, no))
  }

  method RaiseIntr(cpu: Cpu, no: TrapNo, epc: Word) returns (target: Word)
    modifies cpu`c, cpu`mode
    ensures Trapped(cpu.c, cpu.mode, target) == Trap(old(cpu.c), old(cpu.mode), old(cpu.x).tval, no, epc)
  {
    var deleg := if no.Interrupt? then cpu.c.mideleg else cpu.c.medeleg;
    var delegS := Bit(deleg, Code(no)) && !cpu.mode.ModeM?;
    hide SetMpp, TrapPc, Number;
    if delegS {
      cpu.c := cpu.c.(scause := Number(no));
      cpu.c := cpu.c.(sepc := epc);
      cpu.c := cpu.c.(mstatus := SetBit(cpu.c.mstatus, SPP, LowBit(cpu.mode)));
      cpu.c := cpu.c.(mstatus := SetBit(cpu.c.mstatus, SPIE, Bit(cpu.c.mstatus, SIE)));
      cpu.c := cpu.c.(mstatus := SetBit(cpu.c.mstatus, SIE, false));
      cpu.c := cpu.c.(stval := cpu.x.tval);
      if !ReportsAddress(no) {
        cpu.c := cpu.c.(stval := 0);
      }
      cpu.mode := ModeS;
      return TrapPc(cpu.c.stvec, no);
    } else {
      cpu.c := cpu.c.(mcause := Number(no));
      cpu.c := cpu.c.(mepc := epc);
      cpu.c := cpu.c.(mstatus := SetMpp(cpu.c.mstatus, cpu.mode));
      SetMppBits(old(cpu.c.mstatus), cpu.mode);
      cpu.c := cpu.c.(mstatus := SetBit(cpu.c.mstatus, MPIE, Bit(cpu.c.mstatus, MIE)));
      cpu.c := cpu.c.(mstatus := SetBit(cpu.c.mstatus, MIE, false));
      cpu.c := cpu.c.(mtval := cpu.x.tval);
      if !ReportsAddress(no) {
        cpu.c := cpu.c.(mtval := 0);
      }
      cpu.mode := ModeM;
      return TrapPc(cpu.c.mtvec, no);
    }
  }

  lemma SetMppBits(mstatus: Word, mode: Mode)
    ensures Mpp(SetMpp(mstatus, mode)) == mode
    ensures forall i: nat :: i != MPP_LO && i != MPP_HI ==> Bit(SetMpp(mstatus, mode), i) == Bit(mstatus, i)
  {}

  // ----- choosing an interrupt -----

  /** MEI, MSI, MTI, SEI, SSI, STI, UEI, USI, UTI */
  const PRIORITY: seq<nat> := [11, 3, 7, 9, 1, 5, 8, 0, 4]

  predicate GloballyEnabled(c: Csrs, mode: Mode, irq: nat) {
    if Bit(c.mideleg, irq) then (mode.ModeS? && Bit(c.mstatus, SIE)) || mode.ModeU?
    else (mode.ModeM? && Bit(c.mstatus, MIE)) || !mode.ModeM?
  }

  predicate Ready(c: Csrs, mode: Mode, irq: nat) {
    Bit(c.mie, irq) && Bit(c.mip, irq) && GloballyEnabled(c, mode, irq)
  }

  datatype Choice = NoInterrupt | Take(irq: nat)

  function FirstReady(c: Csrs, mode: Mode, k: nat): Choice
    requires k <= 9
    decreases 9 - k
  {
    if k == 9 then NoInterrupt
    else if Ready(c, mode, PRIORITY[k]) then Take(PRIORITY[k])
    else FirstReady(c, mode, k + 1)
  }

  function QueryIntr(c: Csrs, mode: Mode): Choice {
    FirstReady(c, mode, 0)
  }

  method IsaQueryIntr(cpu: Cpu) returns (r: Choice)
    ensures r == QueryIntr(cpu.c, cpu.mode)
  {
    var intrVec := Bitwise(AND, cpu.c.mie, cpu.c.mip);
    if intrVec == 0 {
      forall i: nat ensures !(Bit(cpu.c.mie, i) && Bit(cpu.c.mip, i)) {
        assert !Bit(intrVec, i);
      }
      NothingPending(cpu.c, cpu.mode, 0);
      return NoInterrupt;
    }
    var i := 0;
    while i < 9
      invariant 0 <= i <= 9
      invariant QueryIntr(cpu.c, cpu.mode) == FirstReady(cpu.c, cpu.mode, i)
    {
      var irq := PRIORITY[i];
      if Bit(intrVec, irq) {
        var deleg := Bit(cpu.c.mideleg, irq);
        var globalEnable := if deleg then (cpu.mode.ModeS? && Bit(cpu.c.mstatus, SIE)) || cpu.mode.ModeU?
                            else (cpu.mode.ModeM? && Bit(cpu.c.mstatus, MIE)) || !cpu.mode.ModeM?;
        if globalEnable {
          return Take(irq);
        }
      }
      i := i + 1;
    }
    return NoInterrupt;
  }

  lemma {:induction false} NothingPending(c: Csrs, mode: Mode, k: nat)
    requires k <= 9 && forall i: nat :: !(Bit(c.mie, i) && Bit(c.mip, i))
    ensures FirstReady(c, mode, k) == NoInterrupt
    decreases 9 - k
  {
    if k < 9 {
      NothingPending(c, mode, k + 1);
    }
  }
}
