// reg.h: CSR numbers, access legality, write masks and the S-level views.
module Csr {
  import opened Bits
  import opened HartState

  const MSTATUS_WRITE: Word := 0x80000030007fffea
  const SSTATUS_READ: Word := 0x80000003000de762
  const SSTATUS_WRITE: Word := 0x80000000000de762
  const SATP_WRITE: Word := 0xf0000fffffffffff
  const S_INTERRUPTS: Word := 0x222

  datatype Value = Unknown | Known(value: Word)

  function CsrValue(c: Csrs, idx: nat): Value {
    match idx
    case 0x300 => Known(c.mstatus)
    case 0x305 => Known(c.mtvec)
    case 0x302 => Known(c.medeleg)
    case 0x303 => Known(c.mideleg)
    case 0x344 => Known(c.mip)
    case 0x304 => Known(c.mie)
    case 0x340 => Known(c.mscratch)
    case 0x341 => Known(c.mepc)
    case 0x342 => Known(c.mcause)
    case 0x343 => Known(c.mtval)
    case 0x105 => Known(c.stvec)
    case 0x106 => Known(c.scounteren)
    case 0x140 => Known(c.sscratch)
    case 0x141 => Known(c.sepc)
    case 0x142 => Known(c.scause)
    case 0x143 => Known(c.stval)
    case 0x180 => Known(c.satp)
    case 0x100 => Known(Bitwise(AND, c.mstatus, SSTATUS_READ))
    case 0x144 => Known(Bitwise(AND, c.mip, S_INTERRUPTS))
    case 0x104 => Known(Bitwise(AND, c.mie, S_INTERRUPTS))
    case 0x301 => Known(0x8000000000141101)
    case 0xf11 => Known(0)
    case 0xf12 => Known(0)
    case 0xf13 => Known(0)
    case 0xf14 => Known(0)
    case 0xb02 => Known(c.minstret)
    case 0xb00 => Known(c.mcycle)
    case _ => Unknown
  }

  /** Numbers above 0x200 need machine mode. */
  predicate Legal(c: Csrs, mode: Mode, idx: nat) {
    CsrValue(c, idx).Known? && (idx > 0x200 ==> mode.ModeM?)
  }

  function CsrWritten(c: Csrs, idx: nat, w: Word): Csrs {
    match idx
    case 0x300 => c.(mstatus := Merge(c.mstatus, w, MSTATUS_WRITE))
    case 0x305 => c.(mtvec := w)
    case 0x302 => c.(medeleg := w)
    case 0x303 => c.(mideleg := w)
    case 0x344 => c.(mip := w)
    case 0x304 => c.(mie := w)
    case 0x340 => c.(mscratch := w)
    case 0x341 => c.(mepc := w)
    case 0x342 => c.(mcause := w)
    case 0x343 => c.(mtval := w)
    case 0x105 => c.(stvec := w)
    case 0x106 => c.(scounteren := w)
    case 0x140 => c.(sscratch := w)
    case 0x141 => c.(sepc := w)
    case 0x142 => c.(scause := w)
    case 0x143 => c.(stval := w)
    // the bits outside the mask come from mstatus, as in the emulator
    case 0x180 => if w / 0x1000_0000_0000_0000 == 8 then c.(satp := Merge(c.mstatus, w, SATP_WRITE)) else c
    case 0x100 => c.(mstatus := Merge(c.mstatus, w, SSTATUS_WRITE))
    case 0x144 => c.(mip := Merge(c.mip, w, S_INTERRUPTS))
    case 0x104 => c.(mie := Merge(c.mie, w, S_INTERRUPTS))
    case _ => c
  }

  method CsrRead(cpu: Cpu, idx: nat) returns (temp: Word)
    modifies cpu`x
    ensures cpu.x == old(cpu.x).(isExcept := old(cpu.x).isExcept || !Legal(cpu.c, cpu.mode, idx))
    ensures CsrValue(cpu.c, idx).Known? ==> temp == CsrValue(cpu.c, idx).value
  {
    temp := 0;
    match CsrValue(cpu.c, idx) {
      case Known(value) => temp := value;
      case Unknown => cpu.x := cpu.x.(isExcept := true);
    }
    if idx > 0x200 && !cpu.mode.ModeM? {
      cpu.x := cpu.x.(isExcept := true);
    }
  }

  method CsrWrite(cpu: Cpu, idx: nat, w: Word)
    modifies cpu`c, cpu`x
    ensures cpu.c == CsrWritten(old(cpu.c), idx, w)
    ensures cpu.x == old(cpu.x).(isExcept := old(cpu.x).isExcept || !Legal(old(cpu.c), cpu.mode, idx))
  {
    ghost var known := CsrValue(cpu.c, idx).Known?;
    match idx {
      case 0x300 => cpu.c := cpu.c.(mstatus := Merge(cpu.c.mstatus, w, MSTATUS_WRITE));
      case 0x305 => cpu.c := cpu.c.(mtvec := w);
      case 0x302 => cpu.c := cpu.c.(medeleg := w);
      case 0x303 => cpu.c := cpu.c.(mideleg := w);
      case 0x344 => cpu.c := cpu.c.(mip := w);
      case 0x304 => cpu.c := cpu.c.(mie := w);
      case 0x340 => cpu.c := cpu.c.(mscratch := w);
      case 0x341 => cpu.c := cpu.c.(mepc := w);
      case 0x342 => cpu.c := cpu.c.(mcause := w);
      case 0x343 => cpu.c := cpu.c.(mtval := w);
      case 0x105 => cpu.c := cpu.c.(stvec := w);
      case 0x106 => cpu.c := cpu.c.(scounteren := w);
      case 0x140 => cpu.c := cpu.c.(sscratch := w);
      case 0x141 => cpu.c := cpu.c.(sepc := w);
      case 0x142 => cpu.c := cpu.c.(scause := w);
      case 0x143 => cpu.c := cpu.c.(stval := w);
      case 0x180 =>
        if w / 0x1000_0000_0000_0000 == 8 {
          cpu.c := cpu.c.(satp := Merge(cpu.c.mstatus, w, SATP_WRITE));
        }
      case 0x100 => cpu.c := cpu.c.(mstatus := Merge(cpu.c.mstatus, w, SSTATUS_WRITE));
      case 0x144 => cpu.c := cpu.c.(mip := Merge(cpu.c.mip, w, S_INTERRUPTS));
      case 0x104 => cpu.c := cpu.c.(mie := Merge(cpu.c.mie, w, S_INTERRUPTS));
      case 0x301 | 0xf11 | 0xf12 | 0xf13 | 0xf14 | 0xb02 | 0xb00 =>
      case _ => cpu.x := cpu.x.(isExcept := true);
    }
    if idx > 0x200 && !cpu.mode.ModeM? {
      cpu.x := cpu.x.(isExcept := true);
    }
  }
}
