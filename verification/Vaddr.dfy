// vaddr.c: virtual loads, stores and fetches.
module Vaddr {
  import opened Bits
  import opened HartState
  import opened Paddr
  import opened Mmu

  /** Where an access goes, or the exception it leaves pending. */
  datatype Access = Refused(x: Exc) | At(pa: nat)

  function Resolve(env: Env, x: Exc, va: Word, t: MemType): Access {
    match CheckOf(env, va, t)
    case Direct => At(va)
    case Failed => Refused(Exc(va, PageFaultCause(t, x.amo), x.amo, true))
    case Translated =>
      match PageOf(env, va, t)
      case Fault => Refused(Exc(va, PageFaultCause(t, x.amo), false, true))
      case Page(base) => At(base + va % 0x1000)
  }

  function VFetch(env: Env, x: Exc, va: Word): (Exc, Word) {
    match Resolve(env, x, va, IFetch)
    case Refused(x') => (x', 0)
    case At(pa) => (x, PRead(env.bus, pa, 4))
  }

  function VRead(env: Env, x: Exc, va: Word, len: nat): (Exc, Word)
    requires AccessLength(len)
  {
    if va % len != 0 then (Exc(va, EX_LAM, x.amo, true), 0)
    else
      match Resolve(env, x, va, Read)
      case Refused(x') => (x', 0)
      case At(pa) => (x, PRead(env.bus, pa, len))
  }

  /** A misaligned store is flagged first; without translation it is performed
      all the same. */
  function VWrite(env: Env, x: Exc, va: Word, len: nat, d: Word): (Exc, Bus)
    requires AccessLength(len)
  {
    if va % len != 0 then
      match CheckOf(env, va, Write)
      case Direct => (Exc(va, EX_SAM, x.amo, true), PWrite(env.bus, va, len, d))
      case Translated => (Exc(va, EX_SAM, x.amo, true), env.bus)
      case Failed => (Exc(va, EX_SPF, x.amo, true), env.bus)
    else
      match Resolve(env, x, va, Write)
      case Refused(x') => (x', env.bus)
      case At(pa) => (x, PWrite(env.bus, pa, len, d))
  }

  /** The emulator's assertions hold for this access. */
  predicate NoAssertFires(env: Env, va: Word, t: MemType) {
    CheckOf(env, va, t).Translated? ==> UserOrSupervisor(env, t)
  }

  lemma PageOrOffset(base: nat, va: Word)
    requires base % 0x1000 == 0
    ensures Logic(OR, base, va % 0x1000) == base + va % 0x1000
  {
    assert Pow2(12) == 0x1000;
    OrOfDisjoint(base / 0x1000, 12, va % 0x1000);
  }

  method PaddrWrite(cpu: Cpu, pa: nat, len: nat, d: Word)
    modifies cpu`bus
    ensures cpu.bus == PWrite(old(cpu.bus), pa, len, d)
  {
    if InPmem(pa) {
      cpu.bus := cpu.bus.(ram := Store(cpu.bus.ram, pa, len, d));
    }
  }

  method VaddrMmuRead(cpu: Cpu, va: Word, len: nat, t: MemType) returns (rdata: Word)
    requires UserOrSupervisor(cpu.MmuEnv(), t)
    requires t.IFetch? ==> !cpu.x.amo
    modifies cpu`x
    ensures PageOf(old(cpu.MmuEnv()), va, t).Fault? ==>
              rdata == 0 && cpu.x == Exc(va, PageFaultCause(t, old(cpu.x).amo), false, true)
    ensures PageOf(old(cpu.MmuEnv()), va, t).Page? ==>
              && rdata == PRead(old(cpu.bus), PageOf(old(cpu.MmuEnv()), va, t).base + va % 0x1000, len)
              && cpu.x == old(cpu.x)
  {
    hide PageOf, Logic, HostRead, InPmem;
    var pageBase := IsaMmuTranslate(cpu, va, t);
    rdata := 0;
    if pageBase % 0x1000 == MEM_RET_OK {
      PageOrOffset(pageBase, va);
      var paddr := Logic(OR, pageBase, va % 0x1000);
      rdata := PRead(cpu.bus, paddr, len);
    }
  }

  method VaddrMmuWrite(cpu: Cpu, va: Word, len: nat, data: Word)
    requires UserOrSupervisor(cpu.MmuEnv(), Write) && AccessLength(len)
    modifies cpu`x, cpu`bus
    ensures va % len != 0 ==> cpu.x == Exc(va, EX_SAM, old(cpu.x).amo, true) && cpu.bus == old(cpu.bus)
    ensures va % len == 0 && PageOf(old(cpu.MmuEnv()), va, Write).Fault? ==>
              cpu.x == Exc(va, EX_SPF, false, true) && cpu.bus == old(cpu.bus)
    ensures va % len == 0 && PageOf(old(cpu.MmuEnv()), va, Write).Page? ==>
              && cpu.x == old(cpu.x)
              && cpu.bus == PWrite(old(cpu.bus), PageOf(old(cpu.MmuEnv()), va, Write).base + va % 0x1000, len, data)
  {
    if va % len != 0 {
      cpu.x := cpu.x.(isExcept := true, tval := va, cause := EX_SAM);
      return;
    }
    hide PageOf, Logic, PWrite;
    var pageBase := IsaMmuTranslate(cpu, va, Write);
    if pageBase % 0x1000 == MEM_RET_OK {
      PageOrOffset(pageBase, va);
      var paddr := Logic(OR, pageBase, va % 0x1000);
      PaddrWrite(cpu, paddr, len, data);
    }
  }

  method VaddrIfetch(cpu: Cpu, va: Word) returns (rdata: Word)
    requires !CheckOf(cpu.MmuEnv(), va, IFetch).Failed? && NoAssertFires(cpu.MmuEnv(), va, IFetch)
    requires !cpu.x.amo
    modifies cpu`x
    ensures (cpu.x, rdata) == VFetch(old(cpu.MmuEnv()), old(cpu.x), va)
  {
    hide PageOf, CheckOf, PRead;
    var check := IsaMmuCheck(cpu, va, IFetch);
    rdata := 0;
    match check {
      case Direct => rdata := PRead(cpu.bus, va, 4);
      case Translated => rdata := VaddrMmuRead(cpu, va, 4, IFetch);
      case Failed => assert false;
    }
  }

  method VaddrRead(cpu: Cpu, va: Word, len: nat) returns (rdata: Word)
    requires AccessLength(len) && NoAssertFires(cpu.MmuEnv(), va, Read)
    modifies cpu`x
    ensures (cpu.x, rdata) == VRead(old(cpu.MmuEnv()), old(cpu.x), va, len)
  {
    if va % len != 0 {
      cpu.x := cpu.x.(isExcept := true, tval := va, cause := EX_LAM);
      return 0;
    }
    hide PageOf, CheckOf, PRead;
    var check := IsaMmuCheck(cpu, va, Read);
    rdata := 0;
    match check {
      case Direct => rdata := PRead(cpu.bus, va, len);
      case Translated => rdata := VaddrMmuRead(cpu, va, len, Read);
      case Failed =>
    }
  }

  method VaddrWrite(cpu: Cpu, va: Word, len: nat, data: Word)
    requires AccessLength(len) && NoAssertFires(cpu.MmuEnv(), va, Write)
    modifies cpu`x, cpu`bus
    ensures (cpu.x, cpu.bus) == VWrite(old(cpu.MmuEnv()), old(cpu.x), va, len, data)
  {
    if va % len != 0 {
      cpu.x := cpu.x.(isExcept := true, tval := va, cause := EX_SAM);
    }
    hide PageOf, CheckOf, PWrite;
    var check := IsaMmuCheck(cpu, va, Write);
    match check {
      case Direct => PaddrWrite(cpu, va, len, data);
      case Translated => VaddrMmuWrite(cpu, va, len, data);
      case Failed =>
    }
  }

  /** The caller looks at the address only when no exception is pending. */
  method VaddrToPaddr(cpu: Cpu, va: Word, t: MemType) returns (paddr: nat)
    requires NoAssertFires(cpu.MmuEnv(), va, t)
    requires t.IFetch? ==> !cpu.x.amo
    modifies cpu`x
    ensures Resolve(old(cpu.MmuEnv()), old(cpu.x), va, t).At? ==>
              paddr == Resolve(old(cpu.MmuEnv()), old(cpu.x), va, t).pa && cpu.x == old(cpu.x)
    ensures Resolve(old(cpu.MmuEnv()), old(cpu.x), va, t).Refused? ==>
              cpu.x == Resolve(old(cpu.MmuEnv()), old(cpu.x), va, t).x
  {
    hide PageOf, CheckOf, Logic;
    var check := IsaMmuCheck(cpu, va, t);
    paddr := 0;
    match check {
      case Direct => paddr := va;
      case Translated =>
        var page := IsaMmuTranslate(cpu, va, t);
        if page % 0x1000 == 0 { PageOrOffset(page, va); }
        paddr := Logic(OR, page, va % 0x1000);
      case Failed =>
    }
  }
}
