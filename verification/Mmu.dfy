// mmu.c: the emulator's permission check, address check and page walk,
// statement by statement, against Sv39.
module Mmu {
  import opened Bits
  import opened HartState
  import opened Paddr
  import opened Sv39

  const MEM_RET_OK: nat := 0
  const MEM_RET_FAIL: nat := 1

  datatype MmuCheck = Direct | Translated | Failed

  function EffectiveMode(env: Env, t: MemType): Mode {
    if Bit(env.mstatus, MPRV) && !t.IFetch? then Mpp(env.mstatus) else env.mode
  }

  function RightsOf(env: Env, t: MemType): Rights {
    Rights(EffectiveMode(env, t), Bit(env.mstatus, SUM), Bit(env.mstatus, MXR))
  }

  function SatpPpn(satp: Word): nat {
    satp % 0x1000_0000_0000
  }

  function SatpMode(satp: Word): nat {
    satp / 0x1000_0000_0000_0000
  }

  predicate VmEnabled(env: Env, t: MemType) {
    !EffectiveMode(env, t).ModeM? && SatpMode(env.satp) == 8
  }

  function CheckOf(env: Env, va: Word, t: MemType): MmuCheck {
    if !VmEnabled(env, t) then Direct else if Canonical(va) then Translated else Failed
  }

  function PageOf(env: Env, va: Word, t: MemType): Page {
    Translate(env.bus, EMULATOR, SatpPpn(env.satp), RightsOf(env, t), va, t)
  }

  /** An AMO's read fault is reported as a store fault. */
  function PageFaultCause(t: MemType, amo: bool): Cause {
    match t
    case IFetch => EX_IPF
    case Read => if amo then EX_SPF else EX_LPF
    case Write => EX_SPF
  }

  /** The code asserts that only U and S mode addresses are translated. */
  predicate UserOrSupervisor(env: Env, t: MemType) {
    EffectiveMode(env, t).ModeU? || EffectiveMode(env, t).ModeS?
  }

  method EffMode(cpu: Cpu, t: MemType) returns (mode: Mode)
    ensures mode == EffectiveMode(cpu.MmuEnv(), t)
  {
    mode := if Bit(cpu.c.mstatus, MPRV) && !t.IFetch? then Mpp(cpu.c.mstatus) else cpu.mode;
  }

  method RaisePageFault(cpu: Cpu, cause: Cause, va: Word)
    modifies cpu`x
    ensures cpu.x == Exc(va, cause, old(cpu.x).amo, true)
  {
    cpu.x := cpu.x.(cause := cause, tval := va, isExcept := true);
  }

  method CheckPermission(cpu: Cpu, pte: Pte, ok0: bool, va: Word, t: MemType) returns (granted: bool)
    requires UserOrSupervisor(cpu.MmuEnv(), t)
    requires t.IFetch? ==> !cpu.x.amo
    modifies cpu`x
    ensures granted == (ok0 && Allowed(RightsOf(old(cpu.MmuEnv()), t), pte, t))
    ensures granted ==> cpu.x == old(cpu.x)
    ensures !granted ==> cpu.x == Exc(va, PageFaultCause(t, old(cpu.x).amo), false, true)
  {
    var ifetch := t.IFetch?;
    var mode := EffMode(cpu, t);
    var ok := ok0 && pte.v;
    ok := ok && !(mode.ModeU? && !pte.u);
    ok := ok && !(pte.u && mode.ModeS? && (!Bit(cpu.c.mstatus, SUM) || ifetch));
    if ifetch {
      var updateAd := !pte.a;
      if !(ok && pte.x) || updateAd {
        RaisePageFault(cpu, EX_IPF, va);
        return false;
      }
    } else if t.Read? {
      var canLoad := pte.r || (Bit(cpu.c.mstatus, MXR) && pte.x);
      var updateAd := !pte.a;
      if !(ok && canLoad) || updateAd {
        RaisePageFault(cpu, if cpu.x.amo then EX_SPF else EX_LPF, va);
        cpu.x := cpu.x.(amo := false);
        return false;
      }
    } else {
      var updateAd := !pte.a || !pte.d;
      if !(ok && pte.w) || updateAd {
        RaisePageFault(cpu, EX_SPF, va);
        cpu.x := cpu.x.(amo := false);
        return false;
      }
    }
    return true;
  }

  method IsaMmuCheck(cpu: Cpu, va: Word, t: MemType) returns (check: MmuCheck)
    modifies cpu`x
    ensures check == CheckOf(old(cpu.MmuEnv()), va, t)
    ensures check.Failed? ==> cpu.x == Exc(va, PageFaultCause(t, old(cpu.x).amo), old(cpu.x).amo, true)
    ensures !check.Failed? ==> cpu.x == old(cpu.x)
  {
    var mode := EffMode(cpu, t);
    var vmEnable := !mode.ModeM? && SatpMode(cpu.c.satp) == 8;
    var vaMask := 0x400_0000 - 1;
    var vaMsbs := va / 0x40_0000_0000;
    var vaMsbsOk := vaMsbs == vaMask || vaMsbs == 0 || !vmEnable;
    if !vaMsbsOk {
      if t.IFetch? {
        RaisePageFault(cpu, EX_IPF, va);
      } else if t.Read? {
        RaisePageFault(cpu, if cpu.x.amo then EX_SPF else EX_LPF, va);
      } else {
        RaisePageFault(cpu, EX_SPF, va);
      }
      return Failed;
    }
    return if vmEnable then Translated else Direct;
  }

  /** (uint64_t)((int64_t)(va << 25) >> 25) */
  function SignExtend39(va: Word): Word {
    var low := va % 0x80_0000_0000;
    if low < 0x40_0000_0000 then low else low + TWO64 - 0x80_0000_0000
  }

  /** The walk's own sign-extension test accepts exactly the addresses that the
      earlier check accepts, so it never fires after that check. */
  lemma CanonicalTestsAgree(va: Word)
    ensures SignExtend39(va) == va <==> Canonical(va)
  {}

  function RootTable(satp: Word): nat {
    Base(SatpPpn(satp), EMULATOR)
  }

  /** The table walk of isa_mmu_translate: either a leaf or the jump to `bad`. */
  method PageWalk(cpu: Cpu, va: Word) returns (bad: bool, pte: Pte, level: int)
    ensures bad == (!Canonical(va) || Walk(cpu.bus, EMULATOR, RootTable(cpu.c.satp), va, 2).NoLeaf?)
    ensures !bad ==> 0 <= level < 3 && Walk(cpu.bus, EMULATOR, RootTable(cpu.c.satp), va, 2) == Leaf(pte, level)
  {
    hide Decode, Base, Vpn, PRead, Canonical, SignExtend39;
    var bus := cpu.bus;
    var pgBase := RootTable(cpu.c.satp);
    pte := Decode(0);
    level := 2;
    CanonicalTestsAgree(va);
    if SignExtend39(va) != va {
      return true, pte, level;
    }
    ghost var found := Walk(bus, EMULATOR, pgBase, va, 2);
    while level >= 0
      invariant 0 <= level < 3 && pgBase >= 0
      invariant found == Walk(bus, EMULATOR, pgBase, va, level)
    {
      var pPte := pgBase + Vpn(va, level) * 8;
      pte := Decode(PRead(bus, pPte, 8));
      if !pte.v || (!pte.r && pte.w) {
        return true, pte, level;
      }
      if pte.r || pte.x {
        return false, pte, level;
      }
      pgBase := Base(pte.ppn, EMULATOR);
      level := level - 1;
      if level < 0 {
        return true, pte, level;
      }
    }
  }

  method IsaMmuTranslate(cpu: Cpu, va: Word, t: MemType) returns (ret: nat)
    requires UserOrSupervisor(cpu.MmuEnv(), t)
    requires t.IFetch? ==> !cpu.x.amo
    modifies cpu`x
    ensures PageOf(old(cpu.MmuEnv()), va, t).Page? ==>
              && ret == PageOf(old(cpu.MmuEnv()), va, t).base && ret % 0x1000 == MEM_RET_OK
              && cpu.x == old(cpu.x)
    ensures PageOf(old(cpu.MmuEnv()), va, t).Fault? ==>
              ret == MEM_RET_FAIL && cpu.x == Exc(va, PageFaultCause(t, old(cpu.x).amo), false, true)
  {
    ghost var env := cpu.MmuEnv();
    var bad, pte, level := PageWalk(cpu, va);
    if !bad {
      var granted := CheckPermission(cpu, pte, true, va, t);
      if !granted {
        return MEM_RET_FAIL;
      }
      var page := PageOfLeaf(pte, va, level);
      LeafComposition(pte, va, level);
      match page {
        case Page(pgBase) => return pgBase;
        case Fault => bad := true;
      }
    }
    assert cpu.MmuEnv() == env;
    var granted := CheckPermission(cpu, pte, false, va, t);
    return MEM_RET_FAIL;
  }

  /** The tail of isa_mmu_translate on physical addresses: a misaligned
      superpage goes to `bad`, an aligned one takes the middle bits of va. */
  function PageOfLeaf(pte: Pte, va: Word, level: Level): Page {
    var pgBase := Base(pte.ppn, EMULATOR);
    var pgSize := 0x1000 * Span(level);
    if level == 0 then Page(pgBase + MEM_RET_OK)
    else if pgBase % pgSize != 0 then Fault
    else Page(pgBase - pgBase % pgSize + (va % pgSize - va % 0x1000) + MEM_RET_OK)
  }

  /** Dropping the high bits of an address keeps its offset in a large page. */
  lemma CutLargePage(ppn: nat, low: nat, level: Level)
    requires level > 0 && low < Span(level)
    ensures Base(ppn, EMULATOR) % (0x1000 * Span(level)) == ppn % Span(level) * 0x1000
    ensures ppn % Span(level) == 0 ==> Base(ppn + low, EMULATOR) == Base(ppn, EMULATOR) + low * 0x1000
  {
    var q, r := ppn / Span(level), ppn % Span(level);
    var pages := if level == 1 then 0x80_0000 else 0x4000;
    var hi, lo := q / pages, q % pages;
    var size := 0x1000 * Span(level);
    assert ppn * 0x1000 == hi * 0x1000_0000_0000 + (lo * size + r * 0x1000);
    DivModUnique(ppn * 0x1000, 0x1000_0000_0000, hi, lo * size + r * 0x1000);
    DivModUnique(lo * size + r * 0x1000, size, lo, r * 0x1000);
    if r == 0 {
      DivModUnique((ppn + low) * 0x1000, 0x1000_0000_0000, hi, lo * size + low * 0x1000);
    }
  }

  lemma MiddleBits(va: Word, level: Level)
    ensures va % (0x1000 * Span(level)) - va % 0x1000 == va / 0x1000 % Span(level) * 0x1000
  {}

  /** The code's superpage arithmetic on addresses is the composition on page
      numbers, and a granted page base leaves the status bits clear. */
  lemma LeafComposition(pte: Pte, va: Word, level: Level)
    ensures PageOfLeaf(pte, va, level) == LeafPage(pte, level, va, EMULATOR)
    ensures PageOfLeaf(pte, va, level).Page? ==> PageOfLeaf(pte, va, level).base % 0x1000 == MEM_RET_OK
  {
    if level > 0 {
      CutLargePage(pte.ppn, va / 0x1000 % Span(level), level);
      MiddleBits(va, level);
    }
  }
}
