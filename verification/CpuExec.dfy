// cpu-exec.c and handle_irq_or_except: one whole step of the machine, the
// stepping loop, and the ring that remembers the last sixteen instructions.
module CpuExec {
  import opened Bits
  import opened HartState
  import opened Mmu
  import opened Vaddr
  import opened Intr
  import opened Inst

  /** What the outside world supplies at each step: the three interrupt lines that
      devices drive and the stop key. */
  datatype Inputs = Inputs(msip: bool, mtip: bool, seip: bool, stop: bool)

  /** The instruction decoder is an arbitrary function of the instruction word. */
  type Decoder = nat -> Instr

  const MSIP: Position := 3
  const MTIP: Position := 7
  const SEIP: Position := 9

  function DeviceLines(c: Csrs, d: Inputs): Csrs {
    c.(mip := SetBit(SetBit(SetBit(c.mip, MSIP, d.msip), MTIP, d.mtip), SEIP, d.seip))
  }

  function EnterTrap(h: Hart, no: TrapNo, epc: Word): Hart {
    var t := Trap(h.c, h.mode, h.x.tval, no, epc);
    h.(c := t.c, mode := t.mode, p := h.p.(pc := t.pc))
  }

  function HandleIrqOrExcept(h: Hart): Hart {
    if h.x.isExcept then EnterTrap(h, Exception(h.x.cause), h.p.prePc)
    else
      match QueryIntr(h.c, h.mode)
      case NoInterrupt => h
      case Take(irq) => EnterTrap(h, Interrupt(irq), h.p.pc).(isIrq := true)
  }

  /** execute() clears the per-step flags. */
  function Cleared(h: Hart): Hart {
    h.(x := h.x.(isExcept := false, amo := false), isIrq := false)
  }

  /** isa_exec_once: a faulting fetch executes nothing and leaves dnpc stale. */
  function FetchAndExec(h: Hart, decode: Decoder): Hart {
    var (x, fetched) := VFetch(h.MmuEnv(), h.x, h.p.pc);
    if x.isExcept then h.(x := x)
    else DecodeExec(h.(x := x), h.p.pc, decode(fetched % TWO32), fetched % TWO32)
  }

  /** The pc moves to dnpc and the old one is remembered; devices drive their lines. */
  function Retire(h: Hart, pc: Word, d: Inputs): Hart {
    h.(p := Pcs(h.p.dnpc, pc, h.p.dnpc), c := DeviceLines(h.c, d))
  }

  function Count(h: Hart): Hart {
    h.(c := h.c.(minstret := Wrap(h.c.minstret + 1), mcycle := Wrap(h.c.mcycle + 1)))
  }

  function Stopped(h: Hart, d: Inputs): Hart {
    if d.stop then h.(running := false) else h
  }

  /** The part of a step after the instruction itself. */
  function FinishStep(h: Hart, pc: Word, d: Inputs): Hart {
    Count(Stopped(HandleIrqOrExcept(Retire(h, pc, d)), d))
  }

  function Step(h: Hart, decode: Decoder, d: Inputs): Hart {
    FinishStep(FetchAndExec(Cleared(h), decode), h.p.pc, d)
  }

  /** The state after n steps. */
  function Run(h: Hart, decode: Decoder, inputs: nat -> Inputs, n: nat): Hart
    decreases n
  {
    if n == 0 then h else Step(Run(h, decode, inputs, n - 1), decode, inputs(n - 1))
  }

  // ----- the step as it runs -----

  class Ring {
    const pcs: array<Word>
    const insts: array<Word>
    var counter: Word

    ghost predicate Valid() {
      pcs.Length == 16 && insts.Length == 16 && pcs != insts
    }

    constructor ()
      ensures Valid() && fresh(pcs) && fresh(insts) && counter == 0
    {
      pcs := new Word[16](_ => 0);
      insts := new Word[16](_ => 0);
      counter := 0;
    }

    /** Slot k: the pc and the word recorded there. */
    ghost function Slot(k: nat): (Word, Word)
      requires Valid() && k < 16
      reads pcs, insts
    {
      (pcs[k], insts[k])
    }

    method Record(pc: Word, inst: Word)
      requires Valid()
      modifies pcs, insts
      ensures forall k: nat :: k < 16 ==> Slot(k) == if k == counter % 16 then (pc, inst) else old(Slot(k))
    {
      pcs[counter % 16] := pc;
      insts[counter % 16] := inst;
    }
  }

  /** The fetch does not hit the emulator's assertion on a non-canonical pc. */
  predicate CanFetch(h: Hart) {
    !CheckOf(h.MmuEnv(), h.p.pc, IFetch).Failed?
  }

  /** The instruction word a step records: zero when the fetch faults. */
  function FetchedWord(h: Hart): Word {
    VFetch(h.MmuEnv(), h.x, h.p.pc).1 % TWO32
  }

  method IsaExecOnce(cpu: Cpu, decode: Decoder) returns (word: Word)
    requires NoHypervisor(cpu.c.mstatus, cpu.mode) && CanFetch(cpu.Snap()) && !cpu.x.amo && !cpu.x.isExcept
    modifies cpu
    ensures cpu.Snap() == FetchAndExec(old(cpu.Snap()), decode)
    ensures word == FetchedWord(old(cpu.Snap()))
  {
    var pc := cpu.p.pc;
    NoAssert(cpu.MmuEnv(), pc, IFetch);
    hide VFetch, DecodeExec, CheckOf, NoAssertFires, NoHypervisor;
    var fetched := VaddrIfetch(cpu, pc);
    word := fetched % TWO32;
    if cpu.x.isExcept {
      return;
    }
    RunDecoded(cpu, pc, decode(word), word);
  }

  method HandleIntr(cpu: Cpu)
    modifies cpu`c, cpu`mode, cpu`p, cpu`isIrq
    ensures cpu.Snap() == HandleIrqOrExcept(old(cpu.Snap()))
  {
    hide Trap, QueryIntr;
    if cpu.x.isExcept {
      var target := RaiseIntr(cpu, Exception(cpu.x.cause), cpu.p.prePc);
      cpu.p := cpu.p.(pc := target);
    } else {
      var choice := IsaQueryIntr(cpu);
      if choice.Take? {
        var target := RaiseIntr(cpu, Interrupt(choice.irq), cpu.p.pc);
        cpu.p := cpu.p.(pc := target);
        cpu.isIrq := true;
      }
    }
  }

  method Finish(cpu: Cpu, pc: Word, d: Inputs)
    modifies cpu
    ensures cpu.Snap() == FinishStep(old(cpu.Snap()), pc, d)
  {
    hide HandleIrqOrExcept, DeviceLines;
    cpu.p := Pcs(cpu.p.dnpc, pc, cpu.p.dnpc);
    cpu.c := DeviceLines(cpu.c, d);
    HandleIntr(cpu);
    if d.stop {
      cpu.running := false;
    }
    cpu.c := cpu.c.(minstret := Wrap(cpu.c.minstret + 1));
    cpu.c := cpu.c.(mcycle := Wrap(cpu.c.mcycle + 1));
  }

  method ExecOnce(cpu: Cpu, ring: Ring, decode: Decoder, d: Inputs)
    requires NoHypervisor(cpu.c.mstatus, cpu.mode) && CanFetch(Cleared(cpu.Snap())) && ring.Valid()
    modifies cpu, ring`counter, ring.pcs, ring.insts
    ensures cpu.Snap() == Step(old(cpu.Snap()), decode, d)
    ensures ring.counter == Wrap(old(ring.counter) + 1)
    ensures forall k: nat :: k < 16 ==>
              ring.Slot(k) == if k == old(ring.counter) % 16 then (old(cpu.p.pc), FetchedWord(Cleared(old(cpu.Snap()))))
                              else old(ring.Slot(k))
  {
    hide FetchAndExec, FinishStep, CheckOf, NoHypervisor, VFetch;
    cpu.x := cpu.x.(isExcept := false, amo := false);
    cpu.isIrq := false;
    assert cpu.Snap() == Cleared(old(cpu.Snap()));
    var pc := cpu.p.pc;
    var word := IsaExecOnce(cpu, decode);
    ring.Record(pc, word);
    Finish(cpu, pc, d);
    ring.counter := Wrap(ring.counter + 1);
  }

  /** What step k of a run from h records in the ring. */
  function Recorded(h: Hart, decode: Decoder, inputs: nat -> Inputs, k: nat): (Word, Word) {
    var before := Run(h, decode, inputs, k);
    (before.p.pc, FetchedWord(Cleared(before)))
  }

  /** No assertion of the emulator fires in step k of the run. */
  predicate StepAllowed(h: Hart, decode: Decoder, inputs: nat -> Inputs, k: nat) {
    var before := Run(h, decode, inputs, k);
    NoHypervisor(before.c.mstatus, before.mode) && CanFetch(Cleared(before))
  }

  /** The machine is still running before step k, so that the step is executed. */
  ghost predicate Executes(h: Hart, decode: Decoder, inputs: nat -> Inputs, k: nat) {
    forall j: nat :: 0 < j <= k ==> Run(h, decode, inputs, j).running
  }

  lemma WrapKeepsSlot(c: nat, k: nat)
    ensures Wrap(c + k) % 16 == (c + k) % 16 && Wrap(Wrap(c + k) + 1) == Wrap(c + (k + 1))
  {}

  lemma WrapOfWord(c: Word)
    ensures Wrap(c) == c
  {}

  lemma SlotsDiffer(c: nat, j: nat, k: nat)
    requires j < k < j + 16
    ensures (c + j) % 16 != (c + k) % 16
  {}

  /** execute(n): runs until n steps are done or the machine stops running; the
      ring then holds the pc and word of each of the last sixteen steps. */
  method Execute(cpu: Cpu, ring: Ring, decode: Decoder, inputs: nat -> Inputs, n: nat) returns (steps: nat)
    requires ring.Valid()
    requires forall k: nat :: k < n && Executes(cpu.Snap(), decode, inputs, k) ==> StepAllowed(cpu.Snap(), decode, inputs, k)
    modifies cpu, ring`counter, ring.pcs, ring.insts
    ensures steps <= n && cpu.Snap() == Run(old(cpu.Snap()), decode, inputs, steps)
    ensures steps < n ==> steps > 0 && !Run(old(cpu.Snap()), decode, inputs, steps).running
    ensures forall k: nat :: 0 < k < steps ==> Run(old(cpu.Snap()), decode, inputs, k).running
    ensures ring.counter == Wrap(old(ring.counter) + steps)
    ensures forall k: nat :: k < steps <= k + 16 ==>
              ring.Slot((old(ring.counter) + k) % 16) == Recorded(old(cpu.Snap()), decode, inputs, k)
  {
    hide Step, NoHypervisor, CanFetch, FetchedWord, Cleared, Wrap;
    ghost var h, c := cpu.Snap(), ring.counter;
    WrapOfWord(c);
    steps := 0;
    while steps < n
      invariant steps <= n && ring.Valid()
      invariant cpu.Snap() == Run(h, decode, inputs, steps)
      invariant forall k: nat :: 0 < k <= steps ==> Run(h, decode, inputs, k).running
      invariant ring.counter == Wrap(c + steps)
      invariant forall k: nat :: k < steps <= k + 16 ==> ring.Slot((c + k) % 16) == Recorded(h, decode, inputs, k)
      decreases n - steps
    {
      assert Executes(h, decode, inputs, steps) && StepAllowed(h, decode, inputs, steps);
      ExecOnce(cpu, ring, decode, inputs(steps));
      WrapKeepsSlot(c, steps);
      forall k: nat | k < steps + 1 <= k + 16
        ensures ring.Slot((c + k) % 16) == Recorded(h, decode, inputs, k)
      {
        if k < steps {
          SlotsDiffer(c, k, steps);
        }
      }
      steps := steps + 1;
      if !cpu.running {
        return;
      }
    }
  }
}
