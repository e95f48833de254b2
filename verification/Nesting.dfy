// Interrupts cannot nest without bound: as long as no instruction returns from a
// trap or writes mstatus or sstatus, at most one interrupt is taken to S and
// then at most one to M, however many exceptions happen.
module Nesting {
  import opened Bits
  import opened HartState
  import opened Intr
  import opened IntrProperties
  import opened Csr
  import opened Inst
  import opened CpuExec
  import opened Precise
  import opened StepShape

  predicate LeavesStatusAlone(i: Instr) {
    !i.Mret? && !i.Sret? && !(i.CsrOp? && (i.idx == 0x300 || i.idx == 0x100))
  }

  predicate QuietStep(h: Hart, decode: Decoder) {
    FetchFaults(h) || LeavesStatusAlone(Executed(h, decode))
  }

  lemma OtherCsrsKeepStatus(c: Csrs, idx: nat, w: Word)
    requires idx != 0x300 && idx != 0x100
    ensures CsrWritten(c, idx, w).mstatus == c.mstatus
  {
    hide Merge;
  }

  lemma QuietInstruction(h: Hart, decode: Decoder)
    requires QuietStep(h, decode)
    ensures FetchAndExec(Cleared(h), decode).mode == h.mode
    ensures FetchAndExec(Cleared(h), decode).c.mstatus == h.c.mstatus
    ensures !FetchAndExec(Cleared(h), decode).isIrq
  {
    InstructionControl(h, decode);
    var i := Executed(h, decode);
    if i.CsrOp? && i.idx != 0x300 && i.idx != 0x100 && Legal(h.c, h.mode, i.idx) {
      OtherCsrsKeepStatus(h.c, i.idx, NewCsr(i.kind, CsrValue(h.c, i.idx).value, h.gpr[i.rs1], i.rs1));
    }
    hide FetchAndExec, CsrWritten, CsrValue, NewCsr, FetchFaults, Executed;
  }

  /** A quiet step opens no level, and an interrupt closes the one it enters. */
  ghost predicate Narrows(h: Hart, after: Hart) {
    && (OpenS(after.c.mstatus, after.mode) ==> OpenS(h.c.mstatus, h.mode))
    && (OpenM(after.c.mstatus, after.mode) ==> OpenM(h.c.mstatus, h.mode))
    && (after.isIrq ==>
          || (after.mode.ModeS? && OpenS(h.c.mstatus, h.mode) && !OpenS(after.c.mstatus, after.mode))
          || (after.mode.ModeM? && OpenM(h.c.mstatus, h.mode)
              && !OpenS(after.c.mstatus, after.mode) && !OpenM(after.c.mstatus, after.mode)))
  }

  lemma MachineModeIsShut(mstatus: Word)
    ensures !OpenS(mstatus, ModeM)
  {}

  lemma FinishNarrows(mid: Hart, pc: Word, d: Inputs)
    requires !mid.isIrq
    ensures Narrows(mid, FinishStep(mid, pc, d))
  {
    var c1 := DeviceLines(mid.c, d);
    assert c1.mstatus == mid.c.mstatus;
    FinishShape(mid, pc, d);
    match PendingTrap(mid, pc, d) {
      case Nothing =>
      case Pending(no, epc) =>
        TrapOpensNothing(c1, mid.mode, mid.x.tval, no, epc);
        if no.Interrupt? {
          DeliveryAgreesWithChoice(c1, mid.mode, mid.x.tval, epc);
          MachineModeIsShut(Trap(c1, mid.mode, mid.x.tval, no, epc).c.mstatus);
        }
    }
    hide FinishStep, Trap, QueryIntr, DeviceLines, OpenS, OpenM;
  }

  lemma StepNarrows(h: Hart, decode: Decoder, d: Inputs)
    requires QuietStep(h, decode)
    ensures Narrows(h, Step(h, decode, d))
  {
    hide FetchAndExec, FinishStep, QuietStep, OpenS, OpenM;
    QuietInstruction(h, decode);
    FinishNarrows(FetchAndExec(Cleared(h), decode), h.p.pc, d);
  }

  // ----- runs -----

  ghost predicate QuietRun(h: Hart, decode: Decoder, inputs: nat -> Inputs, n: nat) {
    forall k: nat :: k < n ==> QuietStep(Run(h, decode, inputs, k), decode)
  }

  function TakenInterrupts(h: Hart, decode: Decoder, inputs: nat -> Inputs, n: nat): nat
    decreases n
  {
    if n == 0 then 0
    else TakenInterrupts(h, decode, inputs, n - 1) + Digit(Run(h, decode, inputs, n).isIrq)
  }

  function RoomAfter(h: Hart, decode: Decoder, inputs: nat -> Inputs, n: nat): nat {
    Room(Run(h, decode, inputs, n).c, Run(h, decode, inputs, n).mode)
  }

  lemma RunStepNarrows(h: Hart, decode: Decoder, inputs: nat -> Inputs, n: nat)
    requires n > 0 && QuietRun(h, decode, inputs, n)
    ensures Narrows(Run(h, decode, inputs, n - 1), Run(h, decode, inputs, n))
  {
    assert QuietStep(Run(h, decode, inputs, n - 1), decode);
    StepNarrows(Run(h, decode, inputs, n - 1), decode, inputs(n - 1));
    hide Step, Narrows, QuietStep;
  }

  /** Interrupts taken plus levels still open never exceed the levels open at the start. */
  lemma {:induction false} InterruptsAreBounded(h: Hart, decode: Decoder, inputs: nat -> Inputs, n: nat)
    requires QuietRun(h, decode, inputs, n)
    ensures TakenInterrupts(h, decode, inputs, n) + RoomAfter(h, decode, inputs, n) <= Room(h.c, h.mode) <= 2
    decreases n
  {
    hide Run, OpenS, OpenM, QuietStep;
    if n == 0 {
      RunZero(h, decode, inputs);
    } else {
      InterruptsAreBounded(h, decode, inputs, n - 1);
      RunStepNarrows(h, decode, inputs, n);
    }
  }

  lemma RunZero(h: Hart, decode: Decoder, inputs: nat -> Inputs)
    ensures Run(h, decode, inputs, 0) == h
  {}

  lemma {:induction false} StaysShut(h: Hart, decode: Decoder, inputs: nat -> Inputs, j: nat, k: nat)
    requires j <= k && QuietRun(h, decode, inputs, k)
    ensures var a, b := Run(h, decode, inputs, j), Run(h, decode, inputs, k);
            && (OpenS(b.c.mstatus, b.mode) ==> OpenS(a.c.mstatus, a.mode))
            && (OpenM(b.c.mstatus, b.mode) ==> OpenM(a.c.mstatus, a.mode))
    decreases k
  {
    hide Run, OpenS, OpenM, QuietStep;
    if j < k {
      StaysShut(h, decode, inputs, j, k - 1);
      RunStepNarrows(h, decode, inputs, k);
    }
  }

  /** If two interrupts are taken, the first goes to S and the second to M. */
  lemma FirstSupervisorThenMachine(h: Hart, decode: Decoder, inputs: nat -> Inputs, j: nat, k: nat)
    requires 0 < j < k && QuietRun(h, decode, inputs, k)
    requires Run(h, decode, inputs, j).isIrq && Run(h, decode, inputs, k).isIrq
    ensures Run(h, decode, inputs, j).mode.ModeS? && Run(h, decode, inputs, k).mode.ModeM?
  {
    hide Run, OpenS, OpenM, QuietStep;
    RunStepNarrows(h, decode, inputs, j);
    RunStepNarrows(h, decode, inputs, k);
    StaysShut(h, decode, inputs, j, k - 1);
  }
}
