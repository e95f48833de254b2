// Traps and their returns bracket properly: each xRET resumes exactly what its
// trap interrupted, through any nesting of machine traps inside supervisor
// handlers.
module Bracketing {
  import opened Bits
  import opened HartState
  import opened Intr
  import opened IntrProperties
  import opened Csr
  import opened Inst
  import opened CpuExec
  import opened Precise
  import opened StepShape

  /** The state that traps save and returns restore. */
  datatype Control = Control(mstatus: Word, sepc: Word, mepc: Word, mode: Mode, pc: Word)

  function View(h: Hart): Control {
    Control(h.c.mstatus, h.c.sepc, h.c.mepc, h.mode, h.p.pc)
  }

  function TrapS(k: Control, epc: Word, target: Word): Control {
    Control(EnterS(k.mstatus, k.mode), epc, k.mepc, ModeS, target)
  }

  function TrapM(k: Control, epc: Word, target: Word): Control {
    Control(EnterM(k.mstatus, k.mode), k.sepc, epc, ModeM, target)
  }

  function ReturnS(k: Control): Control {
    Control(SretStatus(k.mstatus), k.sepc, k.mepc, if Bit(k.mstatus, SPP) then ModeS else ModeU, k.sepc)
  }

  function ReturnM(k: Control): Control {
    Control(MretStatus(k.mstatus), k.sepc, k.mepc, Mpp(k.mstatus), k.mepc)
  }

  datatype Where = Outside | InHandlerS | InHandlerM

  predicate SupervisorStack(i: nat) { i == SPP || i == SPIE }
  predicate MachineStack(i: nat) { i == MPP_LO || i == MPP_HI || i == MPIE }

  /** b resumes a: same mode, and mstatus differs at most in stacked fields --
      inside a supervisor handler only in the machine ones, inside a machine
      handler not at all. */
  ghost predicate Resumes(a: Control, b: Control, at: Where) {
    && b.mode == a.mode
    && (forall i: nat :: !MachineStack(i) && !SupervisorStack(i) ==> Bit(b.mstatus, i) == Bit(a.mstatus, i))
    && (!at.Outside? ==> b.sepc == a.sepc && forall i: nat :: SupervisorStack(i) ==> Bit(b.mstatus, i) == Bit(a.mstatus, i))
    && (at.InHandlerM? ==> b.mepc == a.mepc && forall i: nat :: MachineStack(i) ==> Bit(b.mstatus, i) == Bit(a.mstatus, i))
  }

  lemma MretBits(mstatus: Word)
    ensures var after := MretStatus(mstatus);
            && Bit(after, MIE) == Bit(mstatus, MPIE) && Bit(after, MPIE) && Mpp(after) == ModeU
            && forall i: nat :: i != MIE && !MachineStack(i) ==> Bit(after, i) == Bit(mstatus, i)
  {
    var s := SetBit(SetBit(mstatus, MIE, Bit(mstatus, MPIE)), MPIE, true);
    SetMppBits(s, ModeU);
    hide SetMpp, Put;
  }

  lemma SretBits(mstatus: Word)
    ensures var after := SretStatus(mstatus);
            && Bit(after, SIE) == Bit(mstatus, SPIE) && Bit(after, SPIE) && !Bit(after, SPP)
            && forall i: nat :: i != SIE && !SupervisorStack(i) ==> Bit(after, i) == Bit(mstatus, i)
  {
    hide Put;
  }

  /** A machine bracket around a handler that restores what it changes resumes
      the interrupted code, pc included, and leaves the supervisor's stacked
      fields as they were. */
  lemma MachineBracket(k: Control, epc: Word, target: Word, last: Control)
    requires Resumes(TrapM(k, epc, target), last, InHandlerM)
    ensures var after := ReturnM(last);
            && after.pc == epc && Resumes(k, after, InHandlerS)
  {
    hide EnterM, MretStatus, Mpp, Bit;
    var entry := EnterM(k.mstatus, k.mode);
    EntryMBits(k.mstatus, k.mode);
    MretBits(last.mstatus);
    assert MachineStack(MPP_LO) && MachineStack(MPP_HI) && MachineStack(MPIE);
    MppFromBits(last.mstatus, entry);
    forall i: nat | !MachineStack(i) ensures Bit(MretStatus(last.mstatus), i) == Bit(k.mstatus, i) {
      if i == MIE {
        assert Bit(last.mstatus, MPIE) == Bit(entry, MPIE);
      } else {
        assert Bit(last.mstatus, i) == Bit(entry, i);
      }
    }
  }

  lemma MppFromBits(a: Word, b: Word)
    requires Bit(a, MPP_LO) == Bit(b, MPP_LO) && Bit(a, MPP_HI) == Bit(b, MPP_HI)
    ensures Mpp(a) == Mpp(b)
  {
    hide Bit;
  }

  /** A supervisor bracket around a handler that may take machine traps resumes
      the interrupted code, pc included. */
  lemma SupervisorBracket(k: Control, epc: Word, target: Word, last: Control)
    requires k.mode.ModeU? || k.mode.ModeS?
    requires Resumes(TrapS(k, epc, target), last, InHandlerS)
    ensures var after := ReturnS(last);
            && after.pc == epc && Resumes(k, after, Outside)
  {
    EntrySBits(k.mstatus, k.mode);
    SretBits(last.mstatus);
    hide EnterS, SretStatus, Bit;
  }

  lemma ResumesTransitive(a: Control, b: Control, c: Control, at: Where)
    requires Resumes(a, b, at) && Resumes(b, c, at)
    ensures Resumes(a, c, at)
  {
    hide Bit;
  }

  // ----- the machine's own steps are these moves -----

  /** The control state between the instruction and the trap of a step. */
  function AfterInstruction(h: Hart, decode: Decoder): Control {
    var mid := FetchAndExec(Cleared(h), decode);
    Control(mid.c.mstatus, mid.c.sepc, mid.c.mepc, mid.mode, mid.p.dnpc)
  }

  predicate WritesControl(i: Instr) {
    i.CsrOp? && (i.idx == 0x300 || i.idx == 0x100 || i.idx == 0x141 || i.idx == 0x341)
  }

  lemma OtherCsrsKeepControl(c: Csrs, idx: nat, w: Word)
    requires idx != 0x300 && idx != 0x100 && idx != 0x141 && idx != 0x341
    ensures var after := CsrWritten(c, idx, w);
            after.mstatus == c.mstatus && after.sepc == c.sepc && after.mepc == c.mepc
  {
    hide Merge;
  }

  lemma InstructionMoves(h: Hart, decode: Decoder)
    ensures var k := AfterInstruction(h, decode);
            var i := Executed(h, decode);
            if !FetchFaults(h) && i.Mret? then k == ReturnM(View(h))
            else if !FetchFaults(h) && i.Sret? then k == ReturnS(View(h))
            else if FetchFaults(h) || !WritesControl(i) then k == View(h).(pc := k.pc)
            else k.mode == h.mode
  {
    InstructionControl(h, decode);
    var i := Executed(h, decode);
    if i.CsrOp? && !WritesControl(i) && Legal(h.c, h.mode, i.idx) {
      OtherCsrsKeepControl(h.c, i.idx, NewCsr(i.kind, CsrValue(h.c, i.idx).value, h.gpr[i.rs1], i.rs1));
    }
    hide FetchAndExec, CsrWritten, CsrValue, NewCsr, FetchFaults, Executed, Mpp, MretStatus, SretStatus, Bit, Legal;
  }

  /** Every step is one of the moves above -- an ordinary step, a return, or a
      write to the control CSRs -- followed by at most one trap entry. */
  lemma StepMoves(h: Hart, decode: Decoder, d: Inputs)
    ensures var k := AfterInstruction(h, decode);
            var mid := FetchAndExec(Cleared(h), decode);
            var after := View(Step(h, decode, d));
            match PendingTrap(mid, h.p.pc, d)
            case Nothing => after == k
            case Pending(no, epc) =>
              after == if DelegatedToS(DeviceLines(mid.c, d), mid.mode, no) then TrapS(k, epc, after.pc)
                       else TrapM(k, epc, after.pc)
  {
    InstructionControl(h, decode);
    FinishShape(FetchAndExec(Cleared(h), decode), h.p.pc, d);
    hide FetchAndExec, FinishStep, DelegatedToS, EnterS, EnterM, Number, TrapPc, TrapValue, SetBit, QueryIntr, ControlAfter;
  }

  // ----- the stack of open traps -----

  /** An open trap: the level it was taken to and the state it interrupted, whose
      pc is the one saved in xepc. */
  datatype Frame = Frame(level: Mode, interrupted: Control)

  /** Trap entry for a frame (Resumes does not look at the pc of the handler). */
  function Entered(f: Frame): Control {
    if f.level.ModeS? then TrapS(f.interrupted, f.interrupted.pc, 0) else TrapM(f.interrupted, f.interrupted.pc, 0)
  }

  predicate Returns(h: Hart, decode: Decoder) {
    !FetchFaults(h) && (Executed(h, decode).Mret? || Executed(h, decode).Sret?)
  }

  function PendingIn(h: Hart, decode: Decoder, d: Inputs): Pending {
    PendingTrap(FetchAndExec(Cleared(h), decode), h.p.pc, d)
  }

  /** The level that a trap of this step is taken to. */
  function LevelOf(h: Hart, decode: Decoder, d: Inputs, no: TrapNo): Mode {
    var mid := FetchAndExec(Cleared(h), decode);
    if DelegatedToS(DeviceLines(mid.c, d), mid.mode, no) then ModeS else ModeM
  }

  /** A return closes the last open trap, if there is one. */
  function AfterReturn(h: Hart, decode: Decoder, stack: seq<Frame>): seq<Frame> {
    if Returns(h, decode) && stack != [] then stack[..|stack| - 1] else stack
  }

  function NextStack(h: Hart, decode: Decoder, d: Inputs, stack: seq<Frame>): seq<Frame> {
    match PendingIn(h, decode, d)
    case Nothing => AfterReturn(h, decode, stack)
    case Pending(no, epc) =>
      AfterReturn(h, decode, stack) + [Frame(LevelOf(h, decode, d, no), AfterInstruction(h, decode).(pc := epc))]
  }

  /** The traps that are open after n steps. */
  function Stack(h: Hart, decode: Decoder, inputs: nat -> Inputs, n: nat): seq<Frame>
    decreases n
  {
    if n == 0 then []
    else NextStack(Run(h, decode, inputs, n - 1), decode, inputs(n - 1), Stack(h, decode, inputs, n - 1))
  }

  /** What is asked of handlers in one step: inside a handler no instruction
      writes mstatus, sstatus, sepc or mepc, and a return is the one of the last
      open trap; supervisor traps are not taken inside handlers, and machine traps
      not inside machine handlers.  Outside handlers anything goes. */
  predicate Disciplined(h: Hart, decode: Decoder, d: Inputs, stack: seq<Frame>) {
    var i := Executed(h, decode);
    && (stack != [] && !FetchFaults(h) ==>
          && !WritesControl(i)
          && (i.Mret? ==> stack[|stack| - 1].level.ModeM?)
          && (i.Sret? ==> stack[|stack| - 1].level.ModeS?))
    && match PendingIn(h, decode, d)
       case Nothing => true
       case Pending(no, _) =>
         var open := AfterReturn(h, decode, stack);
         if LevelOf(h, decode, d, no).ModeS? then open == [] && !AfterInstruction(h, decode).mode.ModeH?
         else open == [] || (|open| == 1 && open[0].level.ModeS?)
  }

  ghost predicate DisciplinedRun(h: Hart, decode: Decoder, inputs: nat -> Inputs, n: nat) {
    forall k: nat :: k < n ==> Disciplined(Run(h, decode, inputs, k), decode, inputs(k), Stack(h, decode, inputs, k))
  }

  /** The state resumes the entry of the last open trap, whose interrupted state
      resumes the entry of the trap before it. */
  ghost predicate Stacked(k: Control, stack: seq<Frame>)
    decreases |stack|
  {
    stack == [] ||
    var f := stack[|stack| - 1];
    match f.level
    case ModeS =>
      |stack| == 1 && (f.interrupted.mode.ModeU? || f.interrupted.mode.ModeS?) && Resumes(Entered(f), k, InHandlerS)
    case ModeM =>
      && Resumes(Entered(f), k, InHandlerM)
      && (|stack| == 1 || (|stack| == 2 && stack[0].level.ModeS? && Stacked(f.interrupted, stack[..1])))
    case _ => false
  }

  /** What the return from a trap gives back. */
  ghost predicate ResumesTrap(f: Frame, after: Control) {
    && after.pc == f.interrupted.pc
    && Resumes(f.interrupted, after, if f.level.ModeS? then Outside else InHandlerS)
  }

  lemma ReturnUnstacks(k: Control, stack: seq<Frame>)
    requires Stacked(k, stack) && stack != []
    ensures var f := stack[|stack| - 1];
            var after := if f.level.ModeS? then ReturnS(k) else ReturnM(k);
            ResumesTrap(f, after) && Stacked(after, stack[..|stack| - 1])
  {
    hide Resumes, ReturnS, ReturnM, TrapS, TrapM;
    var f := stack[|stack| - 1];
    if f.level.ModeS? {
      SupervisorBracket(f.interrupted, f.interrupted.pc, 0, k);
    } else {
      MachineBracket(f.interrupted, f.interrupted.pc, 0, k);
      if |stack| == 2 {
        ResumesTransitive(Entered(stack[0]), f.interrupted, ReturnM(k), InHandlerS);
        assert stack[..1][0] == stack[0];
      }
    }
  }

  lemma OrdinaryStaysStacked(k: Control, pc: Word, stack: seq<Frame>)
    requires Stacked(k, stack)
    ensures Stacked(k.(pc := pc), stack)
  {
    hide Bit, Entered;
  }

  lemma TrapStacks(k: Control, stack: seq<Frame>, level: Mode, epc: Word, target: Word)
    requires Stacked(k, stack)
    requires level.ModeS? ==> stack == [] && (k.mode.ModeU? || k.mode.ModeS?)
    requires !level.ModeS? ==> level.ModeM? && (stack == [] || (|stack| == 1 && stack[0].level.ModeS?))
    ensures Stacked(if level.ModeS? then TrapS(k, epc, target) else TrapM(k, epc, target), stack + [Frame(level, k.(pc := epc))])
  {
    hide Bit, EnterS, EnterM;
    OrdinaryStaysStacked(k, epc, stack);
    assert (stack + [Frame(level, k.(pc := epc))])[..|stack|] == stack;
  }

  /** The instruction part of a disciplined step. */
  lemma InstructionStacked(h: Hart, decode: Decoder, d: Inputs, stack: seq<Frame>)
    requires Stacked(View(h), stack) && Disciplined(h, decode, d, stack)
    ensures Stacked(AfterInstruction(h, decode), AfterReturn(h, decode, stack))
    ensures Returns(h, decode) && stack != [] ==> ResumesTrap(stack[|stack| - 1], AfterInstruction(h, decode))
  {
    InstructionMoves(h, decode);
    hide FetchFaults, Executed, AfterInstruction, Stacked, ResumesTrap, ReturnS, ReturnM, PendingIn, LevelOf, WritesControl;
    if stack == [] {
      NothingStacked(AfterInstruction(h, decode));
    } else if Returns(h, decode) {
      StackedLevels(View(h), stack);
      ReturnUnstacks(View(h), stack);
    } else {
      OrdinaryStaysStacked(View(h), AfterInstruction(h, decode).pc, stack);
    }
  }

  lemma NothingStacked(k: Control)
    ensures Stacked(k, [])
  {}

  lemma StackedLevels(k: Control, stack: seq<Frame>)
    requires Stacked(k, stack) && stack != []
    ensures stack[|stack| - 1].level.ModeS? || stack[|stack| - 1].level.ModeM?
  {
    hide Resumes;
  }

  /** A disciplined step keeps the control state consistent with the open traps. */
  lemma StepStacked(h: Hart, decode: Decoder, d: Inputs, stack: seq<Frame>)
    requires Stacked(View(h), stack) && Disciplined(h, decode, d, stack)
    ensures Stacked(View(Step(h, decode, d)), NextStack(h, decode, d, stack))
  {
    hide Stacked, Step, AfterReturn, TrapS, TrapM, PendingTrap, FetchAndExec, DelegatedToS, DeviceLines,
         AfterInstruction, FetchFaults, Executed, WritesControl, ResumesTrap, Returns, View;
    InstructionStacked(h, decode, d, stack);
    StepMoves(h, decode, d);
    match PendingIn(h, decode, d) {
      case Nothing =>
      case Pending(no, epc) =>
        var k := AfterInstruction(h, decode);
        var level := LevelOf(h, decode, d, no);
        LevelBelowMachine(h, decode, d, no);
        TrapStacks(k, AfterReturn(h, decode, stack), level, epc, View(Step(h, decode, d)).pc);
    }
  }

  lemma LevelBelowMachine(h: Hart, decode: Decoder, d: Inputs, no: TrapNo)
    ensures LevelOf(h, decode, d, no).ModeS? ==> !AfterInstruction(h, decode).mode.ModeM?
  {
    hide FetchAndExec, Bit;
  }

  lemma DisciplinedAt(h: Hart, decode: Decoder, inputs: nat -> Inputs, k: nat, n: nat)
    requires k < n && DisciplinedRun(h, decode, inputs, n)
    ensures DisciplinedRun(h, decode, inputs, k)
    ensures Disciplined(Run(h, decode, inputs, k), decode, inputs(k), Stack(h, decode, inputs, k))
  {
    hide Disciplined, Run, Stack;
  }

  lemma FirstState(h: Hart, decode: Decoder, inputs: nat -> Inputs)
    ensures Run(h, decode, inputs, 0) == h && Stack(h, decode, inputs, 0) == []
  {}

  lemma NextState(h: Hart, decode: Decoder, inputs: nat -> Inputs, n: nat)
    ensures Run(h, decode, inputs, n + 1) == Step(Run(h, decode, inputs, n), decode, inputs(n))
    ensures Stack(h, decode, inputs, n + 1)
            == NextStack(Run(h, decode, inputs, n), decode, inputs(n), Stack(h, decode, inputs, n))
  {
    hide Step, NextStack;
  }

  /** In every run of disciplined handlers the control state is consistent with
      the traps that are open. */
  lemma {:induction false} RunsStayStacked(h: Hart, decode: Decoder, inputs: nat -> Inputs, n: nat)
    requires DisciplinedRun(h, decode, inputs, n)
    ensures Stacked(View(Run(h, decode, inputs, n)), Stack(h, decode, inputs, n))
    decreases n
  {
    hide *;
    if n == 0 {
      FirstState(h, decode, inputs);
      NothingStacked(View(h));
    } else {
      DisciplinedAt(h, decode, inputs, n - 1, n);
      RunsStayStacked(h, decode, inputs, n - 1);
      StepStacked(Run(h, decode, inputs, n - 1), decode, inputs(n - 1), Stack(h, decode, inputs, n - 1));
      NextState(h, decode, inputs, n - 1);
    }
  }

  /** Every mret and sret inside a handler resumes the trap it matches: the pc
      saved there, the mode, both interrupt enables and every other bit of mstatus
      that is not stacked; an mret also leaves the supervisor's saved state and
      stacked fields as the trap found them. */
  lemma EachReturnResumesItsTrap(h: Hart, decode: Decoder, inputs: nat -> Inputs, n: nat)
    requires DisciplinedRun(h, decode, inputs, n + 1)
    requires Returns(Run(h, decode, inputs, n), decode) && Stack(h, decode, inputs, n) != []
    ensures var stack := Stack(h, decode, inputs, n);
            var f := stack[|stack| - 1];
            var after := AfterInstruction(Run(h, decode, inputs, n), decode);
            && after.pc == f.interrupted.pc && after.mode == f.interrupted.mode
            && (forall i: nat :: !MachineStack(i) && !SupervisorStack(i) ==> Bit(after.mstatus, i) == Bit(f.interrupted.mstatus, i))
            && (Executed(Run(h, decode, inputs, n), decode).Mret? ==>
                  && f.level.ModeM? && after.sepc == f.interrupted.sepc
                  && forall i: nat :: SupervisorStack(i) ==> Bit(after.mstatus, i) == Bit(f.interrupted.mstatus, i))
            && (Executed(Run(h, decode, inputs, n), decode).Sret? ==> f.level.ModeS?)
  {
    hide Stacked, AfterInstruction, Bit, MachineStack, SupervisorStack, Run, Stack, DisciplinedRun,
         PendingIn, LevelOf, FetchFaults, Executed, WritesControl;
    DisciplinedAt(h, decode, inputs, n, n + 1);
    RunsStayStacked(h, decode, inputs, n);
    InstructionStacked(Run(h, decode, inputs, n), decode, inputs(n), Stack(h, decode, inputs, n));
  }

  lemma StepEntersFrame(h: Hart, decode: Decoder, d: Inputs, stack: seq<Frame>)
    requires PendingIn(h, decode, d).Pending?
    ensures var open := NextStack(h, decode, d, stack);
            var f, after := open[|open| - 1], View(Step(h, decode, d));
            after == if f.level.ModeS? then TrapS(f.interrupted, f.interrupted.pc, after.pc)
                     else TrapM(f.interrupted, f.interrupted.pc, after.pc)
  {
    StepMoves(h, decode, d);
    hide Step, AfterReturn, FetchAndExec, PendingTrap, DelegatedToS, DeviceLines, EnterS, EnterM, View;
  }

  /** The frame that a trap opens holds the state from which the trap registers
      were filled. */
  lemma FrameIsTrapEntry(h: Hart, decode: Decoder, inputs: nat -> Inputs, n: nat)
    requires PendingIn(Run(h, decode, inputs, n), decode, inputs(n)).Pending?
    ensures var stack := Stack(h, decode, inputs, n + 1);
            var after := View(Run(h, decode, inputs, n + 1));
            && stack != []
            && var f := stack[|stack| - 1];
            if f.level.ModeS? then after == TrapS(f.interrupted, f.interrupted.pc, after.pc)
            else after == TrapM(f.interrupted, f.interrupted.pc, after.pc)
  {
    hide Run, Stack, Step, AfterReturn, AfterInstruction, FetchAndExec, PendingTrap, DelegatedToS, DeviceLines, TrapS, TrapM;
    NextState(h, decode, inputs, n);
    StepEntersFrame(Run(h, decode, inputs, n), decode, inputs(n), Stack(h, decode, inputs, n));
  }
}
