// The LR/SC reservation as a property of the whole history.
module LrSc {
  import opened Bits
  import opened HartState
  import opened Paddr
  import opened Vaddr
  import opened Csr
  import opened Intr
  import opened Inst
  import opened CpuExec
  import opened Precise
  import opened StepShape

  /** What a step means for the reservation. */
  datatype Event = Other | LrDone(pa: nat, wide: bool) | ScDone(pa: nat, wide: bool)

  /** Where an LR or SC goes in state h; both count as AMOs for the fault cause. */
  function AtomicTarget(h: Hart, va: Word, t: MemType): Access {
    Resolve(h.MmuEnv(), h.x.(isExcept := false, amo := true), va, t)
  }

  function EventIn(h: Hart, i: Instr): Event {
    match i
    case Lr(_, rs1, wide) =>
      if AtomicTarget(h, h.gpr[rs1], Read).At? then LrDone(AtomicTarget(h, h.gpr[rs1], Read).pa, wide) else Other
    case Sc(_, rs1, _, wide) =>
      if AtomicTarget(h, h.gpr[rs1], Write).At? then ScDone(AtomicTarget(h, h.gpr[rs1], Write).pa, wide) else Other
    case _ => Other
  }

  function EventOf(h: Hart, decode: Decoder): Event {
    if FetchFaults(h) then Other else EventIn(h, Executed(h, decode))
  }

  datatype Held = Free | Reserved(pa: nat, wide: bool)

  function Next(held: Held, e: Event): Held {
    match e
    case Other => held
    case LrDone(pa, wide) => Reserved(pa, wide)
    case ScDone(_, _) => Free
  }

  /** The most recent non-faulting LR or SC among the first n steps, if it was an LR. */
  function History(h: Hart, decode: Decoder, inputs: nat -> Inputs, n: nat): Held
    decreases n
  {
    if n == 0 then Free
    else Next(History(h, decode, inputs, n - 1), EventOf(Run(h, decode, inputs, n - 1), decode))
  }

  predicate Represents(res: Reservation, held: Held) {
    match held
    case Free => res.flag != 0xff && res.flag != 0xf
    case Reserved(pa, wide) => res == Reservation(pa, FlagOf(wide))
  }

  // ----- one instruction -----

  lemma LrScAreEvents(h: Hart, i: Instr, held: Held)
    requires (i.Lr? || i.Sc?) && !h.x.isExcept && Represents(h.res, held)
    ensures Represents((if i.Lr? then ExecLr(h, i) else ExecSc(h, i)).res, Next(held, EventIn(h, i)))
  {
    assert h.x.(isExcept := false, amo := true) == h.x.(amo := true);
    hide Resolve, PRead, PWrite, SignExtend;
  }

  lemma BodyReservation(h: Hart, pc: Word, i: Instr, word: Word, held: Held)
    requires !h.x.isExcept && Represents(h.res, held)
    ensures Represents(ExecBody(h, pc, i, word).res, Next(held, EventIn(h, i)))
  {
    if i.Lr? || i.Sc? {
      LrScAreEvents(h, i, held);
    }
    hide ExecLr, ExecSc, VRead, VWrite, CsrWritten, Legal, CsrValue, NewCsr, MretStatus, SretStatus, Mpp, Bit, Wrap,
         SignExtend, ZeroExtend, AmoStored, Resolve;
  }

  lemma InstructionReservation(h: Hart, decode: Decoder, held: Held)
    requires Represents(h.res, held)
    ensures Represents(FetchAndExec(Cleared(h), decode).res, Next(held, EventOf(h, decode)))
  {
    var h0 := Cleared(h);
    assert h0.MmuEnv() == h.MmuEnv() && h0.p == h.p;
    if !FetchFaults(h) {
      NoFetchFault(h.MmuEnv(), h0.x, h.p.pc);
      var h1 := h0.(p := h0.p.(dnpc := Wrap(h.p.pc + 4)));
      assert h1.MmuEnv() == h.MmuEnv();
      BodyReservation(h1, h.p.pc, Executed(h, decode), FetchedWord(h0), held);
      assert h1.x.(isExcept := false, amo := true) == h.x.(isExcept := false, amo := true);
      assert EventIn(h1, Executed(h, decode)) == EventIn(h, Executed(h, decode));
    }
    hide VFetch, ExecBody, Represents, EventIn, Next;
  }

  // ----- runs -----

  /** The reservation registers always hold exactly what the history says. */
  lemma {:induction false} ReservationIsHistory(h: Hart, decode: Decoder, inputs: nat -> Inputs, n: nat)
    requires Represents(h.res, Free)
    ensures Represents(Run(h, decode, inputs, n).res, History(h, decode, inputs, n))
    decreases n
  {
    hide FetchAndExec, FinishStep, Represents, Next, EventOf, Trap, QueryIntr;
    if n > 0 {
      ReservationIsHistory(h, decode, inputs, n - 1);
      var before := Run(h, decode, inputs, n - 1);
      InstructionReservation(before, decode, History(h, decode, inputs, n - 1));
      InstructionControl(before, decode);
      FinishShape(FetchAndExec(Cleared(before), decode), before.p.pc, inputs(n - 1));
    }
  }

  /** The effect of a non-faulting SC on registers and memory. */
  lemma ScEffect(h: Hart, i: Instr)
    requires i.Sc? && !h.x.isExcept && EventIn(h, i).ScDone?
    ensures var after := ExecSc(h, i);
            var pa := EventIn(h, i).pa;
            if h.res == Reservation(pa, FlagOf(i.wide)) then
              after.bus == PWrite(h.bus, pa, Width(i.wide), h.gpr[i.rs2]) && after.gpr == h.gpr[i.rd := 0]
            else after.bus == h.bus && after.gpr == h.gpr[i.rd := 1]
  {
    assert h.x.(isExcept := false, amo := true) == h.x.(amo := true);
    hide Resolve, PWrite;
  }

  lemma RepresentsReserved(res: Reservation, held: Held, pa: nat, wide: bool)
    requires Represents(res, held)
    ensures res == Reservation(pa, FlagOf(wide)) <==> held == Reserved(pa, wide)
  {}

  lemma ScStep(h: Hart, decode: Decoder, d: Inputs)
    requires EventOf(h, decode).ScDone?
    ensures var i := Executed(h, decode);
            var pa := EventOf(h, decode).pa;
            var after := Step(h, decode, d);
            && i.Sc? && !FetchFaults(h)
            && (if h.res == Reservation(pa, FlagOf(i.wide)) then
                  after.bus == PWrite(h.bus, pa, Width(i.wide), h.gpr[i.rs2]) && after.gpr == h.gpr[i.rd := 0][0 := 0]
                else after.bus == h.bus && after.gpr == h.gpr[i.rd := 1][0 := 0])
  {
    var h0 := Cleared(h);
    assert h0.MmuEnv() == h.MmuEnv() && h0.p == h.p;
    NoFetchFault(h.MmuEnv(), h0.x, h.p.pc);
    var h1 := h0.(p := h0.p.(dnpc := Wrap(h.p.pc + 4)));
    assert h1.MmuEnv() == h.MmuEnv();
    assert h1.x.(isExcept := false, amo := true) == h.x.(isExcept := false, amo := true);
    ScEffect(h1, Executed(h, decode));
    InstructionControl(h, decode);
    FinishShape(FetchAndExec(h0, decode), h.p.pc, d);
    hide VFetch, ExecSc, FinishStep, PWrite, Resolve, Trap, QueryIntr, DeviceLines, ControlAfter, Wrap;
  }

  /** A non-faulting SC stores and returns 0 exactly when the most recent
      non-faulting LR or SC was an LR of the same width at the same physical
      address; otherwise it returns 1 and changes no memory. */
  lemma ScSucceedsExactlyWhenReserved(h: Hart, decode: Decoder, inputs: nat -> Inputs, n: nat)
    requires Represents(h.res, Free) && EventOf(Run(h, decode, inputs, n), decode).ScDone?
    ensures var before, after := Run(h, decode, inputs, n), Run(h, decode, inputs, n + 1);
            var i := Executed(before, decode);
            var pa := EventOf(before, decode).pa;
            && i.Sc?
            && if History(h, decode, inputs, n) == Reserved(pa, i.wide) then
                 after.bus == PWrite(before.bus, pa, Width(i.wide), before.gpr[i.rs2])
                 && after.gpr == before.gpr[i.rd := 0][0 := 0]
               else after.bus == before.bus && after.gpr == before.gpr[i.rd := 1][0 := 0]
  {
    var before := Run(h, decode, inputs, n);
    ReservationIsHistory(h, decode, inputs, n);
    ScStep(before, decode, inputs(n));
    RepresentsReserved(before.res, History(h, decode, inputs, n), EventOf(before, decode).pa, Executed(before, decode).wide);
    assert Run(h, decode, inputs, n + 1) == Step(before, decode, inputs(n));
    hide *;
  }

  /** Each LR authorises at most one SC: between two steps that complete an SC, a
      reservation can only be held again if an LR completed in between. */
  lemma {:induction false} ReservationNeedsFreshLr(h: Hart, decode: Decoder, inputs: nat -> Inputs, j: nat, k: nat)
    requires j < k && EventOf(Run(h, decode, inputs, j), decode).ScDone? && History(h, decode, inputs, k).Reserved?
    ensures exists m :: j < m < k && EventOf(Run(h, decode, inputs, m), decode).LrDone?
    decreases k
  {
    hide Run, EventOf;
    if j < k - 1 && !EventOf(Run(h, decode, inputs, k - 1), decode).LrDone? {
      ReservationNeedsFreshLr(h, decode, inputs, j, k - 1);
    }
  }
}
