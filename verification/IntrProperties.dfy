// What trap entry and the interrupt choice guarantee.
module IntrProperties {
  import opened Bits
  import opened HartState
  import opened Intr

  // ----- choice and delivery -----

  lemma {:induction false} FirstReadyIsFirst(c: Csrs, mode: Mode, k: nat) returns (j: nat)
    requires k <= 9
    ensures k <= j <= 9 && forall i :: k <= i < j ==> !Ready(c, mode, PRIORITY[i])
    ensures if j == 9 then FirstReady(c, mode, k) == NoInterrupt
            else FirstReady(c, mode, k) == Take(PRIORITY[j]) && Ready(c, mode, PRIORITY[j])
    decreases 9 - k
  {
    hide Ready;
    if k < 9 && !Ready(c, mode, PRIORITY[k]) {
      j := FirstReadyIsFirst(c, mode, k + 1);
    } else {
      j := k;
    }
  }

  /** No interrupt is taken exactly when none is pending, enabled and globally
      enabled; otherwise the first such in priority order is. */
  lemma ChoiceIsFirstReady(c: Csrs, mode: Mode)
    ensures QueryIntr(c, mode).NoInterrupt? <==> forall j :: 0 <= j < 9 ==> !Ready(c, mode, PRIORITY[j])
    ensures QueryIntr(c, mode).Take? ==>
              exists j :: 0 <= j < 9 && PRIORITY[j] == QueryIntr(c, mode).irq && Ready(c, mode, PRIORITY[j])
                          && forall i :: 0 <= i < j ==> !Ready(c, mode, PRIORITY[i])
  {
    var j := FirstReadyIsFirst(c, mode, 0);
    hide Ready, FirstReady;
  }

  /** Privilege order. */
  function Rank(mode: Mode): nat {
    match mode case ModeU => 0 case ModeS => 1 case ModeH => 2 case ModeM => 3
  }

  /** Interrupts destined for S can be taken now. */
  predicate OpenS(mstatus: Word, mode: Mode) {
    mode.ModeU? || (mode.ModeS? && Bit(mstatus, SIE))
  }

  predicate OpenM(mstatus: Word, mode: Mode) {
    !mode.ModeM? || Bit(mstatus, MIE)
  }

  lemma ChosenIsReady(c: Csrs, mode: Mode)
    requires QueryIntr(c, mode).Take?
    ensures Ready(c, mode, QueryIntr(c, mode).irq) && QueryIntr(c, mode).irq < 16
  {
    ChoiceIsFirstReady(c, mode);
    hide QueryIntr, Ready;
  }

  /** The chosen interrupt is delivered to exactly the level whose enable rule
      admitted it, and never below the interrupted mode. */
  lemma DeliveryAgreesWithChoice(c: Csrs, mode: Mode, tval: Word, epc: Word)
    requires QueryIntr(c, mode).Take?
    ensures var irq := QueryIntr(c, mode).irq;
            var after := Trap(c, mode, tval, Interrupt(irq), epc);
            && after.mode == (if Bit(c.mideleg, irq) then ModeS else ModeM)
            && (after.mode.ModeS? ==> OpenS(c.mstatus, mode))
            && (after.mode.ModeM? ==> OpenM(c.mstatus, mode))
            && Rank(mode) <= Rank(after.mode)
  {
    ChosenIsReady(c, mode);
    var irq := QueryIntr(c, mode).irq;
    ReadyDelegation(c, mode, irq);
    TrapLevel(c, mode, tval, Interrupt(irq), epc);
    hide *;
  }

  lemma ReadyDelegation(c: Csrs, mode: Mode, irq: nat)
    requires Ready(c, mode, irq) && irq < 16
    ensures DelegatedToS(c, mode, Interrupt(irq)) == Bit(c.mideleg, irq)
    ensures Bit(c.mideleg, irq) ==> OpenS(c.mstatus, mode) && Rank(mode) <= Rank(ModeS)
    ensures !Bit(c.mideleg, irq) ==> OpenM(c.mstatus, mode)
    ensures Rank(mode) <= Rank(ModeM)
  {
    hide Bit;
  }

  lemma TrapLevel(c: Csrs, mode: Mode, tval: Word, no: TrapNo, epc: Word)
    ensures Trap(c, mode, tval, no, epc).mode == if DelegatedToS(c, mode, no) then ModeS else ModeM
  {
    hide DelegatedToS, EnterS, EnterM, Number, TrapPc, TrapValue;
  }

  // ----- trap entry stacks the interrupt enable -----

  lemma EntrySBits(mstatus: Word, mode: Mode)
    ensures var after := EnterS(mstatus, mode);
            && Bit(after, SPP) == LowBit(mode) && Bit(after, SPIE) == Bit(mstatus, SIE) && !Bit(after, SIE)
            && forall i: nat :: i != SPP && i != SPIE && i != SIE ==> Bit(after, i) == Bit(mstatus, i)
  {
    hide Put;
  }

  lemma EntryMBits(mstatus: Word, mode: Mode)
    ensures var after := EnterM(mstatus, mode);
            && Mpp(after) == mode && Bit(after, MPIE) == Bit(mstatus, MIE) && !Bit(after, MIE)
            && forall i: nat :: i != MPP_LO && i != MPP_HI && i != MPIE && i != MIE ==> Bit(after, i) == Bit(mstatus, i)
  {
    SetMppBits(mstatus, mode);
    hide SetMpp;
  }

  /** How many levels are open to interrupts. */
  function Room(c: Csrs, mode: Mode): nat {
    Digit(OpenS(c.mstatus, mode)) + Digit(OpenM(c.mstatus, mode))
  }

  /** No trap opens a level. */
  lemma TrapOpensNothing(c: Csrs, mode: Mode, tval: Word, no: TrapNo, epc: Word)
    ensures var after := Trap(c, mode, tval, no, epc);
            && (OpenS(after.c.mstatus, after.mode) ==> OpenS(c.mstatus, mode))
            && (OpenM(after.c.mstatus, after.mode) ==> OpenM(c.mstatus, mode))
            && (after.mode.ModeS? ==> !OpenS(after.c.mstatus, after.mode))
            && (after.mode.ModeM? ==> !OpenM(after.c.mstatus, after.mode))
  {
    EntrySBits(c.mstatus, mode);
    EntryMBits(c.mstatus, mode);
    hide EnterS, EnterM, Number, TrapPc, TrapValue;
  }

  /** Taking an interrupt closes the level it was delivered to, which was open. */
  lemma InterruptLosesRoom(c: Csrs, mode: Mode, tval: Word, epc: Word)
    requires QueryIntr(c, mode).Take?
    ensures var after := Trap(c, mode, tval, Interrupt(QueryIntr(c, mode).irq), epc);
            Room(after.c, after.mode) < Room(c, mode)
  {
    DeliveryAgreesWithChoice(c, mode, tval, epc);
    TrapOpensNothing(c, mode, tval, Interrupt(QueryIntr(c, mode).irq), epc);
    hide QueryIntr, Trap, OpenS, OpenM;
  }
}
