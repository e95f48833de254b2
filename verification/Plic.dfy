// plic.c: the interrupt controller.  The arbitration loop against a declarative
// choice of the source to claim.
module Plic {
  import opened Bits
  import opened HartState
  import CpuExec

  const SOURCES: nat := 31

  /** The least candidate of maximal nonzero priority, or source 0 when no
      candidate has a nonzero priority; best is that maximum, or 0. */
  ghost predicate IsClaim(candidates: Word, priority: seq<nat>, claim: nat, best: nat)
    requires |priority| == SOURCES
  {
    && (forall i: nat :: i < SOURCES && Bit(candidates, i) ==> priority[i] <= best)
    && (if best == 0 then claim == 0
        else && claim < SOURCES && Bit(candidates, claim) && priority[claim] == best
             && forall i: nat :: i < claim && Bit(candidates, i) ==> priority[i] < best)
  }

  /** There is only one such claim. */
  lemma ClaimIsUnique(candidates: Word, priority: seq<nat>, c1: nat, b1: nat, c2: nat, b2: nat)
    requires |priority| == SOURCES
    requires IsClaim(candidates, priority, c1, b1) && IsClaim(candidates, priority, c2, b2)
    ensures c1 == c2 && b1 == b2
  {
    hide Bit;
    assert b1 > 0 ==> priority[c1] <= b2;
    assert b2 > 0 ==> priority[c2] <= b1;
  }

  lemma SourceOne(i: nat)
    ensures Bit(2, i) <==> i == 1
    ensures !Bit(0, i)
  {
    assert Pow2(1) == 2;
    BitOfPow2(1, i);
  }

  /** serial.c: the status bits behind the interrupt line. */
  class Serial {
    var txFifoEmpty: bool
    var rxFifoValid: bool
    var intrEnable: bool

    /** serail_update, with whether the pipe has a character to read.  The line
        raises source 1 or nothing: when a character was written since the last
        update, or when one is waiting and receive interrupts are enabled. */
    method Update(available: bool) returns (external: Word)
      modifies this
      ensures forall i: nat :: Bit(external, i) <==>
                i == 1 && (!old(txFifoEmpty) || (intrEnable && (old(rxFifoValid) || available)))
      ensures txFifoEmpty && rxFifoValid == (old(rxFifoValid) || available) && intrEnable == old(intrEnable)
    {
      var external2: Word := 0;
      if !txFifoEmpty {
        txFifoEmpty := true;
        external2 := 2;
      }
      if !rxFifoValid && available {
        rxFifoValid := true;
      }
      external := if intrEnable && rxFifoValid then 2 else 0;
      external := Bitwise(OR, external, external2);
      forall i: nat ensures (Bit(2, i) <==> i == 1) && !Bit(0, i) { SourceOne(i); }
      hide Bit;
    }
  }

  class Controller {
    const priority: array<nat>
    var pending: Word
    var enables: Word
    var threshold: nat
    var claim: nat

    /** No source beyond the priority table is pending, so arbitration never
        reads past its end. */
    ghost predicate Valid()
      reads this
    {
      priority.Length == SOURCES && forall i: nat :: i >= SOURCES ==> !Bit(pending, i)
    }

    /** Only the serial line, source 1, is ever pending. */
    ghost predicate OnlySerial()
      reads this
    {
      forall i: nat :: Bit(pending, i) ==> i == 1
    }

    ghost function Candidates(): Word
      reads this
    {
      Bitwise(AND, pending, enables)
    }

    constructor ()
      ensures Valid() && OnlySerial() && fresh(priority) && priority.Length == 31
      ensures pending == enables == threshold == claim == 0 && forall i :: 0 <= i < SOURCES ==> priority[i] == 0
    {
      priority := new nat[SOURCES](_ => 0);
      pending, enables, threshold, claim := 0, 0, 0, 0;
    }

    /** plic_update with the serial line at `external`: afterwards the claim
        register holds the arbitration's result and mip.seip tells whether its
        priority exceeds the threshold. */
    method Update(external: Word, cpu: Cpu)
      requires Valid() && forall i: nat :: i >= SOURCES ==> !Bit(external, i)
      modifies this`pending, this`claim, cpu`c
      ensures Valid() && enables == old(enables) && threshold == old(threshold)
      ensures forall i: nat :: Bit(pending, i) <==> old(Bit(pending, i)) || Bit(external, i)
      ensures old(OnlySerial()) && (forall i: nat :: Bit(external, i) ==> i == 1) ==> OnlySerial()
      ensures exists best: nat :: IsClaim(Candidates(), priority[..], claim, best)
                && cpu.c == old(cpu.c).(mip := SetBit(old(cpu.c.mip), CpuExec.SEIP, best > threshold))
    {
      hide Bit;
      pending := Bitwise(OR, pending, external);
      var candidates := Bitwise(AND, pending, enables);
      var maxId, maxPriority: nat := 0, 0;
      var i := 0;
      while i <= 31
        invariant 0 <= i <= 32
        invariant forall j: nat :: j < i && j < SOURCES && Bit(candidates, j) ==> priority[j] <= maxPriority
        invariant if maxPriority == 0 then maxId == 0
                  else && maxId < i && maxId < SOURCES && Bit(candidates, maxId) && priority[maxId] == maxPriority
                       && forall j: nat :: j < maxId && Bit(candidates, j) ==> priority[j] < maxPriority
      {
        if Bit(candidates, i) {
          if priority[i] > maxPriority {
            maxId, maxPriority := i, priority[i];
          }
        }
        i := i + 1;
      }
      claim := maxId;
      if maxPriority > threshold {
        cpu.c := cpu.c.(mip := SetBit(cpu.c.mip, CpuExec.SEIP, true));
      } else {
        cpu.c := cpu.c.(mip := SetBit(cpu.c.mip, CpuExec.SEIP, false));
      }
      assert IsClaim(Candidates(), priority[..], claim, maxPriority);
    }

    /** plic_write, away from the assertion at 0x1000 and from offset 0x7c, which
        indexes past the priority table. */
    method Write(offset: nat, wdata: nat)
      requires Valid() && offset != 0x1000 && offset != 0x7c && wdata < TWO32
      requires offset == 0x201004 ==> wdata < 32
      modifies this, priority
      ensures Valid() && (old(OnlySerial()) ==> OnlySerial())
      ensures claim == old(claim)
      ensures priority[..] == if offset < 0x7c then old(priority[..])[offset / 4 := wdata] else old(priority[..])
      ensures enables == (if offset == 0x2080 then wdata else old(enables))
      ensures threshold == (if offset == 0x201000 then wdata else old(threshold))
      ensures forall i: nat :: Bit(pending, i) <==> old(Bit(pending, i)) && !(offset == 0x201004 && i == wdata)
    {
      hide Bit, Put;
      if offset <= 0x7c {
        priority[offset / 4] := wdata;
      }
      if offset == 0x2080 {
        enables := wdata;
      } else if offset == 0x201000 {
        threshold := wdata;
      } else if offset == 0x201004 {
        pending := SetBit(pending, wdata, false);
      }
    }

    /** plic_read: the registers, zero elsewhere. */
    method Read(offset: nat) returns (ret: nat)
      requires Valid() && offset != 0x7c
      ensures offset < 0x7c ==> ret == priority[offset / 4]
      ensures offset == 0x1000 ==> ret == pending
      ensures offset == 0x2080 ==> ret == enables
      ensures offset == 0x201000 ==> ret == threshold
      ensures offset == 0x201004 ==> ret == claim
      ensures offset > 0x7c && offset !in {0x1000, 0x2080, 0x201000, 0x201004} ==> ret == 0
    {
      ret := 0;
      if offset <= 0x7c {
        ret := priority[offset / 4];
      }
      match offset {
        case 0x1000 => ret := pending;
        case 0x2080 => ret := enables;
        case 0x201000 => ret := threshold;
        case 0x201004 => ret := claim;
        case _ =>
      }
    }
  }

  /** update_device, the serial line and then the controller: source 1 stays the
      only one that is ever pending, and becomes pending with the line. */
  method UpdateDevices(serial: Serial, plic: Controller, cpu: Cpu, available: bool)
    requires plic.Valid() && plic.OnlySerial()
    modifies serial, plic`pending, plic`claim, cpu`c
    ensures plic.Valid() && plic.OnlySerial()
    ensures Bit(plic.pending, 1) <==>
              old(Bit(plic.pending, 1)) || !old(serial.txFifoEmpty)
              || (serial.intrEnable && (old(serial.rxFifoValid) || available))
    ensures exists best: nat :: IsClaim(plic.Candidates(), plic.priority[..], plic.claim, best)
              && cpu.c == old(cpu.c).(mip := SetBit(old(cpu.c.mip), CpuExec.SEIP, best > plic.threshold))
  {
    hide Bit, SetBit;
    var external := serial.Update(available);
    plic.Update(external, cpu);
  }
}
