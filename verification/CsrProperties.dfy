// What CSR instructions can change: below machine mode only supervisor state,
// and never the reserved field of mstatus that leaks into satp.
module CsrProperties {
  import opened Bits
  import opened HartState
  import opened Csr
  import opened Inst
  import opened Mmu

  // ----- the masks, bit by bit -----

  predicate SstatusBit(i: nat) {
    i == 1 || i == 5 || i == 6 || i == 8 || i == 9 || i == 10 || i == 13 || i == 14 || i == 15 || i == 16
    || i == 18 || i == 19 || i == 63
  }

  /** The writable bits of mstatus. */
  predicate MstatusBit(i: nat) {
    i == 1 || i == 3 || 5 <= i <= 22 || i == 36 || i == 37 || i == 63
  }

  predicate SupervisorInterruptBit(i: nat) {
    i == 1 || i == 5 || i == 9
  }

  lemma LowFive(x: nat, v: nat, i: nat)
    requires x % 32 == v && i < 5
    ensures Bit(x, i) == Bit(v, i)
  {
    assert Pow2(5) == 32;
    BitMod(x, 5, i);
  }

  lemma FiveBits()
    ensures !Bit(2, 0) && Bit(2, 1) && !Bit(2, 2) && !Bit(2, 3) && !Bit(2, 4)
    ensures Bit(25, 0) && !Bit(25, 1) && !Bit(25, 2) && Bit(25, 3) && Bit(25, 4)
    ensures Bit(27, 0) && Bit(27, 1) && !Bit(27, 2) && Bit(27, 3) && Bit(27, 4)
  {}

  lemma Bit43(i: nat)
    ensures Bit(0x80000000000, i) <==> i == 43
  {
    hide Bit;
    assert Pow2(3) == 8 && Pow2(10) == 0x400;
    Pow2Sum(10, 10);
    Pow2Sum(20, 20);
    Pow2Sum(40, 3);
    BitOfPow2(43, i);
  }

  lemma MstatusMask(i: nat)
    ensures Bit(MSTATUS_WRITE, i) <==> MstatusBit(i)
  {
    hide Bit;
    if i < 5 {
      LowFive(0x80000030007fffea, 10, i);
      BitsOfTen();
    } else {
      BitShr(0x80000030007fffea, 5, i - 5);
      assert Shr(0x80000030007fffea, 5) == 0x40000018003ffff;
      if i < 23 {
        Pow2Of18();
        BitMod(0x40000018003ffff, 18, i - 5);
        BitOfOnes(18, i - 5);
      } else {
        MstatusMaskAbove(i);
      }
    }
  }

  lemma BitsOfTen()
    ensures !Bit(10, 0) && Bit(10, 1) && !Bit(10, 2) && Bit(10, 3) && !Bit(10, 4)
  {}

  lemma Pow2Of18()
    ensures Pow2(18) == 0x4_0000
  {
    assert Pow2(9) == 0x200;
    Pow2Sum(9, 9);
  }

  lemma MstatusMaskAbove(i: nat)
    requires i >= 23
    ensures Bit(0x40000018003ffff, i - 5) <==> i == 36 || i == 37 || i == 63
  {
    hide Bit, Shr;
    BitShr(0x40000018003ffff, 18, i - 23);
    MaskAbove23();
    ThreeBits(i - 23);
  }

  lemma MaskAbove23()
    ensures Shr(0x40000018003ffff, 18) == 0x10000006000
  {
    hide Shr, Pow2;
    Pow2Of18();
    ShrIsDiv(0x40000018003ffff, 18);
    assert 0x40000018003ffff / 0x4_0000 == 0x10000006000;
  }

  lemma ThreeBits(i: nat)
    ensures Bit(0x10000006000, i) <==> i == 13 || i == 14 || i == 40
  {
    hide Bit, Pow2, Logic;
    Pow2Of40();
    OrOfDisjoint(1, 40, 0x6000);
    LogicBit(OR, 0x10000000000, 0x6000, i);
    BitOfPow2(40, i);
    TwoBits(i);
  }

  lemma Pow2Of40()
    ensures Pow2(40) == 0x10000000000
  {
    assert Pow2(10) == 0x400;
    Pow2Sum(10, 10);
    Pow2Sum(20, 20);
  }

  lemma TwoBits(i: nat)
    ensures Bit(0x6000, i) <==> i == 13 || i == 14
  {
    hide Bit, Pow2, Logic;
    Pow2Of13();
    OrOfDisjoint(1, 14, 0x2000);
    LogicBit(OR, 0x4000, 0x2000, i);
    BitOfPow2(13, i);
    BitOfPow2(14, i);
  }

  lemma Pow2Of13()
    ensures Pow2(13) == 0x2000 && Pow2(14) == 0x4000
  {
    assert Pow2(7) == 0x80;
    Pow2Sum(7, 6);
    Pow2Sum(7, 7);
    assert Pow2(6) == 0x40;
  }

  lemma SstatusMask(i: nat)
    ensures Bit(SSTATUS_WRITE, i) <==> SstatusBit(i)
  {
    hide Bit;
    FiveBits();
    if i < 5 {
      LowFive(0x80000000000de762, 2, i);
    } else {
      BitShr(0x80000000000de762, 5, i - 5);
      assert Shr(0x80000000000de762, 5) == 0x400000000006f3b;
      if i < 10 {
        LowFive(0x400000000006f3b, 27, i - 5);
      } else {
        SstatusMaskAbove(i);
      }
    }
  }

  lemma SstatusMaskAbove(i: nat)
    requires i >= 10
    ensures Bit(0x400000000006f3b, i - 5) <==> SstatusBit(i)
  {
    hide Bit;
    FiveBits();
    BitShr(0x400000000006f3b, 5, i - 10);
    assert Shr(0x400000000006f3b, 5) == 0x20000000000379;
    if i < 15 {
      LowFive(0x20000000000379, 25, i - 10);
    } else {
      BitShr(0x20000000000379, 5, i - 15);
      assert Shr(0x20000000000379, 5) == 0x100000000001b;
      if i < 20 {
        LowFive(0x100000000001b, 27, i - 15);
      } else {
        BitShr(0x100000000001b, 5, i - 20);
        assert Shr(0x100000000001b, 5) == 0x80000000000;
        Bit43(i - 20);
      }
    }
  }

  lemma SupervisorInterruptMask(i: nat)
    ensures Bit(S_INTERRUPTS, i) <==> SupervisorInterruptBit(i)
  {
    if i < 10 {
      assert !Bit(0x222, 0) && Bit(0x222, 1) && !Bit(0x222, 2) && !Bit(0x222, 3) && !Bit(0x222, 4)
             && Bit(0x222, 5) && !Bit(0x222, 6) && !Bit(0x222, 7) && !Bit(0x222, 8) && Bit(0x222, 9);
    } else {
      BitShr(0x222, 10, i - 10);
      assert Shr(0x222, 10) == 0;
    }
  }

  lemma SstatusReadMask(i: nat)
    ensures Bit(SSTATUS_READ, i) <==> SstatusBit(i) || i == 32 || i == 33
  {
    hide Bit;
    FiveBits();
    if i < 5 {
      LowFive(0x80000003000de762, 2, i);
    } else {
      BitShr(0x80000003000de762, 5, i - 5);
      assert Shr(0x80000003000de762, 5) == 0x400000018006f3b;
      if i < 10 {
        LowFive(0x400000018006f3b, 27, i - 5);
      } else {
        BitShr(0x400000018006f3b, 5, i - 10);
        assert Shr(0x400000018006f3b, 5) == 0x20000000c00379;
        if i < 15 {
          LowFive(0x20000000c00379, 25, i - 10);
        } else {
          SstatusReadMaskAbove(i);
        }
      }
    }
  }

  lemma SstatusReadMaskAbove(i: nat)
    requires i >= 15
    ensures Bit(0x20000000c00379, i - 10) <==> SstatusBit(i) || i == 32 || i == 33
  {
    hide Bit;
    FiveBits();
    BitShr(0x20000000c00379, 5, i - 15);
    assert Shr(0x20000000c00379, 5) == 0x100000006001b;
    if i < 20 {
      LowFive(0x100000006001b, 27, i - 15);
    } else {
      BitShr(0x100000006001b, 5, i - 20);
      assert Shr(0x100000006001b, 5) == 0x80000003000;
      UxlAndSd(i - 20);
    }
  }

  lemma UxlAndSd(i: nat)
    ensures Bit(0x80000003000, i) <==> i == 12 || i == 13 || i == 43
  {
    hide Bit;
    if i < 12 {
      assert Pow2(12) == 0x1000;
      BitMod(0x80000003000, 12, i);
      BitOfZero(i);
    } else {
      BitShr(0x80000003000, 12, i - 12);
      assert Shr(0x80000003000, 12) == 0x80000003;
      if i < 14 {
        LowFive(0x80000003, 3, i - 12);
        TwoOnes();
      } else {
        BitShr(0x80000003, 2, i - 14);
        assert Shr(0x80000003, 2) == 0x20000000;
        Bit29(i - 14);
      }
    }
  }

  lemma Bit29(i: nat)
    ensures Bit(0x20000000, i) <==> i == 29
  {
    hide Bit;
    assert Pow2(9) == 0x200 && Pow2(10) == 0x400;
    Pow2Sum(10, 10);
    Pow2Sum(20, 9);
    BitOfPow2(29, i);
  }

  lemma TwoOnes()
    ensures Bit(3, 0) && Bit(3, 1)
  {}

  // ----- reading back -----

  /** The register behind a CSR number: the S-level views share M-level registers. */
  function Backing(idx: nat): nat {
    if idx == 0x100 then 0x300 else if idx == 0x144 then 0x344 else if idx == 0x104 then 0x304 else idx
  }

  /** A write leaves every CSR alone that is not backed by the same register. */
  lemma WriteLeavesOthers(c: Csrs, idx: nat, w: Word, other: nat)
    requires Backing(idx) != Backing(other)
    ensures CsrValue(CsrWritten(c, idx, w), other) == CsrValue(c, other)
  {
    hide Bitwise;
  }

  predicate ReadOnly(idx: nat) {
    idx == 0x301 || idx == 0xf11 || idx == 0xf12 || idx == 0xf13 || idx == 0xf14 || idx == 0xb02 || idx == 0xb00
  }

  predicate Masked(idx: nat) {
    idx == 0x300 || idx == 0x100 || idx == 0x144 || idx == 0x104 || idx == 0x180
  }

  /** What a read returns after a write of w to the same CSR: w itself, or for the
      masked registers w in the writable bits (an accepted satp write takes the others
      from mstatus). */
  lemma WriteThenRead(c: Csrs, idx: nat, w: Word)
    requires CsrValue(c, idx).Known?
    ensures CsrValue(CsrWritten(c, idx, w), idx).Known?
    ensures var r := CsrValue(CsrWritten(c, idx, w), idx).value;
            && (!ReadOnly(idx) && !Masked(idx) ==> r == w)
            && (ReadOnly(idx) ==> r == CsrValue(c, idx).value)
            && (idx == 0x180 && SatpMode(w) != 8 ==> r == c.satp)
            && (idx == 0x180 && SatpMode(w) == 8 ==>
                  forall i: nat :: Bit(r, i) == if i < 44 || 60 <= i < 64 then Bit(w, i) else Bit(c.mstatus, i))
            && forall i: nat ::
                 && (idx == 0x300 ==> Bit(r, i) == if MstatusBit(i) then Bit(w, i) else Bit(c.mstatus, i))
                 && (idx == 0x100 ==> Bit(r, i) == if SstatusBit(i) then Bit(w, i) else (i == 32 || i == 33) && Bit(c.mstatus, i))
                 && (idx == 0x144 || idx == 0x104 ==> Bit(r, i) == (SupervisorInterruptBit(i) && Bit(w, i)))
  {
    hide Logic, Bit, SstatusBit, MstatusBit, SupervisorInterruptBit;
    forall i: nat ensures Bit(MSTATUS_WRITE, i) <==> MstatusBit(i) {
      MstatusMask(i);
    }
    forall i: nat
      ensures Bit(SSTATUS_WRITE, i) == SstatusBit(i) && Bit(SSTATUS_READ, i) == (SstatusBit(i) || i == 32 || i == 33)
      ensures Bit(S_INTERRUPTS, i) == SupervisorInterruptBit(i)
    {
      SstatusMask(i);
      SstatusReadMask(i);
      SupervisorInterruptMask(i);
    }
    forall i: nat ensures Bit(SATP_WRITE, i) <==> i < 44 || 60 <= i < 64 {
      SatpMask(i);
    }
    UxlNotWritable();
  }

  lemma UxlNotWritable()
    ensures !SstatusBit(32) && !SstatusBit(33)
  {}

  lemma CsrrwiIsExact(old_: Word, src: Word, imm: Word)
    requires imm < 32
    ensures NewCsr(CSRRWI, old_, src, imm) == imm <==> old_ < 32
  {
    var new_ := NewCsr(CSRRWI, old_, src, imm);
    assert Pow2(5) == 32;
    forall i: nat ensures Bit(new_, i) == if i < 5 then Bit(imm, i) else Bit(old_, i) {
      BitOfOnes(5, i);
      if i >= 5 { BitBeyond(imm, 5, i); }
    }
    hide Bit, Pow2, NewCsr;
    if old_ < 32 {
      forall i: nat ensures Bit(new_, i) == Bit(imm, i) {
        if i >= 5 {
          BitBeyond(imm, 5, i);
          BitBeyond(old_, 5, i);
        }
      }
      SameBits(new_, imm);
    }
    if new_ == imm {
      forall i: nat ensures Bit(old_, i) == Bit(old_ % 32, i) {
        if i < 5 {
          BitMod(old_, 5, i);
        } else {
          BitBeyond(imm, 5, i);
          BitBeyond(old_ % 32, 5, i);
        }
      }
      SameBits(old_, old_ % 32);
    }
  }

  /** What each CSR instruction asks to be written, bit by bit.  csrrwi keeps the
      bits above its five-bit immediate, so it writes the immediate, as the ISA
      asks, exactly when the old value has no such bits. */
  lemma NewCsrBits(kind: CsrKind, old_: Word, src: Word, imm: Word, i: nat)
    requires imm < 32
    ensures Bit(NewCsr(kind, old_, src, imm), i)
            == match kind
               case CSRRC => Bit(old_, i) && !Bit(src, i)
               case CSRRCI => Bit(old_, i) && !(i < 5 && Bit(imm, i))
               case CSRRS => Bit(old_, i) || Bit(src, i)
               case CSRRSI => Bit(old_, i) || (i < 5 && Bit(imm, i))
               case CSRRW => Bit(src, i)
               case CSRRWI => if i < 5 then Bit(imm, i) else Bit(old_, i)
    ensures NewCsr(CSRRWI, old_, src, imm) == imm <==> old_ < 32
  {
    CsrrwiIsExact(old_, src, imm);
    hide Bit;
    assert Pow2(5) == 32;
    BitOfOnes(5, i);
    if i >= 5 {
      BitBeyond(imm, 5, i);
    }
  }

  // ----- CSR instructions below machine mode -----

  /** Everything that belongs to machine mode is as before. */
  ghost predicate MachineStateKept(a: Csrs, b: Csrs) {
    && b.mtvec == a.mtvec && b.medeleg == a.medeleg && b.mideleg == a.mideleg && b.mscratch == a.mscratch
    && b.mepc == a.mepc && b.mcause == a.mcause && b.mtval == a.mtval
    && b.minstret == a.minstret && b.mcycle == a.mcycle
    && (forall i: nat :: !SstatusBit(i) ==> Bit(b.mstatus, i) == Bit(a.mstatus, i))
    && (forall i: nat :: !SupervisorInterruptBit(i) ==> Bit(b.mip, i) == Bit(a.mip, i) && Bit(b.mie, i) == Bit(a.mie, i))
  }

  lemma SupervisorWrite(c: Csrs, idx: nat, w: Word)
    requires idx <= 0x200
    ensures MachineStateKept(c, CsrWritten(c, idx, w))
  {
    hide Bitwise, Bit, SstatusBit, SupervisorInterruptBit;
    forall i: nat ensures Bit(SSTATUS_WRITE, i) <==> SstatusBit(i) { SstatusMask(i); }
    forall i: nat ensures Bit(S_INTERRUPTS, i) <==> SupervisorInterruptBit(i) { SupervisorInterruptMask(i); }
  }

  /** Below machine mode a CSR instruction either raises illegal-instruction and
      writes nothing, or changes only rd and supervisor state. */
  lemma CsrBelowMachineMode(h: Hart, i: Instr, word: Word)
    requires i.CsrOp? && !h.mode.ModeM? && !h.x.isExcept
    ensures var after := ExecCsr(h, i, word);
            if CsrValue(h.c, i.idx).Known? && i.idx <= 0x200 then
              && after == h.(gpr := after.gpr, c := after.c) && MachineStateKept(h.c, after.c)
              && after.gpr == h.gpr[i.rd := CsrValue(h.c, i.idx).value]
            else
              after == h.(x := Exc(word, EX_II, h.x.amo, true))
  {
    hide CsrWritten, CsrValue, NewCsr, MachineStateKept;
    if CsrValue(h.c, i.idx).Known? && i.idx <= 0x200 {
      SupervisorWrite(h.c, i.idx, NewCsr(i.kind, CsrValue(h.c, i.idx).value, h.gpr[i.rs1], i.rs1));
    }
  }

  // ----- the satp write -----

  /** Bits 44 to 59 of mstatus, which the satp write copies into the ASID. */
  ghost predicate ReservedClear(mstatus: Word) {
    forall i: nat :: 44 <= i < 60 ==> !Bit(mstatus, i)
  }

  lemma NotAnMstatusBit(i: nat)
    requires 44 <= i < 60
    ensures !MstatusBit(i)
  {}

  lemma CsrWriteKeepsReserved(c: Csrs, idx: nat, w: Word)
    requires ReservedClear(c.mstatus)
    ensures ReservedClear(CsrWritten(c, idx, w).mstatus)
  {
    hide Bitwise, Bit, SstatusBit, MstatusBit;
    forall i: nat | 44 <= i < 60 ensures !Bit(MSTATUS_WRITE, i) && !Bit(SSTATUS_WRITE, i) {
      MstatusMask(i);
      NotAnMstatusBit(i);
      SstatusMask(i);
      NotAnSstatusBit(i);
    }
  }

  lemma NotAnSstatusBit(i: nat)
    requires 44 <= i < 60
    ensures !SstatusBit(i)
  {}

  lemma Pow2Of44()
    ensures Pow2(44) == 0x1000_0000_0000
  {
    assert Pow2(11) == 0x800;
    Pow2Sum(11, 11);
    Pow2Sum(22, 22);
  }

  /** The mask of the satp write: everything but bits 44 to 59. */
  lemma SatpMask(i: nat)
    ensures Bit(SATP_WRITE, i) <==> i < 44 || 60 <= i < 64
  {
    hide Bit, Pow2;
    Pow2Of44();
    if i < 44 {
      BitMod(0xf0000fffffffffff, 44, i);
      BitOfOnes(44, i);
    } else {
      BitShr(0xf0000fffffffffff, 44, i - 44);
      ShrIsDiv(0xf0000fffffffffff, 44);
      SatpMaskTop(i - 44);
    }
  }

  lemma SatpMaskTop(i: nat)
    ensures Bit(0xf0000, i) <==> 16 <= i < 20
  {
    hide Bit;
    if i < 16 {
      assert Pow2(8) == 0x100;
      Pow2Sum(8, 8);
      BitMod(0xf0000, 16, i);
      BitOfZero(i);
    } else {
      BitShr(0xf0000, 8, i - 8);
      assert Shr(0xf0000, 8) == 0xf00;
      BitShr(0xf00, 8, i - 16);
      assert Shr(0xf00, 8) == 15;
      FourOnes(i - 16);
    }
  }

  lemma FourOnes(i: nat)
    ensures Bit(15, i) <==> i < 4
  {
    hide Bit;
    assert Pow2(4) == 16;
    BitOfOnes(4, i);
  }

  lemma BitOfZero(i: nat)
    ensures !Bit(0, i)
  {}

  function SatpAsid(satp: Word): nat {
    satp / 0x1000_0000_0000 % 0x1_0000
  }

  /** Although the write takes the bits outside its mask from mstatus, an accepted
      satp write selects Sv39, ASID 0 and the page number written. */
  lemma SatpWrite(c: Csrs, w: Word)
    requires ReservedClear(c.mstatus) && SatpMode(w) == 8
    ensures var satp := CsrWritten(c, 0x180, w).satp;
            SatpMode(satp) == 8 && SatpAsid(satp) == 0 && SatpPpn(satp) == SatpPpn(w)
  {
    hide Bit, Bitwise, Pow2;
    var satp := Merge(c.mstatus, w, SATP_WRITE);
    forall i: nat ensures Bit(SATP_WRITE, i) <==> i < 44 || 60 <= i < 64 { SatpMask(i); }
    Pow2Of44();
    SameLowBits(satp, w, 44);
    SatpTop(satp, w);
    SatpMiddle(satp);
  }

  lemma SatpTop(satp: Word, w: Word)
    requires forall i: nat :: 60 <= i < 64 ==> Bit(satp, i) == Bit(w, i)
    ensures SatpMode(satp) == SatpMode(w)
  {
    hide Bit, Pow2;
    forall i: nat ensures Bit(Shr(satp, 60), i) == Bit(Shr(w, 60), i) {
      BitShr(satp, 60, i);
      BitShr(w, 60, i);
      if i >= 4 {
        Pow2Values();
        BitBeyond(satp, 64, i + 60);
        BitBeyond(w, 64, i + 60);
      }
    }
    SameBits(Shr(satp, 60), Shr(w, 60));
    ShrIsDiv(satp, 60);
    ShrIsDiv(w, 60);
    Pow2Of60();
  }

  lemma Pow2Of60()
    ensures Pow2(60) == 0x1000_0000_0000_0000
  {
    Pow2Of44();
    assert Pow2(8) == 0x100;
    Pow2Sum(8, 8);
    Pow2Sum(44, 16);
  }

  lemma SatpMiddle(satp: Word)
    requires forall i: nat :: 44 <= i < 60 ==> !Bit(satp, i)
    ensures SatpAsid(satp) == 0
  {
    hide Bit, Pow2;
    forall i: nat | i < 16 ensures Bit(Shr(satp, 44), i) == Bit(0, i) {
      BitShr(satp, 44, i);
      BitOfZero(i);
    }
    SameLowBits(Shr(satp, 44), 0, 16);
    ShrIsDiv(satp, 44);
    Pow2Of44();
    SixteenBits();
  }

  lemma SixteenBits()
    ensures Pow2(16) == 0x1_0000
  {
    assert Pow2(8) == 0x100;
    Pow2Sum(8, 8);
  }
}
