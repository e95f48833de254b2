// Sv39 in plain numbers: where the indices of an address are, which table words
// are read, which bits of an entry and of mstatus decide, and which physical
// address results.
module Sv39Properties {
  import opened Bits
  import opened HartState
  import opened Paddr
  import opened Sv39
  import opened Mmu
  import opened Vaddr

  /** RAM is the 128 MiB that begin at 2 GiB. */
  lemma RamWindow(pa: nat)
    ensures InPmem(pa) <==> pa / (128 * 1024 * 1024) == 16
  {}

  // ----- the indices -----

  /** The low 39 bits of an address are the three nine-bit indices and the offset. */
  lemma IndicesAreFields(va: Word)
    ensures va % 0x80_0000_0000 == Vpn(va, 2) * 0x4000_0000 + Vpn(va, 1) * 0x20_0000 + Vpn(va, 0) * 0x1000 + va % 0x1000
    ensures Vpn(va, 2) < 0x200 && Vpn(va, 1) < 0x200 && Vpn(va, 0) < 0x200
  {
    var a, b, c := va / 0x4000_0000, va / 0x20_0000, va / 0x1000;
    assert b / 0x200 == a && c / 0x200 == b;
    assert va / 0x80_0000_0000 == a / 0x200;
    assert va == c * 0x1000 + va % 0x1000 && c == b * 0x200 + c % 0x200 && b == a * 0x200 + b % 0x200;
  }

  // ----- an independent account of the walk, on raw table words -----

  predicate BadWord(w: Word) {
    !Bit(w, 0) || (!Bit(w, 1) && Bit(w, 2))
  }

  predicate LeafWord(w: Word) {
    Bit(w, 1) || Bit(w, 3)
  }

  /** The address of the frame that a word names, within 44 bits. */
  function FrameOf(w: Word): nat {
    w / 0x400 % 0x1000_0000_0000 * 0x1000 % 0x1000_0000_0000
  }

  datatype Mapping = Unmapped | Mapped(word: Word, size: nat)

  /** At most three table words, each at eight times its nine-bit index. */
  function MappingOf(bus: Bus, satp: Word, va: Word): Mapping {
    var root := satp % 0x1000_0000_0000 * 0x1000 % 0x1000_0000_0000;
    var w2 := PRead(bus, root + 8 * (va / 0x4000_0000 % 0x200), 8);
    if BadWord(w2) then Unmapped
    else if LeafWord(w2) then Mapped(w2, 0x4000_0000)
    else
      var w1 := PRead(bus, FrameOf(w2) + 8 * (va / 0x20_0000 % 0x200), 8);
      if BadWord(w1) then Unmapped
      else if LeafWord(w1) then Mapped(w1, 0x20_0000)
      else
        var w0 := PRead(bus, FrameOf(w1) + 8 * (va / 0x1000 % 0x200), 8);
        if BadWord(w0) || !LeafWord(w0) then Unmapped else Mapped(w0, 0x1000)
  }

  /** What a walk result says about the leaf word. */
  predicate Same(f: Found, m: Mapping) {
    match m
    case Unmapped => f.NoLeaf?
    case Mapped(w, size) => f.Leaf? && f.pte == Decode(w) && size == 0x1000 * Span(f.level)
  }

  lemma EntryBits(w: Word)
    ensures var pte := Decode(w);
            && pte.v == Bit(w, 0) && pte.r == Bit(w, 1) && pte.w == Bit(w, 2) && pte.x == Bit(w, 3)
            && pte.u == Bit(w, 4) && pte.a == Bit(w, 6) && pte.d == Bit(w, 7)
            && Base(pte.ppn, EMULATOR) == FrameOf(w)
  {
    BitIsDigit(w, 0);
    BitIsDigit(w, 1);
    BitIsDigit(w, 2);
    BitIsDigit(w, 3);
    BitIsDigit(w, 4);
    BitIsDigit(w, 6);
    BitIsDigit(w, 7);
    SmallPowers();
    hide Bit, Pow2;
  }

  lemma SmallPowers()
    ensures Pow2(0) == 1 && Pow2(1) == 2 && Pow2(2) == 4 && Pow2(3) == 8 && Pow2(4) == 16 && Pow2(6) == 64 && Pow2(7) == 128
  {
    assert Pow2(4) == 16;
    assert Pow2(6) == 4 * Pow2(4);
  }

  /** One step of the walk: the word is read at eight times the index. */
  lemma WalkStep(bus: Bus, table: nat, va: Word, i: Level)
    ensures var w := PRead(bus, table + 8 * Vpn(va, i), 8);
            Walk(bus, EMULATOR, table, va, i) ==
              if BadWord(w) then NoLeaf
              else if LeafWord(w) then Leaf(Decode(w), i)
              else if i == 0 then NoLeaf
              else Walk(bus, EMULATOR, FrameOf(w), va, i - 1)
  {
    var w := PRead(bus, table + 8 * Vpn(va, i), 8);
    EntryBits(w);
    hide PRead, Vpn, Decode, Base, FrameOf, Bit;
    assert EntryAddr(table, va, i) == table + 8 * Vpn(va, i);
  }

  /** The recursive walk reads exactly those words. */
  lemma WalkIsMapping(bus: Bus, satp: Word, va: Word)
    ensures Same(Walk(bus, EMULATOR, RootTable(satp), va, 2), MappingOf(bus, satp, va))
  {
    hide PRead, Decode, FrameOf, BadWord, LeafWord, Walk;
    WalkStep(bus, RootTable(satp), va, 2);
    var w2 := PRead(bus, RootTable(satp) + 8 * Vpn(va, 2), 8);
    WalkStep(bus, FrameOf(w2), va, 1);
    var w1 := PRead(bus, FrameOf(w2) + 8 * Vpn(va, 1), 8);
    WalkStep(bus, FrameOf(w1), va, 0);
  }

  /** The first word that a walk reads. */
  lemma RootEntryRead(bus: Bus, satp: Word, va: Word)
    ensures Entries(bus, EMULATOR, RootTable(satp), va, 2)[0]
            == satp % 0x1000_0000_0000 * 0x1000 % 0x1000_0000_0000 + 8 * (va / 0x4000_0000 % 0x200)
  {
    hide EntryAt, Walk;
  }

  // ----- who may access -----

  /** Accesses other than fetches run with the mode in mstatus bits 12 and 11 when
      bit 17 is set. */
  predicate Borrowed(env: Env, t: MemType) {
    Bit(env.mstatus, 17) && !t.IFetch?
  }

  predicate AsUser(env: Env, t: MemType) {
    if Borrowed(env, t) then !Bit(env.mstatus, 12) && !Bit(env.mstatus, 11) else env.mode.ModeU?
  }

  predicate AsSupervisor(env: Env, t: MemType) {
    if Borrowed(env, t) then !Bit(env.mstatus, 12) && Bit(env.mstatus, 11) else env.mode.ModeS?
  }

  predicate AsMachine(env: Env, t: MemType) {
    if Borrowed(env, t) then Bit(env.mstatus, 12) && Bit(env.mstatus, 11) else env.mode.ModeM?
  }

  /** Bits 0, 6: valid, accessed; 4: user page, open to the supervisor with SUM
      (mstatus bit 18) and never for fetches; 3, 1, 2: execute, read, write; 7:
      dirty; mstatus bit 19 (MXR) makes executable pages readable. */
  predicate MayAccess(env: Env, w: Word, t: MemType) {
    && Bit(w, 0) && Bit(w, 6)
    && (if Bit(w, 4) then AsUser(env, t) || (AsSupervisor(env, t) && Bit(env.mstatus, 18) && !t.IFetch?) else AsSupervisor(env, t))
    && match t
       case IFetch => Bit(w, 3)
       case Read => Bit(w, 1) || (Bit(env.mstatus, 19) && Bit(w, 3))
       case Write => Bit(w, 2) && Bit(w, 7)
  }

  lemma RightsAreBits(env: Env, w: Word, t: MemType)
    ensures Allowed(RightsOf(env, t), Decode(w), t) == MayAccess(env, w, t)
  {
    EntryBits(w);
    hide Bit, Decode, Base, FrameOf;
  }

  /** Addresses go untranslated in machine mode and when satp.mode is not 8; the
      others must be sign-extended from 39 bits. */
  lemma CheckIsBits(env: Env, va: Word, t: MemType)
    ensures CheckOf(env, va, t).Direct? <==> AsMachine(env, t) || env.satp / 0x1000_0000_0000_0000 != 8
    ensures CheckOf(env, va, t).Failed? <==> !CheckOf(env, va, t).Direct? && SignExtend39(va) != va
  {
    CanonicalTestsAgree(va);
    hide Bit, SignExtend39, Canonical;
  }

  // ----- the physical address -----

  lemma PageAddress(ppn: nat, va: Word, i: Level)
    requires ppn % Span(i) == 0
    ensures Base(ppn + va / 0x1000 % Span(i), EMULATOR) + va % 0x1000
            == (ppn * 0x1000 + va % (0x1000 * Span(i))) % 0x1000_0000_0000
  {
    var low := va / 0x1000 % Span(i);
    MiddleBits(va, i);
    var page, off := (ppn + low) * 0x1000, va % 0x1000;
    assert ppn * 0x1000 + va % (0x1000 * Span(i)) == page + off;
    var q, base := page / 0x1000_0000_0000, page % 0x1000_0000_0000;
    BaseIsWholePages(ppn + low, EMULATOR);
    assert base % 0x1000 == 0 && base < 0x1000_0000_0000;
    DivModUnique(page + off, 0x1000_0000_0000, q, base + off);
  }

  /** The leaf that a mapping stands for yields the page of its frame. */
  lemma LeafIsFrame(w: Word, i: Level, va: Word)
    ensures var frame, size := w / 0x400 % 0x1000_0000_0000 * 0x1000, 0x1000 * Span(i);
            var page := LeafPage(Decode(w), i, va, EMULATOR);
            if frame % size == 0 then page.Page? && page.base + va % 0x1000 == (frame + va % size) % 0x1000_0000_0000
            else page.Fault?
  {
    var ppn := w / 0x400 % 0x1000_0000_0000;
    assert Decode(w).ppn == ppn;
    hide Decode, Base, Span;
    FrameAlignment(ppn, i);
    if ppn % Span(i) == 0 {
      PageAddress(ppn, va, i);
    }
  }

  lemma PageOfWalk(env: Env, va: Word, t: MemType)
    requires Canonical(va)
    ensures PageOf(env, va, t) ==
              match Walk(env.bus, EMULATOR, RootTable(env.satp), va, 2)
              case NoLeaf => Fault
              case Leaf(pte, i) => if Allowed(RightsOf(env, t), pte, t) then LeafPage(pte, i, va, EMULATOR) else Fault
  {
    hide Walk, Base, Canonical, RightsOf, Allowed, LeafPage;
  }

  lemma PhysicalPage(env: Env, va: Word, t: MemType)
    requires Canonical(va)
    ensures var page := PageOf(env, va, t);
            match MappingOf(env.bus, env.satp, va)
            case Unmapped => page.Fault?
            case Mapped(w, size) =>
              size > 0 &&
              var frame := w / 0x400 % 0x1000_0000_0000 * 0x1000;
              if MayAccess(env, w, t) && frame % size == 0 then
                page.Page? && page.base + va % 0x1000 == (frame + va % size) % 0x1000_0000_0000
              else page.Fault?
  {
    hide Walk, Base, Canonical, RightsOf, Allowed, LeafPage, MappingOf, MayAccess, Decode, Span, PageOf;
    WalkIsMapping(env.bus, env.satp, va);
    PageOfWalk(env, va, t);
    match MappingOf(env.bus, env.satp, va) {
      case Unmapped =>
      case Mapped(w, size) =>
        var level := Walk(env.bus, EMULATOR, RootTable(env.satp), va, 2).level;
        RightsAreBits(env, w, t);
        LeafIsFrame(w, level, va);
    }
  }

  /** The whole translation in plain numbers: an access is refused when nothing is
      mapped, the access is not permitted or the frame is not aligned to the size
      of the page; otherwise the physical address is the frame plus the offset in
      a page of 4 KiB, 2 MiB or 1 GiB. */
  lemma PhysicalAddress(env: Env, x: Exc, va: Word, t: MemType)
    requires CheckOf(env, va, t).Translated?
    ensures var refused := Refused(Exc(va, PageFaultCause(t, x.amo), false, true));
            match MappingOf(env.bus, env.satp, va)
            case Unmapped => Resolve(env, x, va, t) == refused
            case Mapped(w, size) =>
              size > 0 &&
              var frame := w / 0x400 % 0x1000_0000_0000 * 0x1000;
              if MayAccess(env, w, t) && frame % size == 0 then
                Resolve(env, x, va, t) == At((frame + va % size) % 0x1000_0000_0000)
              else Resolve(env, x, va, t) == refused
  {
    hide PageOf, MappingOf, MayAccess, Canonical, VmEnabled;
    PhysicalPage(env, va, t);
  }

  lemma FrameAlignment(ppn: nat, i: Level)
    ensures ppn * 0x1000 % (0x1000 * Span(i)) == 0 <==> ppn % Span(i) == 0
  {}

  /** The page-fault causes by access type; an AMO's load faults like a store. */
  lemma PageFaultCauses(amo: bool)
    ensures PageFaultCause(IFetch, amo) == EX_IPF && PageFaultCause(Write, amo) == EX_SPF
    ensures PageFaultCause(Read, false) == EX_LPF && PageFaultCause(Read, true) == EX_SPF
  {}
}
