// Sv39 address translation as the privileged architecture describes it: a
// recursive walk (section 4.3.2 with LEVELS = 3), then the access check, then
// the superpage composition on page numbers.
//
// Shifts and masks of unsigned words are written as divisions and remainders by
// powers of two.
module Sv39 {
  import opened Bits
  import opened HartState
  import opened Paddr

  type Level = i: nat | i < 3

  /** The page table entry union. */
  datatype Pte = Pte(v: bool, r: bool, w: bool, x: bool, u: bool, a: bool, d: bool, ppn: nat)

  function Decode(val: Word): Pte {
    Pte(Odd(val), Odd(val / 2), Odd(val / 4), Odd(val / 8), Odd(val / 16), Odd(val / 64), Odd(val / 128),
        val / 0x400 % 0x1000_0000_0000)
  }

  function Vpn(va: Word, i: Level): nat {
    (if i == 0 then va / 0x1000 else if i == 1 then va / 0x20_0000 else va / 0x4000_0000) % 0x200
  }

  /** How many 4 KiB frames a leaf at level i spans. */
  function Span(i: Level): (n: nat)
    ensures n > 0
  {
    if i == 0 then 1 else if i == 1 then 0x200 else 0x4_0000
  }

  /** A page number becomes an address by a 12-bit shift.  The standard keeps all
      56 bits of it; the emulator's shift of a 44-bit field keeps the low 44. */
  type Cut = c: nat | c == 0x100_0000_0000_0000 || c == 0x1000_0000_0000 witness 0x1000_0000_0000
  const STANDARD: Cut := 0x100_0000_0000_0000
  const EMULATOR: Cut := 0x1000_0000_0000

  function Base(ppn: nat, cut: Cut): nat {
    ppn * 0x1000 % cut
  }

  /** A page address is a whole number of pages. */
  lemma BaseIsWholePages(ppn: nat, cut: Cut)
    ensures Base(ppn, cut) % 0x1000 == 0 && Base(ppn, cut) % 8 == 0
  {
    var frames := if cut == STANDARD then 0x1000_0000_0000 else 0x1_0000_0000;
    var base := ppn % frames * 0x1000;
    DivModUnique(ppn * 0x1000, cut, ppn / frames, base);
    DivModUnique(base, 0x1000, ppn % frames, 0);
    DivModUnique(base, 8, ppn % frames * 0x200, 0);
  }

  /** The address of entry k of a page table. */
  function Slot(table: nat, k: nat): nat {
    table + k * 8
  }

  function EntryAddr(table: nat, va: Word, i: Level): nat {
    Slot(table, Vpn(va, i))
  }

  function EntryAt(bus: Bus, addr: nat): Pte {
    Decode(PRead(bus, addr, 8))
  }

  predicate Invalid(pte: Pte) {
    !pte.v || (!pte.r && pte.w)
  }

  predicate IsLeaf(pte: Pte) {
    pte.r || pte.x
  }

  datatype Found = NoLeaf | Leaf(pte: Pte, level: Level)

  function Walk(bus: Bus, cut: Cut, table: nat, va: Word, i: Level): Found
    decreases i
  {
    var pte := EntryAt(bus, EntryAddr(table, va, i));
    if Invalid(pte) then NoLeaf
    else if IsLeaf(pte) then Leaf(pte, i)
    else if i == 0 then NoLeaf
    else Walk(bus, cut, Base(pte.ppn, cut), va, i - 1)
  }

  /** The table words that a walk reads, in order. */
  function Entries(bus: Bus, cut: Cut, table: nat, va: Word, i: Level): (es: seq<nat>)
    ensures 0 < |es| <= i + 1
    decreases i
  {
    var e := EntryAddr(table, va, i);
    var pte := EntryAt(bus, e);
    if Invalid(pte) || IsLeaf(pte) || i == 0 then [e]
    else [e] + Entries(bus, cut, Base(pte.ppn, cut), va, i - 1)
  }

  /** Who asks: the effective privilege mode and the two mstatus modifiers. */
  datatype Rights = Rights(mode: Mode, sum: bool, mxr: bool)

  predicate Allowed(who: Rights, pte: Pte, t: MemType) {
    && pte.v && pte.a
    && (if pte.u then who.mode.ModeU? || (who.mode.ModeS? && who.sum && !t.IFetch?) else who.mode.ModeS?)
    && match t
       case IFetch => pte.x
       case Read => pte.r || (who.mxr && pte.x)
       case Write => pte.w && pte.d
  }

  predicate Canonical(va: Word) {
    va / 0x40_0000_0000 == 0 || va / 0x40_0000_0000 == 0x3ff_ffff
  }

  datatype Page = Fault | Page(base: nat)

  /** Steps 6 and 8: a superpage must be aligned, and passes the low virtual
      page number through. */
  function LeafPage(pte: Pte, i: Level, va: Word, cut: Cut): Page {
    if pte.ppn % Span(i) != 0 then Fault
    else Page(Base(pte.ppn + va / 0x1000 % Span(i), cut))
  }

  function Translate(bus: Bus, cut: Cut, root: nat, who: Rights, va: Word, t: MemType): Page {
    if !Canonical(va) then Fault
    else
      match Walk(bus, cut, Base(root, cut), va, 2)
      case NoLeaf => Fault
      case Leaf(pte, i) => if Allowed(who, pte, t) then LeafPage(pte, i, va, cut) else Fault
  }
}
