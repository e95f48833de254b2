// Properties of translation: what it depends on, when the emulator's address
// arithmetic agrees with the standard, and that superpages can be split.
module TranslationProperties {
  import opened Bits
  import opened HartState
  import opened Paddr
  import opened Sv39

  /** The walk depends on nothing but the (at most three) words it reads. */
  lemma {:induction false} WalkFrame(bus: Bus, bus': Bus, cut: Cut, table: nat, va: Word, i: Level)
    requires forall e :: e in Entries(bus, cut, table, va, i) ==> EntryAt(bus', e) == EntryAt(bus, e)
    ensures Walk(bus', cut, table, va, i) == Walk(bus, cut, table, va, i)
    ensures Entries(bus', cut, table, va, i) == Entries(bus, cut, table, va, i)
    decreases i
  {
    hide Decode, PRead;
    var e := EntryAddr(table, va, i);
    assert e in Entries(bus, cut, table, va, i);
    var pte := EntryAt(bus, e);
    if !Invalid(pte) && !IsLeaf(pte) && i > 0 {
      WalkFrame(bus, bus', cut, Base(pte.ppn, cut), va, i - 1);
    }
  }

  lemma {:induction false} WalkedLeafIsValid(bus: Bus, cut: Cut, table: nat, va: Word, i: Level)
    ensures Walk(bus, cut, table, va, i).Leaf? ==>
              !Invalid(Walk(bus, cut, table, va, i).pte) && IsLeaf(Walk(bus, cut, table, va, i).pte)
    decreases i
  {
    hide Decode, PRead;
    var pte := EntryAt(bus, EntryAddr(table, va, i));
    if !Invalid(pte) && !IsLeaf(pte) && i > 0 {
      WalkedLeafIsValid(bus, cut, Base(pte.ppn, cut), va, i - 1);
    }
  }

  // ----- the emulator against the standard -----

  const FRAME_LIMIT: nat := 0x1_0000_0000

  /** Every pointer entry that the walk follows names a frame below 2^32. */
  predicate PointersFit(bus: Bus, table: nat, va: Word, i: Level)
    decreases i
  {
    var pte := EntryAt(bus, EntryAddr(table, va, i));
    Invalid(pte) || IsLeaf(pte) || i == 0
    || (pte.ppn < FRAME_LIMIT && PointersFit(bus, Base(pte.ppn, EMULATOR), va, i - 1))
  }

  lemma BaseAgrees(ppn: nat)
    requires ppn < 0x1000_0000_0000
    ensures Base(ppn, EMULATOR) == Base(ppn, STANDARD) <==> ppn < FRAME_LIMIT
  {}

  lemma {:induction false} WalkAgrees(bus: Bus, table: nat, va: Word, i: Level)
    requires PointersFit(bus, table, va, i)
    ensures Walk(bus, EMULATOR, table, va, i) == Walk(bus, STANDARD, table, va, i)
    decreases i
  {
    var pte := EntryAt(bus, EntryAddr(table, va, i));
    if !Invalid(pte) && !IsLeaf(pte) && i > 0 {
      BaseAgrees(pte.ppn);
      WalkAgrees(bus, Base(pte.ppn, EMULATOR), va, i - 1);
    }
  }

  lemma {:induction false} WalkedFrameNumber(bus: Bus, cut: Cut, table: nat, va: Word, i: Level)
    ensures Walk(bus, cut, table, va, i).Leaf? ==> Walk(bus, cut, table, va, i).pte.ppn < 0x1000_0000_0000
    decreases i
  {
    var pte := EntryAt(bus, EntryAddr(table, va, i));
    if !Invalid(pte) && !IsLeaf(pte) && i > 0 {
      WalkedFrameNumber(bus, cut, Base(pte.ppn, cut), va, i - 1);
    }
  }

  /** An aligned frame number plus a low part stays within the same power of two. */
  lemma AlignedSum(ppn: nat, low: nat, i: Level, limit: nat)
    requires ppn % Span(i) == 0 && low < Span(i)
    requires limit == FRAME_LIMIT || limit == 0x1000_0000_0000
    ensures ppn + low < limit <==> ppn < limit
  {}

  lemma LeafPageAgrees(pte: Pte, i: Level, va: Word)
    requires pte.ppn < 0x1000_0000_0000
    ensures LeafPage(pte, i, va, EMULATOR) == LeafPage(pte, i, va, STANDARD)
            <==> (LeafPage(pte, i, va, STANDARD).Page? ==> pte.ppn < FRAME_LIMIT)
  {
    if pte.ppn % Span(i) == 0 {
      var low := va / 0x1000 % Span(i);
      AlignedSum(pte.ppn, low, i, FRAME_LIMIT);
      AlignedSum(pte.ppn, low, i, 0x1000_0000_0000);
      BaseAgrees(pte.ppn + low);
    }
  }

  /** With tables below 2^44, the emulator's translation is the standard's for
      every address, access and mode, exactly when a granted leaf also lies
      below 2^44; any higher frame is silently replaced by another one. */
  lemma EmulatorMeetsStandard(bus: Bus, root: nat, who: Rights, va: Word, t: MemType)
    requires root < FRAME_LIMIT && PointersFit(bus, Base(root, EMULATOR), va, 2)
    ensures Translate(bus, EMULATOR, root, who, va, t) == Translate(bus, STANDARD, root, who, va, t)
            <==> (Translate(bus, STANDARD, root, who, va, t).Page?
                  ==> Walk(bus, STANDARD, Base(root, STANDARD), va, 2).pte.ppn < FRAME_LIMIT)
  {
    BaseAgrees(root);
    WalkAgrees(bus, Base(root, EMULATOR), va, 2);
    WalkedFrameNumber(bus, STANDARD, Base(root, STANDARD), va, 2);
    hide Walk, Allowed, PointersFit, LeafPage, Base, Canonical;
    match Walk(bus, STANDARD, Base(root, STANDARD), va, 2) {
      case NoLeaf =>
      case Leaf(pte, i) => LeafPageAgrees(pte, i, va);
    }
  }

  // ----- frames of 2^32 and above -----

  /** The device word at address a reads as v. */
  function Patched(bus: Bus, a: nat, v: Word): Bus {
    var dev := bus.dev;
    Bus(bus.ram, (x: nat, n: nat) => if x == a && n == 8 then v else dev(x, n))
  }

  lemma PatchedEntry(bus: Bus, a: nat, v: Word, e: nat)
    requires a >= EMULATOR
    ensures EntryAt(Patched(bus, a, v), e) == if e == a then Decode(v) else EntryAt(bus, e)
  {
    hide Decode, HostRead;
  }

  lemma EntryBelow(table: nat, va: Word, i: Level)
    requires table % 0x1000 == 0 && table < EMULATOR
    ensures EntryAddr(table, va, i) < EMULATOR
  {
    assert Vpn(va, i) < 0x200;
    hide Vpn;
  }

  lemma BaseBelow(ppn: nat)
    ensures Base(ppn, EMULATOR) % 0x1000 == 0 && Base(ppn, EMULATOR) < EMULATOR
  {
    BaseIsWholePages(ppn, EMULATOR);
  }

  lemma {:induction false} EntriesBelow(bus: Bus, table: nat, va: Word, i: Level)
    requires table % 0x1000 == 0 && table < EMULATOR
    ensures forall e :: e in Entries(bus, EMULATOR, table, va, i) ==> e < EMULATOR
    decreases i
  {
    hide EntryAt, Base;
    EntryBelow(table, va, i);
    var pte := EntryAt(bus, EntryAddr(table, va, i));
    if !Invalid(pte) && !IsLeaf(pte) && i > 0 {
      BaseBelow(pte.ppn);
      EntriesBelow(bus, Base(pte.ppn, EMULATOR), va, i - 1);
    }
  }

  lemma HighBase(ppn: nat)
    requires FRAME_LIMIT <= ppn < 0x1000_0000_0000
    ensures Base(ppn, STANDARD) >= EMULATOR
  {}

  /** What the walk finds at a word that is a leaf or invalid. */
  function FoundAt(pte: Pte, level: Level): Found {
    if Invalid(pte) then NoLeaf else Leaf(pte, level)
  }

  lemma WalkEndsAt(bus: Bus, cut: Cut, table: nat, va: Word, i: Level)
    requires var pte := EntryAt(bus, EntryAddr(table, va, i)); Invalid(pte) || IsLeaf(pte)
    ensures Walk(bus, cut, table, va, i) == FoundAt(EntryAt(bus, EntryAddr(table, va, i)), i)
  {
    hide EntryAt;
  }

  lemma WalkFollows(bus: Bus, cut: Cut, table: nat, va: Word, i: Level)
    requires var pte := EntryAt(bus, EntryAddr(table, va, i)); i > 0 && !Invalid(pte) && !IsLeaf(pte)
    ensures Walk(bus, cut, table, va, i) == Walk(bus, cut, Base(EntryAt(bus, EntryAddr(table, va, i)).ppn, cut), va, i - 1)
  {
    hide EntryAt;
  }

  lemma EntryFrameNumber(bus: Bus, a: nat)
    ensures EntryAt(bus, a).ppn < 0x1000_0000_0000
  {
    hide PRead;
  }

  /** Once a pointer names a high frame, the standard's walk reads a word beyond the
      reach of the emulator, and ends there if that word is v. */
  lemma {:induction false} HighPointer(bus: Bus, table: nat, va: Word, i: Level, v: Word) returns (a: nat, level: Level)
    requires !PointersFit(bus, table, va, i) && table % 0x1000 == 0 && table < EMULATOR
    requires Invalid(Decode(v)) || IsLeaf(Decode(v))
    ensures a >= EMULATOR && Walk(Patched(bus, a, v), STANDARD, table, va, i) == FoundAt(Decode(v), level)
    decreases i
  {
    hide EntryAt, Decode, Patched, Walk, Base, FoundAt;
    var e := EntryAddr(table, va, i);
    var pte := EntryAt(bus, e);
    EntryBelow(table, va, i);
    EntryFrameNumber(bus, e);
    if pte.ppn >= FRAME_LIMIT {
      var next := Base(pte.ppn, STANDARD);
      HighBase(pte.ppn);
      a, level := EntryAddr(next, va, i - 1), i - 1;
      PatchedEntry(bus, a, v, e);
      PatchedEntry(bus, a, v, a);
      WalkEndsAt(Patched(bus, a, v), STANDARD, next, va, i - 1);
    } else {
      BaseAgrees(pte.ppn);
      BaseBelow(pte.ppn);
      a, level := HighPointer(bus, Base(pte.ppn, EMULATOR), va, i - 1, v);
      PatchedEntry(bus, a, v, e);
    }
    WalkFollows(Patched(bus, a, v), STANDARD, table, va, i);
  }

  /** The same from the root. */
  lemma HighTable(bus: Bus, root: nat, va: Word, v: Word) returns (a: nat, level: Level)
    requires root < 0x1000_0000_0000 && !(root < FRAME_LIMIT && PointersFit(bus, Base(root, EMULATOR), va, 2))
    requires Invalid(Decode(v)) || IsLeaf(Decode(v))
    ensures a >= EMULATOR && Walk(Patched(bus, a, v), STANDARD, Base(root, STANDARD), va, 2) == FoundAt(Decode(v), level)
  {
    hide EntryAt, Decode, Patched, Walk, Base, FoundAt;
    if root >= FRAME_LIMIT {
      HighBase(root);
      a, level := EntryAddr(Base(root, STANDARD), va, 2), 2;
      PatchedEntry(bus, a, v, a);
      WalkEndsAt(Patched(bus, a, v), STANDARD, Base(root, STANDARD), va, 2);
    } else {
      BaseAgrees(root);
      BaseBelow(root);
      a, level := HighPointer(bus, Base(root, EMULATOR), va, 2, v);
    }
  }

  /** The other memory holds the same table words where the emulator's walk reads. */
  predicate SameWalk(bus: Bus, bus': Bus, root: nat, va: Word) {
    forall e :: e in Entries(bus, EMULATOR, Base(root, EMULATOR), va, 2) ==> EntryAt(bus', e) == EntryAt(bus, e)
  }

  /** Everything that the emulator follows lies below 2^44: the root table, the
      pointers of the walk and a granted leaf. */
  predicate FramesFit(bus: Bus, root: nat, who: Rights, va: Word, t: MemType) {
    && root < FRAME_LIMIT && PointersFit(bus, Base(root, EMULATOR), va, 2)
    && (Translate(bus, EMULATOR, root, who, va, t).Page? ==>
          Walk(bus, EMULATOR, Base(root, EMULATOR), va, 2).pte.ppn < FRAME_LIMIT)
  }

  lemma PatchedSameWalk(bus: Bus, root: nat, va: Word, a: nat, v: Word)
    requires a >= EMULATOR
    ensures SameWalk(bus, Patched(bus, a, v), root, va)
    ensures Walk(Patched(bus, a, v), EMULATOR, Base(root, EMULATOR), va, 2) == Walk(bus, EMULATOR, Base(root, EMULATOR), va, 2)
  {
    hide EntryAt, Patched, Walk, Entries, Base;
    BaseBelow(root);
    EntriesBelow(bus, Base(root, EMULATOR), va, 2);
    forall e | e in Entries(bus, EMULATOR, Base(root, EMULATOR), va, 2) ensures EntryAt(Patched(bus, a, v), e) == EntryAt(bus, e) {
      PatchedEntry(bus, a, v, e);
    }
    WalkFrame(bus, Patched(bus, a, v), EMULATOR, Base(root, EMULATOR), va, 2);
  }

  /** An invalid word, and a leaf for frame 0 that grants everything to U or S. */
  function Grants(who: Rights): Word {
    if who.mode.ModeU? then 0xdf else 0xcf
  }

  lemma GrantsEverything(who: Rights, t: MemType, level: Level, va: Word)
    requires who.mode.ModeU? || who.mode.ModeS?
    ensures !Invalid(Decode(Grants(who))) && IsLeaf(Decode(Grants(who))) && Allowed(who, Decode(Grants(who)), t)
    ensures LeafPage(Decode(Grants(who)), level, va, STANDARD).Page?
    ensures Invalid(Decode(0))
  {
    hide Base;
  }

  /** Above 2^44 the emulator departs: some memory that looks the same to its walk
      is translated differently by the standard. */
  lemma HighFramesDepart(bus: Bus, root: nat, who: Rights, va: Word, t: MemType) returns (bus': Bus)
    requires root < 0x1000_0000_0000 && Canonical(va) && (who.mode.ModeU? || who.mode.ModeS?)
    requires !FramesFit(bus, root, who, va, t)
    ensures SameWalk(bus, bus', root, va)
    ensures Translate(bus', EMULATOR, root, who, va, t) != Translate(bus', STANDARD, root, who, va, t)
  {
    if root < FRAME_LIMIT && PointersFit(bus, Base(root, EMULATOR), va, 2) {
      bus' := bus;
      hide EntryAt;
      BaseAgrees(root);
      WalkAgrees(bus, Base(root, EMULATOR), va, 2);
      EmulatorMeetsStandard(bus, root, who, va, t);
      hide Walk, Allowed, PointersFit, Base, Canonical, Entries;
    } else {
      hide Walk, Allowed, PointersFit, Base, Canonical, Entries, EntryAt, SameWalk, Patched, Decode, LeafPage;
      var v := if Translate(bus, EMULATOR, root, who, va, t).Page? then 0 else Grants(who);
      GrantsEverything(who, t, 0, va);
      var a, level := HighTable(bus, root, va, v);
      GrantsEverything(who, t, level, va);
      PatchedSameWalk(bus, root, va, a, v);
      bus' := Patched(bus, a, v);
    }
  }

  lemma FramesFitElsewhere(bus: Bus, bus': Bus, root: nat, who: Rights, va: Word, t: MemType)
    requires FramesFit(bus, root, who, va, t) && SameWalk(bus, bus', root, va)
    ensures Translate(bus', EMULATOR, root, who, va, t) == Translate(bus', STANDARD, root, who, va, t)
  {
    hide EntryAt;
    WalkFrame(bus, bus', EMULATOR, Base(root, EMULATOR), va, 2);
    PointersFitFrame(bus, bus', Base(root, EMULATOR), va, 2);
    BaseAgrees(root);
    WalkAgrees(bus', Base(root, EMULATOR), va, 2);
    EmulatorMeetsStandard(bus', root, who, va, t);
    hide Walk, Allowed, PointersFit, LeafPage, Base, Canonical, Entries;
  }

  lemma {:induction false} PointersFitFrame(bus: Bus, bus': Bus, table: nat, va: Word, i: Level)
    requires forall e :: e in Entries(bus, EMULATOR, table, va, i) ==> EntryAt(bus', e) == EntryAt(bus, e)
    ensures PointersFit(bus', table, va, i) == PointersFit(bus, table, va, i)
    decreases i
  {
    hide EntryAt, Base;
    var e := EntryAddr(table, va, i);
    assert e in Entries(bus, EMULATOR, table, va, i);
    var pte := EntryAt(bus, e);
    if !Invalid(pte) && !IsLeaf(pte) && i > 0 {
      PointersFitFrame(bus, bus', Base(pte.ppn, EMULATOR), va, i - 1);
    }
  }

  lemma UntranslatedMode(bus: Bus, cut: Cut, root: nat, who: Rights, va: Word, t: MemType)
    requires !Canonical(va) || !(who.mode.ModeU? || who.mode.ModeS?)
    ensures Translate(bus, cut, root, who, va, t) == Fault
  {
    hide Walk, LeafPage, Canonical, Base;
  }

  /** The exact reach of the 44-bit arithmetic, for every memory, root, address,
      access and mode: the words that the emulator's walk reads guarantee the
      standard's translation if and only if nothing can be granted at all, or
      every frame that the walk follows lies below 2^32. */
  lemma StandardIsGuaranteedExactly(bus: Bus, root: nat, who: Rights, va: Word, t: MemType)
    requires root < 0x1000_0000_0000
    ensures (forall bus': Bus :: SameWalk(bus, bus', root, va) ==>
                Translate(bus', EMULATOR, root, who, va, t) == Translate(bus', STANDARD, root, who, va, t))
            <==> !Canonical(va) || !(who.mode.ModeU? || who.mode.ModeS?) || FramesFit(bus, root, who, va, t)
  {
    hide Canonical, FramesFit, SameWalk, Translate;
    if !Canonical(va) || !(who.mode.ModeU? || who.mode.ModeS?) {
      forall bus': Bus | SameWalk(bus, bus', root, va)
        ensures Translate(bus', EMULATOR, root, who, va, t) == Translate(bus', STANDARD, root, who, va, t)
      {
        UntranslatedMode(bus', EMULATOR, root, who, va, t);
        UntranslatedMode(bus', STANDARD, root, who, va, t);
      }
    } else if FramesFit(bus, root, who, va, t) {
      forall bus': Bus | SameWalk(bus, bus', root, va)
        ensures Translate(bus', EMULATOR, root, who, va, t) == Translate(bus', STANDARD, root, who, va, t)
      {
        FramesFitElsewhere(bus, bus', root, who, va, t);
      }
    } else {
      var other := HighFramesDepart(bus, root, who, va, t);
    }
  }

  /** A gigapage for frame 0x100080000, readable, writable, executable, accessed
      and dirty in U mode. */
  const HIGH_LEAF: Word := 0x400_2000_00df

  lemma HighLeafDecodes()
    ensures Decode(HIGH_LEAF) == Pte(true, true, true, true, true, true, true, 0x1_0008_0000)
  {}

  lemma LeafInRoot(bus: Bus, cut: Cut)
    requires !Invalid(EntryAt(bus, 0x8000_0000)) && IsLeaf(EntryAt(bus, 0x8000_0000))
    ensures Walk(bus, cut, Base(0x8_0000, cut), 0, 2) == Leaf(EntryAt(bus, 0x8000_0000), 2)
  {
    hide EntryAt, EntryAddr, Base, Walk;
    FirstRootEntry(cut);
    WalkEndsAt(bus, cut, Base(0x8_0000, cut), 0, 2);
  }

  lemma FirstRootEntry(cut: Cut)
    ensures EntryAddr(Base(0x8_0000, cut), 0, 2) == 0x8000_0000
  {}

  /** The page of that entry, by either arithmetic. */
  lemma HighLeafPage()
    ensures var pte := Pte(true, true, true, true, true, true, true, 0x1_0008_0000);
            LeafPage(pte, 2, 0, EMULATOR) == Page(0x8000_0000) && LeafPage(pte, 2, 0, STANDARD) == Page(0x1000_8000_0000)
  {}

  /** Where the two part: with that entry first in the root table, a U-mode read of
      address 0 goes to RAM in the emulator, and to 0x100080000000 in the standard. */
  lemma HighFrameIsReplaced(bus: Bus, sum: bool, mxr: bool)
    requires PRead(bus, 0x8000_0000, 8) == HIGH_LEAF
    ensures Translate(bus, EMULATOR, 0x8_0000, Rights(ModeU, sum, mxr), 0, Read) == Page(0x8000_0000)
    ensures Translate(bus, STANDARD, 0x8_0000, Rights(ModeU, sum, mxr), 0, Read) == Page(0x1000_8000_0000)
  {
    HighLeafDecodes();
    assert EntryAt(bus, 0x8000_0000) == Decode(HIGH_LEAF);
    hide Walk, EntryAt, Decode, PRead, LeafPage, Base;
    HighLeafPage();
    LeafInRoot(bus, EMULATOR);
    LeafInRoot(bus, STANDARD);
  }

  // ----- splitting a superpage -----

  predicate InTable(a: nat, table: nat) {
    table <= a < table + 0x1000
  }

  /** bus' is bus with the aligned leaf at address e (a level-`level` entry)
      replaced by a pointer to `table`, whose 512 entries are next-level leaves
      with the same flags and consecutive frames, and no other table word changed. */
  ghost predicate Splits(bus: Bus, bus': Bus, cut: Cut, e: nat, level: Level, table: nat) {
    var leaf := EntryAt(bus, e);
    var pointer := EntryAt(bus', e);
    && level > 0
    && !Invalid(leaf) && IsLeaf(leaf) && leaf.ppn % Span(level) == 0
    && !Invalid(pointer) && !IsLeaf(pointer) && Base(pointer.ppn, cut) == table
    && (forall k: nat :: k < 512 ==> EntryAt(bus', Slot(table, k)) == leaf.(ppn := leaf.ppn + k * Span(level - 1)))
    && (forall a: nat :: a % 8 == 0 && a != e && !InTable(a, table) ==> EntryAt(bus', a) == EntryAt(bus, a))
  }

  /** A walk (reading the words es from level i down) stays clear of the new
      table and meets the split entry, if at all, at its own level. */
  ghost predicate SplitIsLocal(es: seq<nat>, i: Level, e: nat, level: Level, table: nat) {
    forall j :: 0 <= j < |es| ==> !InTable(es[j], table) && (es[j] == e ==> i - j == level)
  }

  function Child(leaf: Pte, va: Word, level: Level): Pte
    requires level > 0
  {
    leaf.(ppn := leaf.ppn + Vpn(va, level - 1) * Span(level - 1))
  }

  lemma EntriesAreAligned(table: nat, va: Word, i: Level)
    requires table % 8 == 0
    ensures EntryAddr(table, va, i) % 8 == 0
  {
    hide Vpn;
  }

  /** Below the split entry, the walk finds the child that va selects. */
  lemma WalkOfSplitEntry(bus: Bus, bus': Bus, cut: Cut, va: Word, e: nat, level: Level, table: nat)
    requires Splits(bus, bus', cut, e, level, table)
    ensures Walk(bus', cut, table, va, level - 1) == Leaf(Child(EntryAt(bus, e), va, level), level - 1)
  {
    hide Decode, PRead;
    assert EntryAt(bus', Slot(table, Vpn(va, level - 1))) == Child(EntryAt(bus, e), va, level);
  }

  lemma OutsideSplit(bus: Bus, bus': Bus, cut: Cut, e: nat, level: Level, table: nat, a: nat)
    requires Splits(bus, bus', cut, e, level, table) && a % 8 == 0 && a != e && !InTable(a, table)
    ensures EntryAt(bus', a) == EntryAt(bus, a)
  {
    hide EntryAt;
  }

  /** Either the walk is the same, or it met the superpage and now finds its
      child one level further down. */
  lemma {:induction false} SplitWalk(bus: Bus, bus': Bus, cut: Cut, root: nat, va: Word, i: Level, e: nat, level: Level, table: nat)
    requires Splits(bus, bus', cut, e, level, table)
    requires SplitIsLocal(Entries(bus, cut, root, va, i), i, e, level, table) && root % 8 == 0
    ensures || Walk(bus', cut, root, va, i) == Walk(bus, cut, root, va, i)
            || (&& Walk(bus, cut, root, va, i) == Leaf(EntryAt(bus, e), level)
                && Walk(bus', cut, root, va, i) == Leaf(Child(EntryAt(bus, e), va, level), level - 1))
    decreases i
  {
    var es := Entries(bus, cut, root, va, i);
    var a := EntryAddr(root, va, i);
    var pte := EntryAt(bus, a);
    assert es[0] == a;
    EntriesAreAligned(root, va, i);
    if a == e {
      WalkOfSplitEntry(bus, bus', cut, va, e, level, table);
      hide EntryAt, Child, EntryAddr;
    } else {
      OutsideSplit(bus, bus', cut, e, level, table, a);
      hide EntryAt, Child, EntryAddr, Splits;
      if !Invalid(pte) && !IsLeaf(pte) && i > 0 {
        var next := Base(pte.ppn, cut);
        BaseIsWholePages(pte.ppn, cut);
        assert es[1..] == Entries(bus, cut, next, va, i - 1);
        assert SplitIsLocal(es[1..], i - 1, e, level, table) by {
          forall j | 0 <= j < |es[1..]| ensures es[1..][j] == es[j + 1] {}
        }
        SplitWalk(bus, bus', cut, next, va, i - 1, e, level, table);
      }
    }
  }

  /** The child that va selects is an aligned leaf for the same page. */
  lemma ChildPage(leaf: Pte, level: Level, va: Word, cut: Cut)
    requires level > 0 && leaf.ppn % Span(level) == 0
    ensures LeafPage(Child(leaf, va, level), level - 1, va, cut) == LeafPage(leaf, level, va, cut)
  {
    if level == 2 {
      var page := va / 0x1000;
      MiddlePart(va);
      DivModUnique(page, 0x4_0000, page / 0x200 / 0x200, Vpn(va, 1) * 0x200 + page % 0x200);
      DivModUnique(leaf.ppn + Vpn(va, 1) * 0x200, 0x200, leaf.ppn / 0x4_0000 * 0x200 + Vpn(va, 1), 0);
    }
  }

  lemma MiddlePart(va: Word)
    ensures Vpn(va, 1) == va / 0x1000 / 0x200 % 0x200
  {}

  /** Splitting a superpage changes no translation: for every address, access
      type and mode the same physical page or the same fault. */
  lemma SplittingPreservesTranslation(bus: Bus, bus': Bus, cut: Cut, root: nat, who: Rights, va: Word, t: MemType,
                                      e: nat, level: Level, table: nat)
    requires Splits(bus, bus', cut, e, level, table)
    requires SplitIsLocal(Entries(bus, cut, Base(root, cut), va, 2), 2, e, level, table)
    ensures Translate(bus', cut, root, who, va, t) == Translate(bus, cut, root, who, va, t)
  {
    BaseIsWholePages(root, cut);
    SplitWalk(bus, bus', cut, Base(root, cut), va, 2, e, level, table);
    hide Walk, Entries, EntryAt, Canonical, LeafPage, Base, Vpn, Span, SplitIsLocal;
    ChildPage(EntryAt(bus, e), level, va, cut);
  }
}
