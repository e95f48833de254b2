// An aligned access is the same as one access per byte: it never leaves its
// page, and translation ignores the page offset.
module Bytewise {
  import opened Bits
  import opened HartState
  import opened Paddr
  import opened Sv39
  import opened Mmu
  import opened Vaddr
  import opened VaddrProperties

  lemma SamePageIndices(va: Word, vb: Word)
    requires va / 0x1000 == vb / 0x1000
    ensures forall i: Level {:trigger Vpn(va, i)} :: Vpn(va, i) == Vpn(vb, i)
    ensures Canonical(va) == Canonical(vb)
  {
    forall i: Level ensures Vpn(va, i) == Vpn(vb, i) {
      if i == 1 {
        assert va / 0x20_0000 == va / 0x1000 / 0x200 && vb / 0x20_0000 == vb / 0x1000 / 0x200;
      } else if i == 2 {
        assert va / 0x4000_0000 == va / 0x1000 / 0x4_0000 && vb / 0x4000_0000 == vb / 0x1000 / 0x4_0000;
      }
    }
    assert va / 0x40_0000_0000 == va / 0x1000 / 0x400_0000 && vb / 0x40_0000_0000 == vb / 0x1000 / 0x400_0000;
  }

  lemma {:induction false} WalkIgnoresOffset(bus: Bus, table: nat, va: Word, vb: Word, i: Level)
    requires va / 0x1000 == vb / 0x1000
    ensures Walk(bus, EMULATOR, table, vb, i) == Walk(bus, EMULATOR, table, va, i)
    ensures Entries(bus, EMULATOR, table, vb, i) == Entries(bus, EMULATOR, table, va, i)
    decreases i
  {
    SamePageIndices(va, vb);
    hide Decode, PRead, Vpn;
    assert Vpn(va, i) == Vpn(vb, i);
    if i > 0 {
      WalkIgnoresOffset(bus, Base(EntryAt(bus, EntryAddr(table, va, i)).ppn, EMULATOR), va, vb, i - 1);
    }
  }

  /** Translation ignores the low twelve bits. */
  lemma TranslationIgnoresOffset(env: Env, va: Word, vb: Word, t: MemType)
    requires va / 0x1000 == vb / 0x1000
    ensures PageOf(env, vb, t) == PageOf(env, va, t) && CheckOf(env, vb, t) == CheckOf(env, va, t)
    ensures WalkWords(env, vb) == WalkWords(env, va)
  {
    SamePageIndices(va, vb);
    WalkIgnoresOffset(env.bus, RootTable(env.satp), va, vb, 2);
    hide Walk, Entries, Canonical, Vpn, Base, Allowed;
  }

  /** A multiple of len keeps its remainder through a larger power of two. */
  lemma OffsetIsAligned(va: Word, len: nat)
    requires AccessLength(len) && va % len == 0
    ensures va % 0x1000 % len == 0 && va % 0x1000 + len <= 0x1000
  {
    if len == 2 {
      var item := va / 2;
      DivModUnique(va, 0x1000, item / 0x800, item % 0x800 * 2);
      DivModUnique(item % 0x800 * 2, 2, item % 0x800, 0);
    } else if len == 4 {
      var item := va / 4;
      DivModUnique(va, 0x1000, item / 0x400, item % 0x400 * 4);
      DivModUnique(item % 0x400 * 4, 4, item % 0x400, 0);
    } else if len == 8 {
      var item := va / 8;
      DivModUnique(va, 0x1000, item / 0x200, item % 0x200 * 8);
      DivModUnique(item % 0x200 * 8, 8, item % 0x200, 0);
    }
  }

  lemma AlignedStaysInPage(va: Word, len: nat, k: nat)
    requires AccessLength(len) && va % len == 0 && k < len
    ensures va + k < TWO64 && (va + k) / 0x1000 == va / 0x1000 && (va + k) % 0x1000 == va % 0x1000 + k
  {
    OffsetIsAligned(va, len);
    DivModUnique(va + k, 0x1000, va / 0x1000, va % 0x1000 + k);
    assert va / 0x1000 <= 0xf_ffff_ffff_ffff;
  }

  lemma AlignedRange(pa: nat, off: nat, k: nat)
    requires pa % 0x1000 == off && off + k < 0x1000
    ensures InPmem(pa) ==> InPmem(pa + k)
  {}

  lemma PageIsAligned(env: Env, va: Word, t: MemType)
    requires PageOf(env, va, t).Page?
    ensures PageOf(env, va, t).base % 0x1000 == 0
  {
    hide Walk, Allowed, Canonical;
    var f := Walk(env.bus, EMULATOR, RootTable(env.satp), va, 2);
    BaseIsWholePages(f.pte.ppn + va / 0x1000 % Span(f.level), EMULATOR);
    hide Base;
  }

  /** Byte k of an access at va that resolves to RAM address pa goes to pa + k. */
  predicate ByteResolves(env: Env, x: Exc, va: nat, t: MemType, pa: nat, k: nat) {
    va + k < TWO64 && Resolve(env, x, va + k, t) == At(pa + k) && InPmem(pa + k)
  }

  lemma ResolveShift(env: Env, x: Exc, va: Word, t: MemType, k: nat)
    requires va + k < TWO64 && (va + k) % 0x1000 == va % 0x1000 + k
    requires PageOf(env, va + k, t) == PageOf(env, va, t) && CheckOf(env, va + k, t) == CheckOf(env, va, t)
    requires Resolve(env, x, va, t).At?
    ensures Resolve(env, x, va + k, t) == At(Resolve(env, x, va, t).pa + k)
  {
    hide PageOf, CheckOf;
  }

  lemma TargetOffset(env: Env, x: Exc, va: Word, t: MemType)
    requires Resolve(env, x, va, t).At?
    ensures Resolve(env, x, va, t).pa % 0x1000 == va % 0x1000
  {
    hide PageOf, CheckOf;
    if CheckOf(env, va, t).Translated? {
      PageIsAligned(env, va, t);
      OffsetOfSum(PageOf(env, va, t).base, va % 0x1000);
    }
  }

  lemma OffsetOfSum(base: nat, off: nat)
    requires base % 0x1000 == 0 && off < 0x1000
    ensures (base + off) % 0x1000 == off
  {}

  lemma BytesResolve(env: Env, x: Exc, va: Word, len: nat, t: MemType, k: nat)
    requires AccessLength(len) && va % len == 0 && k < len
    requires Resolve(env, x, va, t).At? && InPmem(Resolve(env, x, va, t).pa)
    ensures ByteResolves(env, x, va, t, Resolve(env, x, va, t).pa, k)
    ensures WalkWords(env, va + k) == WalkWords(env, va)
  {
    hide Resolve, PageOf, CheckOf, WalkWords, InPmem;
    AlignedStaysInPage(va, len, k);
    OffsetIsAligned(va, len);
    TranslationIgnoresOffset(env, va, va + k, t);
    ResolveShift(env, x, va, t, k);
    TargetOffset(env, x, va, t);
    AlignedRange(Resolve(env, x, va, t).pa, va % 0x1000, k);
  }

  // ----- loads -----

  /** The little-endian join of the one-byte loads at va + k .. va + n. */
  function JoinedReads(env: Env, x: Exc, va: nat, k: nat, n: nat): nat
    requires k <= n && va + n <= TWO64
    decreases n - k
  {
    if k == n then 0 else VRead(env, x, va + k, 1).1 + 256 * JoinedReads(env, x, va, k + 1, n)
  }

  lemma OneByteLoad(env: Env, x: Exc, va: nat, pa: nat, k: nat)
    requires ByteResolves(env, x, va, Read, pa, k)
    ensures VRead(env, x, va + k, 1) == (x, ByteAt(env.bus.ram, pa + k))
  {
    hide Resolve;
    assert Load(env.bus.ram, pa + k, 1) == ByteAt(env.bus.ram, pa + k);
  }

  lemma {:induction false} JoinedReadsAreLoad(env: Env, x: Exc, va: nat, k: nat, n: nat, pa: nat)
    requires k <= n && va + n <= TWO64
    requires forall j: nat :: j < n ==> ByteResolves(env, x, va, Read, pa, j)
    ensures JoinedReads(env, x, va, k, n) == Load(env.bus.ram, pa + k, n - k)
    decreases n - k
  {
    hide ByteResolves, VRead;
    if k < n {
      OneByteLoad(env, x, va, pa, k);
      JoinedReadsAreLoad(env, x, va, k + 1, n, pa);
    }
  }

  /** A successful aligned load from RAM is the little-endian join of the one-byte
      loads of its bytes, all of which succeed. */
  lemma AlignedLoadIsBytewise(env: Env, x: Exc, va: Word, len: nat)
    requires AccessLength(len) && !x.isExcept && !VRead(env, x, va, len).0.isExcept
    requires InPmem(Resolve(env, x, va, Read).pa)
    ensures va + len <= TWO64
    ensures forall k: nat :: k < len ==> ByteResolves(env, x, va, Read, Resolve(env, x, va, Read).pa, k)
    ensures VRead(env, x, va, len).1 == JoinedReads(env, x, va, 0, len)
  {
    assert len > 0;
    hide *;
    AlignedLoadValue(env, x, va, len);
    var pa := Resolve(env, x, va, Read).pa;
    AlignedStaysInPage(va, len, len - 1);
    forall k: nat | k < len ensures ByteResolves(env, x, va, Read, pa, k) {
      BytesResolve(env, x, va, len, Read, k);
    }
    JoinedReadsAreLoad(env, x, va, 0, len, pa);
  }

  lemma AlignedLoadValue(env: Env, x: Exc, va: Word, len: nat)
    requires AccessLength(len) && !x.isExcept && !VRead(env, x, va, len).0.isExcept
    requires InPmem(Resolve(env, x, va, Read).pa)
    ensures va % len == 0 && Resolve(env, x, va, Read).At?
    ensures VRead(env, x, va, len).1 == Load(env.bus.ram, Resolve(env, x, va, Read).pa, len)
  {
    hide CheckOf, PageOf;
  }

  // ----- stores -----

  /** One-byte stores of the little-endian bytes of d at va + k .. va + n. */
  function StoredBytewise(env: Env, x: Exc, va: nat, k: nat, n: nat, d: Word): Bus
    requires k <= n && va + n <= TWO64
    decreases n - k
  {
    if k == n then env.bus
    else StoredBytewise(env.(bus := VWrite(env, x, va + k, 1, d).1), x, va, k + 1, n, d / 256)
  }

  lemma OneByteStore(env: Env, x: Exc, va: nat, pa: nat, k: nat, d: Word)
    requires ByteResolves(env, x, va, Write, pa, k)
    ensures VWrite(env, x, va + k, 1, d) == (x, PWrite(env.bus, pa + k, 1, d))
    ensures PWrite(env.bus, pa + k, 1, d) == env.bus.(ram := env.bus.ram[pa + k := d % 256])
  {
    hide Resolve;
    assert Store(env.bus.ram, pa + k, 1, d) == env.bus.ram[pa + k := d % 256];
  }

  /** Byte j of a store at va goes to pa + j, and none of the n stored bytes is
      a table word of its walk. */
  predicate BytePlaced(env: Env, x: Exc, va: nat, pa: nat, n: nat, j: nat) {
    ByteResolves(env, x, va, Write, pa, j) && MissesWalk(env, va + j, pa, n)
  }

  /** Byte j is still where it was after another byte has been stored. */
  lemma StillResolves(env: Env, x: Exc, va: nat, pa: nat, n: nat, j: nat, k: nat, d: Word)
    requires k < n && BytePlaced(env, x, va, pa, n, j)
    ensures BytePlaced(env.(bus := PWrite(env.bus, pa + k, 1, d)), x, va, pa, n, j)
  {
    hide Resolve, WalkWords, PWrite, InPmem;
    TranslationAfterStore(env, x, va + j, Write, pa + k, 1, d);
  }

  lemma {:induction false} BytewiseStoresAreStore(env: Env, x: Exc, va: nat, k: nat, n: nat, d: Word, pa: nat)
    requires k <= n && va + n <= TWO64
    requires forall j: nat :: j < n ==> BytePlaced(env, x, va, pa, n, j)
    ensures StoredBytewise(env, x, va, k, n, d) == env.bus.(ram := Store(env.bus.ram, pa + k, n - k, d))
    decreases n - k
  {
    hide ByteResolves, MissesWalk, VWrite, PWrite, Resolve;
    if k < n {
      assert BytePlaced(env, x, va, pa, n, k);
      OneByteStore(env, x, va, pa, k, d);
      var env1 := env.(bus := PWrite(env.bus, pa + k, 1, d));
      hide BytePlaced;
      forall j: nat | j < n ensures BytePlaced(env1, x, va, pa, n, j) {
        StillResolves(env, x, va, pa, n, j, k, d);
      }
      BytewiseStoresAreStore(env1, x, va, k + 1, n, d / 256, pa);
    }
  }

  lemma BytesPlaced(env: Env, x: Exc, va: Word, len: nat, k: nat)
    requires AccessLength(len) && va % len == 0 && k < len
    requires Resolve(env, x, va, Write).At? && InPmem(Resolve(env, x, va, Write).pa)
    requires MissesWalk(env, va, Resolve(env, x, va, Write).pa, len)
    ensures BytePlaced(env, x, va, Resolve(env, x, va, Write).pa, len, k)
  {
    BytesResolve(env, x, va, len, Write, k);
    hide Resolve, WalkWords, InPmem;
  }

  /** A successful aligned store to RAM outside its own walk is the same as the
      one-byte stores of its bytes. */
  lemma AlignedStoreIsBytewise(env: Env, x: Exc, va: Word, len: nat, d: Word)
    requires AccessLength(len) && !x.isExcept && !VWrite(env, x, va, len, d).0.isExcept
    requires InPmem(Resolve(env, x, va, Write).pa)
    requires MissesWalk(env, va, Resolve(env, x, va, Write).pa, len)
    ensures va + len <= TWO64
    ensures VWrite(env, x, va, len, d).1 == StoredBytewise(env, x, va, 0, len, d)
  {
    AlignedStoreEffect(env, x, va, len, d);
    AlignedStaysInPage(va, len, len - 1);
    hide *;
    var pa := Resolve(env, x, va, Write).pa;
    forall k: nat | k < len ensures BytePlaced(env, x, va, pa, len, k) {
      BytesPlaced(env, x, va, len, k);
    }
    BytewiseStoresAreStore(env, x, va, 0, len, d, pa);
  }

  lemma AlignedStoreEffect(env: Env, x: Exc, va: Word, len: nat, d: Word)
    requires AccessLength(len) && !x.isExcept && !VWrite(env, x, va, len, d).0.isExcept
    requires InPmem(Resolve(env, x, va, Write).pa)
    ensures va % len == 0 && Resolve(env, x, va, Write).At?
    ensures VWrite(env, x, va, len, d).1 == env.bus.(ram := Store(env.bus.ram, Resolve(env, x, va, Write).pa, len, d))
  {
    hide CheckOf, PageOf;
  }
}
