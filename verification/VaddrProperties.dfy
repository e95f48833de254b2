// Loads and stores through the MMU: a store is read back, leaves unrelated
// accesses alone, and an aligned access is the same as its single bytes.
module VaddrProperties {
  import opened Bits
  import opened HartState
  import opened Paddr
  import opened Sv39
  import opened Mmu
  import opened Vaddr
  import TranslationProperties

  predicate Disjoint(a: nat, m: nat, b: nat, n: nat) {
    a + m <= b || b + n <= a
  }

  // ----- bytes of RAM -----

  lemma {:induction false} StoreElsewhere(ram: map<nat, Byte>, a: nat, n: nat, d: nat, b: nat)
    requires b < a || a + n <= b
    ensures ByteAt(Store(ram, a, n, d), b) == ByteAt(ram, b)
    decreases n
  {
    if n > 0 {
      StoreElsewhere(ram[a := d % 256], a + 1, n - 1, d / 256, b);
    }
  }

  lemma {:induction false} LoadFrame(ram: map<nat, Byte>, ram': map<nat, Byte>, a: nat, n: nat)
    requires forall b :: a <= b < a + n ==> ByteAt(ram', b) == ByteAt(ram, b)
    ensures Load(ram', a, n) == Load(ram, a, n)
    decreases n
  {
    if n > 0 {
      LoadFrame(ram, ram', a + 1, n - 1);
    }
  }

  lemma LoadAfterDisjointStore(ram: map<nat, Byte>, a: nat, n: nat, d: nat, b: nat, m: nat)
    requires Disjoint(a, n, b, m)
    ensures Load(Store(ram, a, n, d), b, m) == Load(ram, b, m)
  {
    forall c | b <= c < b + m ensures ByteAt(Store(ram, a, n, d), c) == ByteAt(ram, c) {
      StoreElsewhere(ram, a, n, d, c);
    }
    LoadFrame(ram, Store(ram, a, n, d), b, m);
  }

  lemma {:induction false} LoadAfterStore(ram: map<nat, Byte>, a: nat, n: nat, d: nat)
    ensures Load(Store(ram, a, n, d), a, n) == d % Pow2(8 * n)
    decreases n
  {
    if n > 0 {
      var ram1 := ram[a := d % 256];
      LoadAfterStore(ram1, a + 1, n - 1, d / 256);
      StoreElsewhere(ram1, a + 1, n - 1, d / 256, a);
      LowBytes(d, 8 * (n - 1));
    }
  }

  lemma LowBytes(d: nat, k: nat)
    ensures d % Pow2(8 + k) == d % 256 + 256 * (d / 256 % Pow2(k))
  {
    assert Pow2(8) == 256;
    Pow2Sum(8, k);
    var hi, lo := d / 256 / Pow2(k), d / 256 % Pow2(k);
    assert d / 256 == hi * Pow2(k) + lo;
    assert 256 * (hi * Pow2(k)) == hi * Pow2(8 + k);
    DivModUnique(d, Pow2(8 + k), hi, d % 256 + 256 * lo);
  }

  lemma PReadAfterPWrite(bus: Bus, a: nat, n: nat, d: Word, b: nat, m: nat)
    requires Disjoint(a, n, b, m)
    ensures PRead(PWrite(bus, a, n, d), b, m) == PRead(bus, b, m)
  {
    LoadAfterDisjointStore(bus.ram, a, n, d, b, m);
  }

  // ----- stores and walks -----

  /** The table words read when translating va. */
  function WalkWords(env: Env, va: Word): seq<nat> {
    Entries(env.bus, EMULATOR, RootTable(env.satp), va, 2)
  }

  /** The stored bytes miss every table word of va's walk. */
  predicate MissesWalk(env: Env, va: Word, pa: nat, len: nat) {
    forall e :: e in WalkWords(env, va) ==> Disjoint(pa, len, e, 8)
  }

  /** A store outside the walk's words changes no translation of va. */
  lemma TranslationAfterStore(env: Env, x: Exc, va: Word, t: MemType, pa: nat, len: nat, d: Word)
    requires MissesWalk(env, va, pa, len)
    ensures Resolve(env.(bus := PWrite(env.bus, pa, len, d)), x, va, t) == Resolve(env, x, va, t)
    ensures WalkWords(env.(bus := PWrite(env.bus, pa, len, d)), va) == WalkWords(env, va)
  {
    var bus' := PWrite(env.bus, pa, len, d);
    hide Decode, PRead, PWrite, Walk, Entries;
    forall e | e in WalkWords(env, va) ensures EntryAt(bus', e) == EntryAt(env.bus, e) {
      PReadAfterPWrite(env.bus, pa, len, d, e, 8);
    }
    TranslationProperties.WalkFrame(env.bus, bus', EMULATOR, RootTable(env.satp), va, 2);
  }

  /** Permission to write a page implies permission to read it, at the same place. */
  lemma WritableIsReadable(env: Env, x: Exc, va: Word)
    requires Resolve(env, x, va, Write).At?
    ensures Resolve(env, x, va, Read) == Resolve(env, x, va, Write)
  {
    TranslationProperties.WalkedLeafIsValid(env.bus, EMULATOR, RootTable(env.satp), va, 2);
    hide Walk, LeafPage, Base, Canonical, Mpp;
  }

  /** A successful store to RAM is read back: the load at the same address
      succeeds and returns the low bytes stored. */
  lemma StoreThenLoad(env: Env, x: Exc, va: Word, len: nat, d: Word)
    requires AccessLength(len) && !x.isExcept && !VWrite(env, x, va, len, d).0.isExcept
    requires InPmem(Resolve(env, x, va, Write).pa)
    requires MissesWalk(env, va, Resolve(env, x, va, Write).pa, len)
    ensures VRead(env.(bus := VWrite(env, x, va, len, d).1), x, va, len) == (x, d % Pow2(8 * len))
  {
    var pa := Resolve(env, x, va, Write).pa;
    WritableIsReadable(env, x, va);
    TranslationAfterStore(env, x, va, Read, pa, len, d);
    LoadAfterStore(env.bus.ram, pa, len, d);
    hide Resolve, WalkWords, Store, Load, MissesWalk;
  }

  /** The bytes an access would touch, if it gets that far, are disjoint from the
      stored ones. */
  predicate MissesTarget(a: Access, m: nat, pa: nat, len: nat) {
    a.At? ==> Disjoint(pa, len, a.pa, m)
  }

  /** Where a store writes, if it writes at all: a misaligned store does so only
      when addresses are not translated. */
  function StoreTarget(env: Env, x: Exc, va: Word, len: nat): Access
    requires AccessLength(len)
  {
    if va % len != 0 && !CheckOf(env, va, Write).Direct? then Refused(x) else Resolve(env, x, va, Write)
  }

  lemma StoreGoesToTarget(env: Env, x: Exc, va: Word, len: nat, d: Word)
    requires AccessLength(len)
    ensures VWrite(env, x, va, len, d).1
            == match StoreTarget(env, x, va, len)
               case Refused(_) => env.bus
               case At(pa) => PWrite(env.bus, pa, len, d)
  {
    hide PWrite, PageOf, CheckOf;
  }

  /** Any store, successful or not, leaves every load alone whose walk and target
      it does not overwrite, including which exception the load raises; a store
      that writes nothing leaves every load alone. */
  lemma LoadAfterOtherStore(env: Env, x: Exc, va: Word, len: nat, d: Word, x2: Exc, vb: Word, m: nat)
    requires AccessLength(len) && AccessLength(m)
    requires var target := StoreTarget(env, x, va, len);
             target.At? ==> MissesWalk(env, vb, target.pa, len) && MissesTarget(Resolve(env, x2, vb, Read), m, target.pa, len)
    ensures VRead(env.(bus := VWrite(env, x, va, len, d).1), x2, vb, m) == VRead(env, x2, vb, m)
  {
    StoreGoesToTarget(env, x, va, len, d);
    hide Resolve, WalkWords, PWrite, PRead, VWrite, StoreTarget, MissesWalk;
    match StoreTarget(env, x, va, len) {
      case Refused(_) => assert env.(bus := env.bus) == env;
      case At(pa) =>
        TranslationAfterStore(env, x2, vb, Read, pa, len, d);
        match Resolve(env, x2, vb, Read) {
          case Refused(_) =>
          case At(pb) => PReadAfterPWrite(env.bus, pa, len, d, pb, m);
        }
    }
  }
}
