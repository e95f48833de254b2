// Atomic memory operations: all or nothing, and the right operation at its own
// width although the emulator computes on 64-bit values.
module AmoProperties {
  import opened Bits
  import opened HartState
  import opened Paddr
  import opened Mmu
  import opened Vaddr
  import opened VaddrProperties
  import opened Inst

  function Modulus(wide: bool): (m: nat)
    ensures m > 0
  {
    if wide then TWO64 else TWO32
  }

  /** Two's complement reading of a value below m. */
  function SignedAt(x: nat, m: nat): int {
    if 2 * x < m then x else x - m
  }

  /** The operation on values of the AMO's own width. */
  function AmoResult(op: AmoKind, m: nat, old_: nat, src: nat): nat
    requires m > 0
  {
    match op
    case SWAP => src
    case ADD => (old_ + src) % m
    case LXOR => Logic(XOR, src, old_)
    case LAND => Logic(AND, src, old_)
    case LOR => Logic(OR, src, old_)
    case MIN => if SignedAt(old_, m) < SignedAt(src, m) then old_ else src
    case MAX => if SignedAt(old_, m) > SignedAt(src, m) then old_ else src
    case MINU => if old_ < src then old_ else src
    case MAXU => if old_ > src then old_ else src
  }

  /** The logical AMOs, bit by bit, and the arithmetic ones by comparison: the
      result of MIN and MAX is one of the operands and bounds both. */
  lemma AmoLaws(m: nat, old_: nat, src: nat, i: nat)
    requires m > 0
    ensures Bit(AmoResult(LXOR, m, old_, src), i) == (Bit(old_, i) != Bit(src, i))
    ensures Bit(AmoResult(LAND, m, old_, src), i) == (Bit(old_, i) && Bit(src, i))
    ensures Bit(AmoResult(LOR, m, old_, src), i) == (Bit(old_, i) || Bit(src, i))
    ensures AmoResult(SWAP, m, old_, src) == src
    ensures var low := AmoResult(MIN, m, old_, src);
            low in {old_, src} && SignedAt(low, m) <= SignedAt(old_, m) && SignedAt(low, m) <= SignedAt(src, m)
    ensures var high := AmoResult(MAX, m, old_, src);
            high in {old_, src} && SignedAt(high, m) >= SignedAt(old_, m) && SignedAt(high, m) >= SignedAt(src, m)
    ensures AmoResult(MINU, m, old_, src) in {old_, src} && AmoResult(MINU, m, old_, src) <= old_ && AmoResult(MINU, m, old_, src) <= src
    ensures AmoResult(MAXU, m, old_, src) in {old_, src} && AmoResult(MAXU, m, old_, src) >= old_ && AmoResult(MAXU, m, old_, src) >= src
  {
    LogicBit(XOR, src, old_, i);
    LogicBit(AND, src, old_, i);
    LogicBit(OR, src, old_, i);
    hide Bit, Logic, SignedAt;
  }

  /** The sum of an AMOADD is the number congruent to it below the modulus. */
  lemma AmoAddWraps(m: nat, old_: nat, src: nat)
    requires old_ < m && src < m
    ensures AmoResult(ADD, m, old_, src) == if old_ + src < m then old_ + src else old_ + src - m
  {
    if old_ + src >= m {
      DivModUnique(old_ + src, m, 1, old_ + src - m);
    } else {
      DivModUnique(old_ + src, m, 0, old_ + src);
    }
  }

  lemma {:induction false} LogicMod(op: LogicOp, x: nat, y: nat, k: nat)
    ensures Logic(op, x, y) % Pow2(k) == Logic(op, x % Pow2(k), y % Pow2(k))
    decreases k
  {
    if k > 0 {
      LogicMod(op, x / 2, y / 2, k - 1);
      ModTwice(x, k);
      ModTwice(y, k);
      ModTwice(Logic(op, x, y), k);
      LogicHalf(op, x, y);
      LogicHalf(op, x % Pow2(k), y % Pow2(k));
    }
  }

  lemma LogicHalf(op: LogicOp, x: nat, y: nat)
    ensures Logic(op, x, y) / 2 == Logic(op, x / 2, y / 2)
    ensures Logic(op, x, y) % 2 == Digit(Apply(op, Odd(x), Odd(y)))
  {}

  /** Sign extension preserves both the signed order and, compared as unsigned
      64-bit numbers, the unsigned 32-bit order. */
  lemma SignExtensionPreservesOrder(x: Word, y: Word)
    ensures Signed(SignExtend(x, 4)) < Signed(SignExtend(y, 4))
            <==> SignedAt(x % TWO32, TWO32) < SignedAt(y % TWO32, TWO32)
    ensures SignExtend(x, 4) < SignExtend(y, 4) <==> x % TWO32 < y % TWO32
    ensures SignExtend(x, 4) % TWO32 == x % TWO32
  {}

  /** SEXT reads the low 8 * len bits as two's complement; a zero-extending load
      keeps them. */
  lemma SignExtendIsTwosComplement(x: Word, len: Len)
    ensures ZeroExtend(x, len) == x % Pow2(8 * len)
    ensures Signed(SignExtend(x, len)) == SignedAt(x % Pow2(8 * len), Pow2(8 * len))
  {
    Pow2Values();
    Pow2Sum(8, 8);
    assert Pow2(8 * 1) == 0x100 && Pow2(8 * 2) == 0x1_0000 && Pow2(8 * 4) == TWO32 && Pow2(8 * 8) == TWO64 by {
      assert Pow2(8) == 0x100;
    }
    assert AccessLength(len);
    hide Pow2;
  }

  lemma WideOrder(x: Word)
    ensures Signed(x) == SignedAt(x, TWO64) && x % TWO64 == x
  {}

  /** The value handed to the store agrees, at the width stored, with the
      operation at that width. */
  lemma StoredValueIsResult(op: AmoKind, wide: bool, loaded: Word, src: Word)
    requires loaded < Modulus(wide)
    ensures AmoStored(op, wide, loaded, src) % Modulus(wide) == AmoResult(op, Modulus(wide), loaded, src % Modulus(wide))
  {
    Pow2Values();
    hide Logic, Bitwise, SignExtend, Signed, SignedAt, Pow2;
    match op {
      case LXOR => LogicMod(XOR, src, loaded, if wide then 64 else 32); BitwiseIsLogic(XOR, src, loaded);
      case LAND => LogicMod(AND, src, loaded, if wide then 64 else 32); BitwiseIsLogic(AND, src, loaded);
      case LOR => LogicMod(OR, src, loaded, if wide then 64 else 32); BitwiseIsLogic(OR, src, loaded);
      case ADD => SumMod(src, loaded, wide);
      case SWAP =>
      case _ =>
        if wide {
          WideOrder(src);
          WideOrder(loaded);
        } else {
          SignExtensionPreservesOrder(src, loaded);
          SignExtensionPreservesOrder(loaded, src);
        }
    }
  }

  lemma BitwiseIsLogic(op: LogicOp, x: Word, y: Word)
    ensures Bitwise(op, x, y) == Logic(op, x, y)
  {}

  lemma SumMod(src: Word, loaded: Word, wide: bool)
    requires loaded < Modulus(wide)
    ensures Wrap(src + loaded) % Modulus(wide) == (loaded + src % Modulus(wide)) % Modulus(wide)
  {
    if !wide {
      var q, r := src / TWO32, src % TWO32;
      assert src + loaded == q * TWO32 + (r + loaded);
    }
  }

  lemma {:induction false} StoreTakesLowBytes(ram: map<nat, Byte>, a: nat, n: nat, d: nat)
    ensures Store(ram, a, n, d) == Store(ram, a, n, d % Pow2(8 * n))
    decreases n
  {
    if n > 0 {
      LowBytes(d, 8 * (n - 1));
      var low, rest := d % Pow2(8 * n), d / 256 % Pow2(8 * (n - 1));
      assert low == d % 256 + 256 * rest;
      DivModUnique(low, 256, rest, d % 256);
      StoreTakesLowBytes(ram[a := d % 256], a + 1, n - 1, d / 256);
    }
  }

  lemma PWriteTakesWidth(bus: Bus, a: nat, wide: bool, d: Word)
    ensures PWrite(bus, a, Width(wide), d) == PWrite(bus, a, Width(wide), d % Modulus(wide))
  {
    Pow2Values();
    StoreTakesLowBytes(bus.ram, a, Width(wide), d);
    hide Store, Pow2;
  }

  lemma LoadedFits(bus: Bus, a: nat, wide: bool)
    requires InPmem(a)
    ensures PRead(bus, a, Width(wide)) < Modulus(wide)
  {
    Pow2Values();
    LoadBound(bus.ram, a, Width(wide));
    hide Load, Pow2;
  }

  /** An AMO on RAM either raises an exception with registers and memory
      unchanged, or rd receives the old value (sign-extended) and memory the
      operation's result at the AMO's width. */
  lemma AmoIsAllOrNothing(h: Hart, i: Instr)
    requires i.Amo? && !h.x.isExcept
    requires Resolve(h.MmuEnv(), h.x.(amo := true), h.gpr[i.rs1], Write).At? ==>
               InPmem(Resolve(h.MmuEnv(), h.x.(amo := true), h.gpr[i.rs1], Write).pa)
    ensures var after := ExecAmo(h, i);
            var target := Resolve(h.MmuEnv(), h.x.(amo := true), h.gpr[i.rs1], Write);
            if after.x.isExcept then after == h.(x := after.x)
            else
              && target.At?
              && var pa, m := target.pa, Modulus(i.wide);
              var old_ := PRead(h.bus, pa, Width(i.wide));
              after == h.(x := after.x,
                          gpr := h.gpr[i.rd := SignExtend(old_, Width(i.wide))],
                          bus := PWrite(h.bus, pa, Width(i.wide), AmoResult(i.op, m, old_, h.gpr[i.rs2] % m)))
  {
    var env, x, va, len := h.MmuEnv(), h.x.(amo := true), h.gpr[i.rs1], Width(i.wide);
    AmoAccess(env, x, va, i);
    var (x1, loaded) := VRead(env, x, va, len);
    var stored := AmoStored(i.op, i.wide, loaded, h.gpr[i.rs2]);
    if !x1.isExcept {
      StoreOfAligned(env, x1, va, len, stored);
      if !VWrite(env, x1, va, len, stored).0.isExcept {
        var pa := Resolve(env, x, va, Write).pa;
        LoadedFits(h.bus, pa, i.wide);
        StoredValueIsResult(i.op, i.wide, loaded, h.gpr[i.rs2]);
        PWriteTakesWidth(h.bus, pa, i.wide, stored);
      }
    }
    hide VRead, VWrite, Resolve, PRead, PWrite, AmoStored, AmoResult, SignExtend, InPmem, Modulus;
  }

  /** The load of an AMO and the store after it go to the same place. */
  lemma AmoAccess(env: Env, x: Exc, va: Word, i: Instr)
    requires i.Amo? && !x.isExcept
    ensures var (x1, loaded) := VRead(env, x, va, Width(i.wide));
            !x1.isExcept ==> va % Width(i.wide) == 0 && x1 == x
                             && (Resolve(env, x, va, Write).At? ==>
                                   loaded == PRead(env.bus, Resolve(env, x, va, Write).pa, Width(i.wide)))
  {
    if Resolve(env, x, va, Write).At? {
      WritableIsReadable(env, x, va);
    }
    hide PageOf, CheckOf, PRead;
  }

  lemma StoreOfAligned(env: Env, x: Exc, va: Word, len: nat, d: Word)
    requires AccessLength(len) && va % len == 0 && !x.isExcept
    ensures var (x2, bus) := VWrite(env, x, va, len, d);
            if x2.isExcept then bus == env.bus && Resolve(env, x, va, Write).Refused?
            else x2 == x && Resolve(env, x, va, Write).At? && bus == PWrite(env.bus, Resolve(env, x, va, Write).pa, len, d)
  {
    hide PageOf, CheckOf, PWrite;
  }
}
