// Physical memory: paddr.c, the RAM part.  A device access reads an arbitrary
// value and leaves RAM alone.
module Paddr {
  import opened Bits
  import opened HartState

  const MBASE: nat := 0x8000_0000
  const MSIZE: nat := 0x800_0000

  predicate InPmem(a: nat) {
    MBASE <= a < MBASE + MSIZE
  }

  function ByteAt(ram: map<nat, Byte>, a: nat): Byte {
    if a in ram then ram[a] else 0
  }

  /** Little-endian load and store of n bytes. */
  function Load(ram: map<nat, Byte>, a: nat, n: nat): (v: nat)
    decreases n
  {
    if n == 0 then 0 else ByteAt(ram, a) + 256 * Load(ram, a + 1, n - 1)
  }

  function Store(ram: map<nat, Byte>, a: nat, n: nat, d: nat): map<nat, Byte>
    decreases n
  {
    if n == 0 then ram else Store(ram[a := d % 256], a + 1, n - 1, d / 256)
  }

  predicate AccessLength(len: nat) {
    len == 1 || len == 2 || len == 4 || len == 8
  }

  lemma {:induction false} LoadBound(ram: map<nat, Byte>, a: nat, n: nat)
    ensures Load(ram, a, n) < Pow2(8 * n)
    decreases n
  {
    if n > 0 {
      LoadBound(ram, a + 1, n - 1);
      Pow2Sum(8, 8 * (n - 1));
      assert Pow2(8) == 256;
    }
  }

  lemma LoadIsWord(ram: map<nat, Byte>, a: nat, len: nat)
    requires AccessLength(len)
    ensures Load(ram, a, len) < TWO64
  {
    LoadBound(ram, a, len);
    Pow2Values();
    Pow2Sum(8 * len, 64 - 8 * len);
    assert Pow2(64 - 8 * len) >= 1;
  }

  function HostRead(ram: map<nat, Byte>, a: nat, len: nat): Word {
    if AccessLength(len) then
      LoadIsWord(ram, a, len);
      Load(ram, a, len)
    else 0
  }

  function PRead(bus: Bus, a: nat, len: nat): Word {
    if InPmem(a) then HostRead(bus.ram, a, len) else bus.dev(a, len)
  }

  function PWrite(bus: Bus, a: nat, len: nat, d: nat): Bus {
    if InPmem(a) then bus.(ram := Store(bus.ram, a, len, d)) else bus
  }
}
