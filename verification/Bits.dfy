// Unsigned machine words as naturals, their bits, and the bitwise operators.
module Bits {

  const TWO64: nat := 0x1_0000_0000_0000_0000
  const TWO32: nat := 0x1_0000_0000

  type Word = x: nat | x < TWO64

  /** 64-bit wrap-around. */
  function Wrap(x: int): Word {
    x % TWO64
  }

  function Pow2(k: nat): (p: nat)
    ensures p > 0
  {
    if k == 0 then 1 else 2 * Pow2(k - 1)
  }

  lemma {:induction false} Pow2Sum(a: nat, b: nat)
    ensures Pow2(a + b) == Pow2(a) * Pow2(b)
    decreases b
  {
    if b > 0 {
      Pow2Sum(a, b - 1);
    }
  }

  lemma Pow2Values()
    ensures Pow2(31) == 0x8000_0000 && Pow2(32) == TWO32 && Pow2(64) == TWO64
  {
    assert Pow2(8) == 0x100;
    Pow2Sum(8, 7);
    Pow2Sum(8, 8);
    assert Pow2(7) == 0x80;
    Pow2Sum(15, 16);
    Pow2Sum(16, 16);
    Pow2Sum(32, 32);
  }

  /** Quotient and remainder are determined by their defining equation. */
  lemma DivModUnique(x: int, d: int, q: int, r: int)
    requires d > 0 && x == q * d + r && 0 <= r < d
    ensures x / d == q && x % d == r
  {
    var other := x / d;
    assert (q - other) * d == x % d - r;
    if q > other {
      MultipleAtLeast(q - other, d);
    } else if q < other {
      MultipleAtLeast(other - q, d);
    }
  }

  lemma {:induction false} MultipleAtLeast(k: int, d: int)
    requires k >= 1 && d > 0
    ensures k * d >= d
  {
    if k > 1 {
      MultipleAtLeast(k - 1, d);
    }
  }

  predicate Bit(x: nat, i: nat)
    decreases x
  {
    if x == 0 then false
    else if i == 0 then x % 2 == 1
    else Bit(x / 2, i - 1)
  }

  datatype LogicOp = AND | OR | XOR | ANDNOT

  predicate Apply(op: LogicOp, a: bool, b: bool) {
    match op
    case AND => a && b
    case OR => a || b
    case XOR => a != b
    case ANDNOT => a && !b
  }

  function Digit(b: bool): nat {
    if b then 1 else 0
  }

  function Odd(x: nat): bool {
    x % 2 == 1
  }

  function Logic(op: LogicOp, x: nat, y: nat): nat
    decreases x + y
  {
    if x == 0 && y == 0 then 0
    else Digit(Apply(op, Odd(x), Odd(y))) + 2 * Logic(op, x / 2, y / 2)
  }

  /** Every bit of a bitwise operation is that operation on the two bits. */
  lemma {:induction false} LogicBit(op: LogicOp, x: nat, y: nat, i: nat)
    ensures Bit(Logic(op, x, y), i) == Apply(op, Bit(x, i), Bit(y, i))
    decreases x + y
  {
    if x == 0 && y == 0 {
    } else if i > 0 {
      LogicBit(op, x / 2, y / 2, i - 1);
      assert Logic(op, x, y) / 2 == Logic(op, x / 2, y / 2);
      BitHalf(x, i);
      BitHalf(y, i);
      BitHalf(Logic(op, x, y), i);
    }
  }

  lemma BitHalf(x: nat, i: nat)
    requires i > 0
    ensures Bit(x, i) == Bit(x / 2, i - 1)
  {}

  lemma {:induction false} LogicBound(op: LogicOp, x: nat, y: nat, k: nat)
    requires x < Pow2(k) && y < Pow2(k)
    ensures Logic(op, x, y) < Pow2(k)
    decreases k
  {
    if x != 0 || y != 0 {
      LogicBound(op, x / 2, y / 2, k - 1);
    }
  }

  /** OR of a multiple of 2^k with a value below 2^k is their sum. */
  lemma {:induction false} OrOfDisjoint(q: nat, k: nat, low: nat)
    requires low < Pow2(k)
    ensures Logic(OR, q * Pow2(k), low) == q * Pow2(k) + low
    decreases k
  {
    if k == 0 {
      OrZero(q);
    } else {
      assert q * Pow2(k) == 2 * (q * Pow2(k - 1));
      OrOfDisjoint(q, k - 1, low / 2);
    }
  }

  lemma {:induction false} OrZero(x: nat)
    ensures Logic(OR, x, 0) == x
  {
    if x > 0 {
      OrZero(x / 2);
    }
  }

  function Bitwise(op: LogicOp, x: Word, y: Word): (r: Word)
    ensures forall i {:trigger Bit(r, i)} :: i >= 0 ==> Bit(r, i) == Apply(op, Bit(x, i), Bit(y, i))
  {
    Pow2Values();
    LogicBound(op, x, y, 64);
    assert forall i: nat :: Bit(Logic(op, x, y), i) == Apply(op, Bit(x, i), Bit(y, i)) by {
      forall i: nat { LogicBit(op, x, y, i); }
    }
    Logic(op, x, y)
  }

  /** (old & ~mask) | (new & mask) */
  function Merge(old_: Word, new_: Word, mask: Word): (r: Word)
    ensures forall i {:trigger Bit(r, i)} :: i >= 0 ==> Bit(r, i) == if Bit(mask, i) then Bit(new_, i) else Bit(old_, i)
  {
    Bitwise(OR, Bitwise(ANDNOT, old_, mask), Bitwise(AND, new_, mask))
  }

  function Put(x: nat, i: nat, b: bool): nat
    decreases i
  {
    if i == 0 then x - x % 2 + Digit(b) else x % 2 + 2 * Put(x / 2, i - 1, b)
  }

  lemma {:induction false} PutBit(x: nat, i: nat, b: bool, j: nat)
    ensures Bit(Put(x, i, b), j) == if j == i then b else Bit(x, j)
    decreases i
  {
    if j > 0 {
      BitHalf(x, j);
      BitHalf(Put(x, i, b), j);
      if i > 0 {
        PutBit(x / 2, i - 1, b, j - 1);
      }
    }
  }

  lemma {:induction false} PutBound(x: nat, i: nat, b: bool, k: nat)
    requires x < Pow2(k) && i < k
    ensures Put(x, i, b) < Pow2(k)
    decreases k
  {
    if i > 0 {
      PutBound(x / 2, i - 1, b, k - 1);
    }
  }

  type Position = i: nat | i < 64

  /** Assignment to a one-bit field of a 64-bit union. */
  function SetBit(x: Word, i: Position, b: bool): (r: Word)
    ensures forall j {:trigger Bit(r, j)} :: j >= 0 ==> Bit(r, j) == if j == i then b else Bit(x, j)
  {
    Pow2Values();
    PutBound(x, i, b, 64);
    assert forall j: nat :: Bit(Put(x, i, b), j) == if j == i then b else Bit(x, j) by {
      forall j: nat { PutBit(x, i, b, j); }
    }
    Put(x, i, b)
  }

  // ----- bits and values -----

  function Shr(x: nat, k: nat): nat
    decreases k
  {
    if k == 0 then x else Shr(x / 2, k - 1)
  }

  lemma {:induction false} BitShr(x: nat, k: nat, i: nat)
    ensures Bit(Shr(x, k), i) == Bit(x, i + k)
    decreases k
  {
    if k > 0 {
      BitHalf(x, i + k);
      BitShr(x / 2, k - 1, i);
    }
  }

  lemma {:induction false} ShrIsDiv(x: nat, k: nat)
    ensures Shr(x, k) == x / Pow2(k)
    decreases k
  {
    if k > 0 {
      ShrIsDiv(x / 2, k - 1);
      DivDiv(x, 2, Pow2(k - 1));
    }
  }

  /** Bit i is binary digit i. */
  lemma BitIsDigit(x: nat, i: nat)
    ensures Bit(x, i) <==> x / Pow2(i) % 2 == 1
  {
    BitShr(x, i, 0);
    ShrIsDiv(x, i);
  }

  lemma DivDiv(x: nat, a: nat, b: nat)
    requires a > 0 && b > 0
    ensures a * b > 0 && x / a / b == x / (a * b)
  {
    var q, r := x / a / b, x / a % b;
    assert x == (q * b + r) * a + x % a;
    assert r * a + x % a < a * b by {
      assert r * a <= (b - 1) * a;
    }
    DivModUnique(x, a * b, q, r * a + x % a);
  }

  /** The low k bits determine the value modulo 2^k. */
  lemma {:induction false} SameLowBits(x: nat, y: nat, k: nat)
    requires forall i: nat :: i < k ==> Bit(x, i) == Bit(y, i)
    ensures x % Pow2(k) == y % Pow2(k)
    decreases k
  {
    if k > 0 {
      assert Bit(x, 0) == Bit(y, 0);
      forall i: nat | i < k - 1 ensures Bit(x / 2, i) == Bit(y / 2, i) {
        BitHalf(x, i + 1);
        BitHalf(y, i + 1);
      }
      SameLowBits(x / 2, y / 2, k - 1);
      ModTwice(x, k);
      ModTwice(y, k);
    }
  }

  lemma ModTwice(x: nat, k: nat)
    requires k > 0
    ensures x % Pow2(k) == x % 2 + 2 * (x / 2 % Pow2(k - 1))
  {
    var p := Pow2(k - 1);
    var q, r := x / 2 / p, x / 2 % p;
    assert x / 2 == q * p + r;
    assert 2 * (q * p) == q * Pow2(k);
    DivModUnique(x, Pow2(k), q, x % 2 + 2 * r);
  }

  /** All bits determine the value. */
  lemma {:induction false} SameBits(x: nat, y: nat)
    requires forall i: nat :: Bit(x, i) == Bit(y, i)
    ensures x == y
    decreases x + y
  {
    if x != 0 || y != 0 {
      assert Bit(x, 0) == Bit(y, 0);
      forall i: nat ensures Bit(x / 2, i) == Bit(y / 2, i) {
        BitHalf(x, i + 1);
        BitHalf(y, i + 1);
      }
      SameBits(x / 2, y / 2);
    }
  }

  lemma {:induction false} BitOfPow2(k: nat, i: nat)
    ensures Bit(Pow2(k), i) <==> i == k
    decreases k
  {
    if k > 0 && i > 0 {
      BitOfPow2(k - 1, i - 1);
    }
  }

  lemma {:induction false} BitOfOnes(k: nat, i: nat)
    ensures Bit(Pow2(k) - 1, i) <==> i < k
    decreases k
  {
    if k > 0 && i > 0 {
      assert (Pow2(k) - 1) / 2 == Pow2(k - 1) - 1;
      BitHalf(Pow2(k) - 1, i);
      BitOfOnes(k - 1, i - 1);
    }
  }

  lemma {:induction false} BitMod(x: nat, k: nat, i: nat)
    requires i < k
    ensures Bit(x % Pow2(k), i) == Bit(x, i)
    decreases k
  {
    ModTwice(x, k);
    if i > 0 {
      BitHalf(x, i);
      BitHalf(x % Pow2(k), i);
      assert x % Pow2(k) / 2 == x / 2 % Pow2(k - 1);
      BitMod(x / 2, k - 1, i - 1);
    }
  }

  lemma {:induction false} BitBeyond(x: nat, k: nat, i: nat)
    requires x < Pow2(k) && i >= k
    ensures !Bit(x, i)
    decreases k
  {
    if k > 0 {
      BitHalf(x, i);
      BitBeyond(x / 2, k - 1, i - 1);
    }
  }
}
