// decode.h: the instruction patterns.  The compiler from a pattern string to a
// key, a mask and a shift, against the meaning of the pattern character by
// character.
module Pattern {
  import opened Bits

  predicate PatternChar(c: char) {
    c == '0' || c == '1' || c == '?' || c == ' '
  }

  predicate ValidPattern(str: string) {
    |str| < 64 && forall i :: 0 <= i < |str| ==> PatternChar(str[i])
  }

  /** The pattern without its spaces. */
  function Significant(str: string): string
    decreases |str|
  {
    if str == "" then ""
    else
      var rest := Significant(str[..|str| - 1]);
      if str[|str| - 1] == ' ' then rest else rest + [str[|str| - 1]]
  }

  function KeyOf(sig: string): nat
    decreases |sig|
  {
    if sig == "" then 0 else 2 * KeyOf(sig[..|sig| - 1]) + Digit(sig[|sig| - 1] == '1')
  }

  function MaskOf(sig: string): nat
    decreases |sig|
  {
    if sig == "" then 0 else 2 * MaskOf(sig[..|sig| - 1]) + Digit(sig[|sig| - 1] != '?')
  }

  /** The number of trailing don't-cares. */
  function TrailOf(sig: string): (t: nat)
    ensures t <= |sig|
    decreases |sig|
  {
    if sig == "" || sig[|sig| - 1] != '?' then 0 else 1 + TrailOf(sig[..|sig| - 1])
  }

  /** What a pattern means: every fixed character equals its bit, the last
      significant character standing for bit 0. */
  ghost predicate Means(sig: string, word: nat) {
    forall j: nat :: j < |sig| && sig[j] != '?' ==> Bit(word, |sig| - 1 - j) == (sig[j] == '1')
  }

  /** The test of INSTPAT: ((word >> shift) & mask) == key */
  predicate Matches(word: nat, key: nat, mask: nat, shift: nat) {
    Logic(AND, Shr(word, shift), mask) == key
  }

  // ----- bits of key and mask -----

  lemma {:induction false} KeyBit(sig: string, i: nat)
    ensures Bit(KeyOf(sig), i) <==> i < |sig| && sig[|sig| - 1 - i] == '1'
    decreases |sig|
  {
    if sig != "" && i > 0 {
      KeyBit(sig[..|sig| - 1], i - 1);
      BitHalf(KeyOf(sig), i);
    }
  }

  lemma {:induction false} MaskBit(sig: string, i: nat)
    ensures Bit(MaskOf(sig), i) <==> i < |sig| && sig[|sig| - 1 - i] != '?'
    decreases |sig|
  {
    if sig != "" && i > 0 {
      MaskBit(sig[..|sig| - 1], i - 1);
      BitHalf(MaskOf(sig), i);
    }
  }

  lemma {:induction false} TrailIsDontCare(sig: string, i: nat)
    requires i < TrailOf(sig)
    ensures sig[|sig| - 1 - i] == '?'
    decreases |sig|
  {
    if i > 0 {
      TrailIsDontCare(sig[..|sig| - 1], i - 1);
    }
  }

  lemma {:induction false} KeyBound(sig: string)
    ensures KeyOf(sig) < Pow2(|sig|) && MaskOf(sig) < Pow2(|sig|)
    decreases |sig|
  {
    if sig != "" {
      KeyBound(sig[..|sig| - 1]);
    }
  }

  lemma {:induction false} Pow2Monotone(a: nat, b: nat)
    requires a <= b
    ensures Pow2(a) <= Pow2(b)
    decreases b
  {
    if a < b {
      Pow2Monotone(a, b - 1);
    }
  }

  /** One bit of the test, seen from the pattern. */
  lemma TestBit(sig: string, word: nat, i: nat)
    ensures var t := TrailOf(sig);
            (Bit(Logic(AND, Shr(word, t), Shr(MaskOf(sig), t)), i) == Bit(Shr(KeyOf(sig), t), i))
            <==> (i + t < |sig| && sig[|sig| - 1 - (i + t)] != '?' ==>
                    Bit(word, i + t) == (sig[|sig| - 1 - (i + t)] == '1'))
  {
    var t := TrailOf(sig);
    LogicBit(AND, Shr(word, t), Shr(MaskOf(sig), t), i);
    BitShr(word, t, i);
    BitShr(MaskOf(sig), t, i);
    BitShr(KeyOf(sig), t, i);
    MaskBit(sig, i + t);
    KeyBit(sig, i + t);
    hide Bit, Logic, Shr, KeyOf, MaskOf, TrailOf;
  }

  /** The compiled test holds exactly when every fixed character equals its bit,
      whatever run of trailing don't-cares was shifted out. */
  lemma CompiledPatternMeansPattern(sig: string, word: nat)
    ensures Matches(word, Shr(KeyOf(sig), TrailOf(sig)), Shr(MaskOf(sig), TrailOf(sig)), TrailOf(sig)) <==> Means(sig, word)
  {
    var t := TrailOf(sig);
    var lhs, rhs := Logic(AND, Shr(word, t), Shr(MaskOf(sig), t)), Shr(KeyOf(sig), t);
    hide Bit, Logic, Shr, KeyOf, MaskOf, TrailOf;
    if lhs == rhs {
      forall j: nat | j < |sig| && sig[j] != '?' ensures Bit(word, |sig| - 1 - j) == (sig[j] == '1') {
        var b := |sig| - 1 - j;
        if b < t {
          TrailIsDontCare(sig, b);
        } else {
          TestBit(sig, word, b - t);
        }
      }
    }
    if Means(sig, word) {
      forall i: nat ensures Bit(lhs, i) == Bit(rhs, i) {
        TestBit(sig, word, i);
        if i + t < |sig| {
          var j := |sig| - 1 - (i + t);
          assert sig[j] != '?' ==> Bit(word, |sig| - 1 - j) == (sig[j] == '1');
        }
      }
      SameBits(lhs, rhs);
    }
  }

  lemma SignificantStep(str: string, i: nat)
    requires i < |str|
    ensures Significant(str[..i + 1]) == if str[i] == ' ' then Significant(str[..i]) else Significant(str[..i]) + [str[i]]
  {
    assert str[..i + 1][..i] == str[..i];
  }

  lemma AppendStep(sig: string, c: char)
    ensures KeyOf(sig + [c]) % TWO32 == (KeyOf(sig) % TWO32 * 2 + Digit(c == '1')) % TWO32
    ensures MaskOf(sig + [c]) % TWO32 == (MaskOf(sig) % TWO32 * 2 + Digit(c != '?')) % TWO32
    ensures TrailOf(sig + [c]) == if c == '?' then TrailOf(sig) + 1 else 0
  {
    var after := sig + [c];
    assert after[..|after| - 1] == sig;
    DoubleMod(KeyOf(sig), Digit(c == '1'));
    DoubleMod(MaskOf(sig), Digit(c != '?'));
  }

  /** The characters that 32-bit registers still hold. */
  function Kept(sig: string): string {
    if |sig| <= 32 then sig else sig[|sig| - 32..]
  }

  /** Wrapping the registers around forgets all but the last characters. */
  lemma {:induction false} WrappedRegisters(sig: string, k: nat)
    requires k <= |sig|
    ensures KeyOf(sig) % Pow2(k) == KeyOf(sig[|sig| - k..]) && MaskOf(sig) % Pow2(k) == MaskOf(sig[|sig| - k..])
    decreases k
  {
    var last := sig[|sig| - k..];
    DigitBound();
    if k == 0 {
      assert last == "";
    } else {
      var init := sig[..|sig| - 1];
      assert last[..|last| - 1] == init[|init| - (k - 1)..] && last[|last| - 1] == sig[|sig| - 1];
      WrappedRegisters(init, k - 1);
      hide Pow2, Digit;
      DoubleWrap(KeyOf(init), Digit(sig[|sig| - 1] == '1'), k);
      DoubleWrap(MaskOf(init), Digit(sig[|sig| - 1] != '?'), k);
    }
  }

  lemma DigitBound()
    ensures Digit(true) < 2 && Digit(false) < 2
  {}

  lemma DoubleWrap(x: nat, d: nat, k: nat)
    requires k > 0 && d < 2
    ensures (2 * x + d) % Pow2(k) == 2 * (x % Pow2(k - 1)) + d
  {
    ModTwice(2 * x + d, k);
  }

  lemma {:induction false} TrailOfEnd(sig: string, k: nat)
    requires k <= |sig|
    ensures TrailOf(sig[|sig| - k..]) == if TrailOf(sig) < k then TrailOf(sig) else k
    decreases k
  {
    var last := sig[|sig| - k..];
    if k > 0 {
      var init := sig[..|sig| - 1];
      assert last[..|last| - 1] == init[|init| - (k - 1)..] && last[|last| - 1] == sig[|sig| - 1];
      TrailOfEnd(init, k - 1);
    }
  }

  /** What the 32-bit registers hold in the end. */
  lemma FinalRegisters(sig: string)
    ensures KeyOf(sig) % TWO32 == KeyOf(Kept(sig)) && MaskOf(sig) % TWO32 == MaskOf(Kept(sig))
    ensures |sig| <= 32 || TrailOf(sig) < 32 ==> TrailOf(Kept(sig)) == TrailOf(sig)
    ensures |sig| > 32 && TrailOf(sig) >= 32 ==> TrailOf(Kept(sig)) == 32
  {
    Pow2Values();
    hide KeyOf, MaskOf, TrailOf, Pow2;
    if |sig| <= 32 {
      FitsWord(sig);
    } else {
      WrappedRegisters(sig, 32);
      TrailOfEnd(sig, 32);
    }
  }

  /** 32 don't-cares leave nothing to compare. */
  lemma NothingToCompare(sig: string, shift: nat, word: nat)
    requires TrailOf(sig) == |sig|
    ensures Matches(word, Shr(KeyOf(sig), shift), Shr(MaskOf(sig), shift), shift) && Means(sig, word)
  {
    forall i: nat ensures !Bit(KeyOf(sig), i) && !Bit(MaskOf(sig), i) {
      KeyBit(sig, i);
      MaskBit(sig, i);
      if i < |sig| { TrailIsDontCare(sig, i); }
    }
    forall j: nat | j < |sig| ensures sig[j] == '?' {
      TrailIsDontCare(sig, |sig| - 1 - j);
    }
    ZeroFromBits(KeyOf(sig));
    ZeroFromBits(MaskOf(sig));
    ShrShrinks(0, shift);
    AndZero(Shr(word, shift));
    hide KeyOf, MaskOf, TrailOf, Shr, Logic, Bit;
  }

  lemma ZeroFromBits(x: nat)
    requires forall i: nat :: !Bit(x, i)
    ensures x == 0
  {
    forall i: nat ensures Bit(0, i) == Bit(x, i) {
      ZeroBit(i);
    }
    hide Bit;
    SameBits(0, x);
  }

  lemma {:induction false} ZeroBit(i: nat)
    ensures !Bit(0, i)
  {
    if i > 0 { ZeroBit(i - 1); }
  }

  lemma AndZero(x: nat)
    ensures Logic(AND, x, 0) == 0
  {
    forall i: nat ensures !Bit(Logic(AND, x, 0), i) {
      LogicBit(AND, x, 0, i);
      ZeroBit(i);
    }
    hide Bit, Logic;
    ZeroFromBits(Logic(AND, x, 0));
  }

  /** Up to 32 significant characters nothing wraps around. */
  lemma FitsWord(sig: string)
    requires |sig| <= 32
    ensures KeyOf(sig) < TWO32 && MaskOf(sig) < TWO32
    ensures Shr(KeyOf(sig), TrailOf(sig)) < TWO32 && Shr(MaskOf(sig), TrailOf(sig)) < TWO32
  {
    KeyBound(sig);
    Pow2Monotone(|sig|, 32);
    Pow2Values();
    ShrShrinks(KeyOf(sig), TrailOf(sig));
    ShrShrinks(MaskOf(sig), TrailOf(sig));
  }

  /** pattern_decode on 32-bit registers.  Of a pattern with more than 32
      significant characters only the last 32 are compared.  (C leaves a shift by 32
      or more undefined; here it yields 0.) */
  method PatternDecode(str: string) returns (key: nat, mask: nat, shift: nat)
    requires ValidPattern(str)
    ensures key < TWO32 && mask < TWO32 && shift == TrailOf(Significant(str))
    ensures forall word: nat :: Matches(word, key, mask, shift) <==> Means(Kept(Significant(str)), word)
  {
    hide KeyOf, MaskOf, TrailOf, Shr, Matches, Means, Digit;
    key, mask, shift := 0, 0, 0;
    EmptyPattern();
    var i := 0;
    while i < |str|
      invariant 0 <= i <= |str|
      invariant key == KeyOf(Significant(str[..i])) % TWO32
      invariant mask == MaskOf(Significant(str[..i])) % TWO32
      invariant shift == TrailOf(Significant(str[..i]))
    {
      SignificantStep(str, i);
      AppendStep(Significant(str[..i]), str[i]);
      hide Significant;
      var c := str[i];
      if c != ' ' {
        key := (key * 2 + Digit(c == '1')) % TWO32;
        mask := (mask * 2 + Digit(c != '?')) % TWO32;
        shift := if c == '?' then shift + 1 else 0;
      }
      i := i + 1;
    }
    assert str[..i] == str;
    ghost var sig := Significant(str);
    FinalRegisters(sig);
    ShrShrinks(key, shift);
    ShrShrinks(mask, shift);
    key := Shr(key, shift);
    mask := Shr(mask, shift);
    forall word: nat ensures Matches(word, key, mask, shift) <==> Means(Kept(sig), word) {
      if TrailOf(Kept(sig)) == shift {
        CompiledPatternMeansPattern(Kept(sig), word);
      } else {
        NothingToCompare(Kept(sig), shift, word);
      }
    }
  }

  lemma EmptyPattern()
    ensures KeyOf("") == 0 && MaskOf("") == 0 && TrailOf("") == 0
  {}

  lemma DoubleMod(x: nat, b: nat)
    ensures (x % TWO32 * 2 + b) % TWO32 == (2 * x + b) % TWO32
  {
    var q := x / TWO32;
    assert 2 * x + b == 2 * q * TWO32 + (x % TWO32 * 2 + b);
    ModOfShifted(x % TWO32 * 2 + b, 2 * q);
  }

  lemma ModOfShifted(r: nat, q: nat)
    ensures (q * TWO32 + r) % TWO32 == r % TWO32
  {
    DivModUnique(q * TWO32 + r, TWO32, q + r / TWO32, r % TWO32);
  }

  lemma {:induction false} ShrShrinks(x: nat, k: nat)
    ensures Shr(x, k) <= x
    decreases k
  {
    if k > 0 {
      ShrShrinks(x / 2, k - 1);
    }
  }
}
