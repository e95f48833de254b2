// expr.c: the debugger's expression evaluator, which finds the main operator of
// a token range by scanning and recurses on both sides.
module Expr {
  import opened Bits
  import opened HartState
  import opened Inst

  datatype BinOp = Plus | Minus | Times | Over | Equal | NotEqual | Both

  datatype Token = Num(value: Word) | HexNum(value: Word) | Reg(index: Inst.Reg) | CsrReg
                 | Open | Close | Op(op: BinOp) | Deref

  /** What evaluation reads: the registers, and four bytes at a physical address. */
  datatype World = World(gpr: Regs, mem: nat -> Word)

  // ----- expressions, their value and their text -----

  datatype Tree = Atom(tok: Token) | Bin(op: BinOp, left: Tree, right: Tree) | Star(inner: Tree) | Paren(inner: Tree)

  predicate IsAtom(t: Token) {
    t.Num? || t.HexNum? || t.Reg? || t.CsrReg?
  }

  datatype Result = DivideByZero | Value(v: Word)

  function AtomValue(t: Token, w: World): Word {
    match t
    case Num(v) => v
    case HexNum(v) => v
    case Reg(i) => w.gpr[i]
    case _ => 0
  }

  /** Unsigned division. */
  function Quotient(a: Word, b: Word): (q: Word)
    requires b != 0
  {
    a / b
  }

  function Combine(op: BinOp, a: Word, b: Word): Result {
    match op
    case Plus => Value(Wrap(a + b))
    case Minus => Value(Wrap(a - b))
    case Times => Value(Wrap(a * b))
    case Over => if b == 0 then DivideByZero else Value(Quotient(a, b))
    case Equal => Value(Digit(a == b))
    case NotEqual => Value(Digit(a != b))
    case Both => Value(Digit(a != 0 && b != 0))
  }

  /** Both operands are always evaluated, also those of &&. */
  function Eval(e: Tree, w: World): Result {
    match e
    case Atom(t) => Value(AtomValue(t, w))
    case Paren(inner) => Eval(inner, w)
    case Star(inner) =>
      (match Eval(inner, w)
       case DivideByZero => DivideByZero
       case Value(a) => Value(w.mem(a)))
    case Bin(op, l, r) =>
      match (Eval(l, w), Eval(r, w))
      case (Value(a), Value(b)) => Combine(op, a, b)
      case _ => DivideByZero
  }

  /** The operators by their laws: + and - are inverse modulo 2^64, * is the
      product modulo 2^64, / the quotient rounded down, and the comparisons and &&
      give 1 exactly when the relation holds, else 0. */
  lemma OperatorLaws(a: Word, b: Word)
    ensures Combine(Plus, a, b).Value? && (Combine(Plus, a, b).v == a + b || Combine(Plus, a, b).v == a + b - 0x1_0000_0000_0000_0000)
    ensures Combine(Minus, a, b).Value? && (Combine(Minus, a, b).v + b) % 0x1_0000_0000_0000_0000 == a
    ensures Combine(Times, a, b).Value? && exists k: nat :: Combine(Times, a, b).v + k * 0x1_0000_0000_0000_0000 == a * b
    ensures Combine(Over, a, b).DivideByZero? <==> b == 0
    ensures b != 0 ==> Combine(Over, a, b).v * b <= a < (Combine(Over, a, b).v + 1) * b
    ensures Combine(Equal, a, b) == Value(1) <==> a == b
    ensures Combine(NotEqual, a, b) == Value(1) <==> a != b
    ensures Combine(Both, a, b) == Value(1) <==> a > 0 && b > 0
    ensures forall op :: op in {Equal, NotEqual, Both} ==> Combine(op, a, b) in {Value(0), Value(1)}
  {
    hide Wrap, Quotient;
    SumLaw(a, b);
    DifferenceLaw(a, b);
    ProductLaw(a, b);
    if b != 0 {
      QuotientLaw(a, b);
    }
  }

  lemma SumLaw(a: Word, b: Word)
    ensures Wrap(a + b) == a + b || Wrap(a + b) == a + b - 0x1_0000_0000_0000_0000
  {}

  lemma DifferenceLaw(a: Word, b: Word)
    ensures (Wrap(a - b) + b) % 0x1_0000_0000_0000_0000 == a
  {
    assert Wrap(a - b) == if a >= b then a - b else a - b + 0x1_0000_0000_0000_0000;
  }

  lemma ProductLaw(a: Word, b: Word)
    ensures exists k: nat :: Wrap(a * b) + k * 0x1_0000_0000_0000_0000 == a * b
  {
    var product := a * b;
    assert Wrap(product) + product / 0x1_0000_0000_0000_0000 * 0x1_0000_0000_0000_0000 == product;
  }

  lemma QuotientLaw(a: Word, b: Word)
    requires b != 0
    ensures Quotient(a, b) * b <= a < (Quotient(a, b) + 1) * b
  {
    assert a == a / b * b + a % b;
  }

  /** What atoms and dereferences evaluate to. */
  lemma AtomLaws(w: World, n: Word, i: Inst.Reg, e: Tree)
    ensures Eval(Atom(Num(n)), w) == Eval(Atom(HexNum(n)), w) == Value(n)
    ensures Eval(Atom(Reg(i)), w) == Value(w.gpr[i]) && Eval(Atom(CsrReg), w) == Value(0)
    ensures Eval(e, w).Value? ==> Eval(Star(e), w) == Value(w.mem(Eval(e, w).v))
  {}

  function Print(e: Tree): (s: seq<Token>)
    ensures |s| > 0
  {
    match e
    case Atom(t) => [t]
    case Paren(inner) => [Open] + Print(inner) + [Close]
    case Star(inner) => [Deref] + Print(inner)
    case Bin(op, l, r) => Print(l) + [Op(op)] + Print(r)
  }

  /** && binds weakest, then == and !=, + and -, * and /, dereference. */
  function OpLevel(op: BinOp): nat {
    match op
    case Both => 1
    case Equal | NotEqual => 2
    case Plus | Minus => 3
    case Times | Over => 4
  }

  function Level(t: Token): nat {
    match t
    case Op(op) => OpLevel(op)
    case Deref => 5
    case _ => 6
  }

  function TreeLevel(e: Tree): nat {
    match e
    case Bin(op, _, _) => OpLevel(op)
    case Star(_) => 5
    case _ => 6
  }

  /** The grammar: left-associative operators, parentheses where they are needed
      (and wherever else one likes), a dereference of an atom or a parenthesis. */
  predicate Grammatical(e: Tree) {
    match e
    case Atom(t) => IsAtom(t)
    case Paren(inner) => Grammatical(inner)
    case Star(inner) => Grammatical(inner) && TreeLevel(inner) == 6
    case Bin(op, l, r) => Grammatical(l) && Grammatical(r) && TreeLevel(l) >= OpLevel(op) && TreeLevel(r) > OpLevel(op)
  }

  /** Which of two operators binds more tightly: * and / before + and -, those
      before == and !=, and && last. */
  predicate Tighter(op1: BinOp, op2: BinOp) {
    match op2
    case Both => !op1.Both?
    case Equal => op1.Plus? || op1.Minus? || op1.Times? || op1.Over?
    case NotEqual => op1.Plus? || op1.Minus? || op1.Times? || op1.Over?
    case Plus => op1.Times? || op1.Over?
    case Minus => op1.Times? || op1.Over?
    case _ => false
  }

  /** Three operands a op1 b op2 c: grouped to the right exactly when op2 binds
      more tightly, otherwise to the left; a dereference before either. */
  lemma ThreeOperands(op1: BinOp, op2: BinOp, a: Token, b: Token, c: Token)
    requires IsAtom(a) && IsAtom(b) && IsAtom(c)
    ensures Print(Bin(op1, Atom(a), Bin(op2, Atom(b), Atom(c)))) == [a, Op(op1), b, Op(op2), c]
    ensures Print(Bin(op2, Bin(op1, Atom(a), Atom(b)), Atom(c))) == [a, Op(op1), b, Op(op2), c]
    ensures Grammatical(Bin(op1, Atom(a), Bin(op2, Atom(b), Atom(c)))) <==> Tighter(op2, op1)
    ensures Grammatical(Bin(op2, Bin(op1, Atom(a), Atom(b)), Atom(c))) <==> !Tighter(op2, op1)
    ensures Grammatical(Bin(op1, Star(Atom(a)), Atom(b))) && !Grammatical(Star(Bin(op1, Atom(a), Atom(b))))
  {
    hide *;
    TwoPrinted(op1, a, b);
    TwoPrinted(op2, b, c);
    BinPrinted(op1, Atom(a), Bin(op2, Atom(b), Atom(c)));
    BinPrinted(op2, Bin(op1, Atom(a), Atom(b)), Atom(c));
    TwoOperands(op1, a, b);
    TwoOperands(op2, b, c);
    BinGrammar(op1, Atom(a), Bin(op2, Atom(b), Atom(c)));
    BinGrammar(op2, Bin(op1, Atom(a), Atom(b)), Atom(c));
    BinGrammar(op1, Star(Atom(a)), Atom(b));
    StarOfBin(op1, a, b);
    TighterIsLevel(op2, op1);
  }

  lemma TwoPrinted(op: BinOp, a: Token, b: Token)
    ensures Print(Atom(a)) == [a] && Print(Atom(b)) == [b] && Print(Bin(op, Atom(a), Atom(b))) == [a, Op(op), b]
  {
    assert [a] + [Op(op)] + [b] == [a, Op(op), b];
  }

  lemma BinPrinted(op: BinOp, l: Tree, r: Tree)
    ensures Print(Bin(op, l, r)) == Print(l) + [Op(op)] + Print(r)
  {}

  lemma TwoOperands(op: BinOp, a: Token, b: Token)
    requires IsAtom(a) && IsAtom(b)
    ensures Grammatical(Atom(a)) && Grammatical(Atom(b)) && Grammatical(Star(Atom(a)))
    ensures Grammatical(Bin(op, Atom(a), Atom(b))) && TreeLevel(Bin(op, Atom(a), Atom(b))) == OpLevel(op)
    ensures TreeLevel(Atom(a)) == TreeLevel(Atom(b)) == 6 && TreeLevel(Star(Atom(a))) == 5 && OpLevel(op) < 5
  {
    assert Grammatical(Atom(a)) && Grammatical(Atom(b));
  }

  lemma BinGrammar(op: BinOp, l: Tree, r: Tree)
    ensures Grammatical(Bin(op, l, r))
            <==> Grammatical(l) && Grammatical(r) && TreeLevel(l) >= OpLevel(op) && TreeLevel(r) > OpLevel(op)
  {}

  lemma StarOfBin(op: BinOp, a: Token, b: Token)
    ensures !Grammatical(Star(Bin(op, Atom(a), Atom(b))))
  {}

  lemma TighterIsLevel(op1: BinOp, op2: BinOp)
    ensures Tighter(op1, op2) <==> OpLevel(op1) > OpLevel(op2)
  {}

  // ----- nesting depth -----

  function Delta(t: Token): int {
    if t.Open? then 1 else if t.Close? then -1 else 0
  }

  function Depth(s: seq<Token>, i: nat): int
    requires i <= |s|
    decreases i
  {
    if i == 0 then 0 else Depth(s, i - 1) + Delta(s[i - 1])
  }

  lemma {:induction false} DepthOfConcat(a: seq<Token>, b: seq<Token>, i: nat)
    requires i <= |a + b|
    ensures Depth(a + b, i) == if i <= |a| then Depth(a, i) else Depth(a, |a|) + Depth(b, i - |a|)
    decreases i
  {
    if i > 0 {
      DepthOfConcat(a, b, i - 1);
    }
  }

  /** An operator token at depth zero, before the last token. */
  ghost predicate TopOp(s: seq<Token>, i: nat) {
    i < |s| - 1 && Level(s[i]) < 6 && Depth(s, i) == 0
  }

  /** The last of the weakest operators at depth zero. */
  ghost predicate MainAt(s: seq<Token>, r: nat) {
    && TopOp(s, r)
    && forall i: nat :: TopOp(s, i) ==> Level(s[r]) <= Level(s[i]) && (i > r ==> Level(s[r]) < Level(s[i]))
  }

  lemma MainIsUnique(s: seq<Token>, a: nat, b: nat)
    requires MainAt(s, a) && MainAt(s, b)
    ensures a == b
  {}

  /** The whole sequence is one parenthesis. */
  ghost predicate Wrapped(s: seq<Token>) {
    && |s| >= 2 && s[0] == Open && s[|s| - 1] == Close && Depth(s, |s|) == 0
    && forall i: nat :: 0 < i < |s| ==> Depth(s, i) > 0
  }

  // ----- the two scanning loops -----

  method CheckParentheses(tokens: array<Token>, p0: nat, q: nat) returns (b: bool)
    requires p0 < q < tokens.Length
    ensures b == Wrapped(tokens[p0..q + 1])
  {
    ghost var s := tokens[p0..q + 1];
    var count := 0;
    if tokens[p0] != Open || tokens[q] != Close {
      return false;
    }
    var p := p0;
    while p <= q
      invariant p0 <= p <= q + 1
      invariant count == Depth(s, p - p0)
      invariant forall i: nat :: 0 < i < |s| && i <= p - p0 ==> Depth(s, i) > 0
    {
      assert tokens[p] == s[p - p0];
      if tokens[p] == Open {
        count := count + 1;
      } else if tokens[p] == Close {
        count := count - 1;
      }
      assert count == Depth(s, p - p0 + 1);
      if count < 0 {
        return false;
      }
      if count == 0 && p != q {
        return false;
      }
      p := p + 1;
    }
    return count == 0;
  }

  /** The type of the main operator found so far. */
  datatype Main = NoMain | Main(tok: Token)

  function MainLevel(m: Main): nat {
    match m case NoMain => 6 case Main(t) => Level(t)
  }

  /** Which operator, if any, is main among the first k tokens. */
  ghost predicate MainSoFar(s: seq<Token>, k: nat, m: Main, r: nat) {
    if m.NoMain? then forall i: nat :: i < k ==> !TopOp(s, i)
    else
      && r < k && TopOp(s, r) && s[r] == m.tok
      && forall i: nat :: i < k && TopOp(s, i) ==> Level(s[r]) <= Level(s[i]) && (i > r ==> Level(s[r]) < Level(s[i]))
  }

  lemma MainStep(s: seq<Token>, k: nat, m: Main, r: nat)
    requires k < |s| - 1 && MainSoFar(s, k, m, r)
    ensures if Depth(s, k) == 0 && Level(s[k]) < 6 && Level(s[k]) <= MainLevel(m) then MainSoFar(s, k + 1, Main(s[k]), k)
            else MainSoFar(s, k + 1, m, r)
  {
    hide Depth, Level;
  }

  /** position is that of the main operator of the range s starting at p, or 0
      when the range has no operator at depth zero. */
  ghost predicate Found(s: seq<Token>, p: nat, position: nat) {
    if exists i: nat :: TopOp(s, i) then position >= p && MainAt(s, position - p) else position == 0
  }

  lemma FoundAtEnd(s: seq<Token>, m: Main, p: nat, position: nat)
    requires |s| > 0 && if m.NoMain? then MainSoFar(s, |s| - 1, m, 0) && position == 0
                        else position >= p && MainSoFar(s, |s| - 1, m, position - p)
    ensures Found(s, p, position)
  {
    hide Depth, Level;
    if m.Main? {
      assert TopOp(s, position - p);
    }
  }

  /** The scan's chains of comparisons compare binding strengths. */
  lemma ComparisonsAreLevels(m: Main, tok: Token)
    requires m.Main? ==> Level(m.tok) < 6
    ensures MainLevel(NoMain) == 6 && MainLevel(Main(tok)) == Level(tok)
    ensures Level(tok) < 6 <==> tok.Op? || tok.Deref?
    ensures tok == Op(Both) ==> Level(tok) <= MainLevel(m)
    ensures tok == Op(Equal) || tok == Op(NotEqual) ==> (Level(tok) <= MainLevel(m) <==> m != Main(Op(Both)))
    ensures tok == Op(Plus) || tok == Op(Minus) ==>
              (Level(tok) <= MainLevel(m) <==> m != Main(Op(Both)) && m != Main(Op(Equal)) && m != Main(Op(NotEqual)))
    ensures tok == Op(Times) || tok == Op(Over) ==>
              (Level(tok) <= MainLevel(m) <==>
               m != Main(Op(Both)) && m != Main(Op(Equal)) && m != Main(Op(NotEqual)) && m != Main(Op(Minus)) && m != Main(Op(Plus)))
    ensures tok == Deref ==>
              (Level(tok) <= MainLevel(m) <==>
               m != Main(Op(Times)) && m != Main(Op(Over)) && m != Main(Op(Both)) && m != Main(Op(Equal))
               && m != Main(Op(NotEqual)) && m != Main(Op(Minus)) && m != Main(Op(Plus)))
  {}

  /** One turn of the scan: whether the token becomes the main operator, and the
      new parenthesis count. */
  method ScanToken(tok: Token, main: Main, count0: int) returns (take: bool, count: int)
    requires main.Main? ==> Level(main.tok) < 6
    ensures take == (count0 == 0 && Level(tok) < 6 && Level(tok) <= MainLevel(main))
    ensures count == count0 + Delta(tok)
  {
    ComparisonsAreLevels(main, tok);
    hide Level, MainLevel;
    take, count := false, count0;
    match tok {
      case Op(Both) =>
        if count == 0 {
          take := true;
        }
      case Op(Equal) | Op(NotEqual) =>
        if count == 0 {
          if main != Main(Op(Both)) {
            take := true;
          }
        }
      case Op(Plus) | Op(Minus) =>
        if count == 0 {
          if main != Main(Op(Both)) && main != Main(Op(Equal)) && main != Main(Op(NotEqual)) {
            take := true;
          }
        }
      case Op(Times) | Op(Over) =>
        if count == 0 && main != Main(Op(Both)) && main != Main(Op(Equal)) && main != Main(Op(NotEqual))
           && main != Main(Op(Minus)) && main != Main(Op(Plus)) {
          take := true;
        }
      case Deref =>
        if count == 0 && main != Main(Op(Times)) && main != Main(Op(Over)) && main != Main(Op(Both)) && main != Main(Op(Equal))
           && main != Main(Op(NotEqual)) && main != Main(Op(Minus)) && main != Main(Op(Plus)) {
          take := true;
        }
      case Open => count := count + 1;
      case Close => count := count - 1;
      case _ =>
    }
  }

  method FindPositionMainOperator(tokens: array<Token>, p0: nat, q: nat) returns (position: nat)
    requires p0 < q < tokens.Length
    ensures Found(tokens[p0..q + 1], p0, position)
  {
    ghost var s := tokens[p0..q + 1];
    var main := NoMain;
    var count := 0;
    position := 0;
    ghost var r: nat := 0;
    var p := p0;
    hide MainSoFar, TopOp, Depth, Level, MainLevel, Found;
    EmptyScan(s);
    while p < q
      invariant p0 <= p <= q
      invariant count == Depth(s, p - p0)
      invariant MainSoFar(s, p - p0, main, r)
      invariant main.NoMain? ==> position == 0
      invariant main.Main? ==> Level(main.tok) < 6 && position == p0 + r
    {
      var tok := tokens[p];
      assert tok == s[p - p0];
      MainStep(s, p - p0, main, r);
      DepthStep(s, p - p0);
      var take;
      take, count := ScanToken(tok, main, count);
      if take {
        main, position, r := Main(tok), p, p - p0;
      }
      p := p + 1;
    }
    if main.NoMain? {
      ScanIgnoresPosition(s, r);
    }
    FoundAtEnd(s, main, p0, position);
  }

  lemma EmptyScan(s: seq<Token>)
    ensures MainSoFar(s, 0, NoMain, 0) && Depth(s, 0) == 0
  {}

  lemma ScanIgnoresPosition(s: seq<Token>, r: nat)
    requires |s| > 0 && MainSoFar(s, |s| - 1, NoMain, r)
    ensures MainSoFar(s, |s| - 1, NoMain, 0)
  {}

  lemma DepthStep(s: seq<Token>, k: nat)
    requires k < |s|
    ensures Depth(s, k + 1) == Depth(s, k) + Delta(s[k])
  {}

  // ----- the shape of printed expressions -----

  /** Parentheses are balanced, and the operators outside them bind at least as
      tightly as the root; the last token is not an operator. */
  ghost predicate Shape(s: seq<Token>, level: nat) {
    && |s| > 0 && Level(s[|s| - 1]) == 6 && Depth(s, |s|) == 0
    && (forall i: nat :: i <= |s| ==> Depth(s, i) >= 0)
    && (forall i: nat :: i < |s| && Depth(s, i) == 0 && Level(s[i]) < 6 ==> Level(s[i]) >= level)
  }

  lemma ConcatDepth(a: seq<Token>, op: Token, b: seq<Token>, i: nat)
    requires i <= |a| + 1 + |b| && Depth(a, |a|) == 0 && Level(op) < 6
    ensures Depth(a + [op] + b, i) == if i <= |a| then Depth(a, i) else Depth(b, i - |a| - 1)
  {
    DepthOfConcat(a + [op], b, i);
    if i <= |a| + 1 {
      DepthOfConcat(a, [op], i);
    }
    DepthOfConcat(a, [op], |a| + 1);
    assert Depth([op], 1) == Delta(op) == 0;
  }

  lemma ConcatShape(a: seq<Token>, op: Token, b: seq<Token>, la: nat, lb: nat)
    requires Shape(a, la) && Shape(b, lb) && Level(op) < 6 && la >= Level(op) && lb > Level(op)
    ensures Shape(a + [op] + b, Level(op)) && MainAt(a + [op] + b, |a|)
  {
    hide Depth, Level;
    var c := a + [op] + b;
    forall i: nat | i <= |c| ensures Depth(c, i) == if i <= |a| then Depth(a, i) else Depth(b, i - |a| - 1) {
      ConcatDepth(a, op, b, i);
    }
    assert c[|a|] == op && c[|c| - 1] == b[|b| - 1];
    forall i: nat | i < |c| && Depth(c, i) == 0 && Level(c[i]) < 6
      ensures Level(c[i]) >= Level(op) && (i > |a| ==> Level(c[i]) > Level(op))
    {
      if i < |a| {
        assert c[i] == a[i];
      } else if i > |a| {
        assert c[i] == b[i - |a| - 1];
      }
    }
    assert Depth(a, 0) == 0 && Depth(b, 0) == 0 by { EmptyScan(a); EmptyScan(b); }
    assert forall i: nat :: i <= |c| ==> Depth(c, i) >= 0;
  }

  lemma DerefShape(a: seq<Token>)
    requires Shape(a, 6)
    ensures Shape([Deref] + a, 5) && MainAt([Deref] + a, 0)
  {
    var c := [Deref] + a;
    forall i: nat | i <= |c| ensures Depth(c, i) == if i == 0 then 0 else Depth(a, i - 1) {
      DepthOfConcat([Deref], a, i);
      assert Depth([Deref], 1) == 0;
    }
    hide Depth;
  }

  lemma ParenDepth(a: seq<Token>, i: nat)
    requires i <= |a| + 2 && Depth(a, |a|) == 0
    ensures Depth([Open] + a + [Close], i) == if i == 0 || i == |a| + 2 then 0 else Depth(a, i - 1) + 1
  {
    DepthOfConcat([Open] + a, [Close], i);
    if i <= |a| + 1 {
      DepthOfConcat([Open], a, i);
    }
    DepthOfConcat([Open], a, |a| + 1);
    assert Depth([Open], 1) == 1 && Depth([Close], 1) == -1;
  }

  lemma ParenShape(a: seq<Token>, la: nat)
    requires Shape(a, la)
    ensures Shape([Open] + a + [Close], 6) && Wrapped([Open] + a + [Close])
  {
    hide Depth;
    var c := [Open] + a + [Close];
    forall i: nat | i <= |c| ensures Depth(c, i) >= 0 && (0 < i < |c| ==> Depth(c, i) > 0) {
      ParenDepth(a, i);
    }
    ParenDepth(a, |c|);
    hide TopOp;
  }

  lemma {:induction false} PrintedShape(e: Tree)
    requires Grammatical(e)
    ensures Shape(Print(e), TreeLevel(e))
  {
    match e {
      case Atom(t) =>
        assert Depth([t], 0) == 0 && Depth([t], 1) == 0;
      case Paren(inner) =>
        PrintedShape(inner);
        ParenShape(Print(inner), TreeLevel(inner));
      case Star(inner) =>
        PrintedShape(inner);
        DerefShape(Print(inner));
      case Bin(op, l, r) =>
        PrintedShape(l);
        PrintedShape(r);
        ConcatShape(Print(l), Op(op), Print(r), TreeLevel(l), TreeLevel(r));
    }
  }

  /** The scan's main operator is the root of the tree, and only a parenthesis is
      wrapped. */
  lemma RootIsMain(e: Tree)
    requires Grammatical(e)
    ensures e.Bin? ==> MainAt(Print(e), |Print(e.left)|) && !Wrapped(Print(e))
    ensures e.Star? ==> MainAt(Print(e), 0) && !Wrapped(Print(e))
    ensures e.Paren? ==> Wrapped(Print(e))
    ensures |Print(e)| == 1 <==> e.Atom?
  {
    match e {
      case Atom(_) =>
      case Paren(inner) =>
        PrintedShape(inner);
        ParenShape(Print(inner), TreeLevel(inner));
      case Star(inner) =>
        PrintedShape(inner);
        DerefShape(Print(inner));
      case Bin(op, l, r) =>
        PrintedShape(l);
        PrintedShape(r);
        ConcatShape(Print(l), Op(op), Print(r), TreeLevel(l), TreeLevel(r));
        assert Depth(Print(e), |Print(l)|) == 0;
    }
  }

  lemma FoundRoot(e: Tree, p: nat, position: nat)
    requires Grammatical(e) && (e.Bin? || e.Star?) && Found(Print(e), p, position)
    ensures position == if e.Bin? then p + |Print(e.left)| else p
  {
    RootIsMain(e);
    var r := if e.Bin? then |Print(e.left)| else 0;
    assert TopOp(Print(e), r);
    MainIsUnique(Print(e), r, position - p);
  }

  lemma Slices(s: seq<Token>, p: nat, q: nat, a: seq<Token>, b: seq<Token>, c: seq<Token>)
    requires p <= q < |s| && s[p..q + 1] == a + b + c
    ensures q + 1 == p + |a| + |b| + |c|
    ensures s[p..p + |a|] == a && s[p + |a|..p + |a| + |b|] == b && s[p + |a| + |b|..q + 1] == c
  {
    var t := s[p..q + 1];
    assert t[..|a|] == a && t[|a|..|a| + |b|] == b && t[|a| + |b|..] == c;
    SubSlice(s, p, q, 0, |a|);
    SubSlice(s, p, q, |a|, |a| + |b|);
    SubSlice(s, p, q, |a| + |b|, |t|);
  }

  lemma SubSlice(s: seq<Token>, p: nat, q: nat, i: nat, j: nat)
    requires p <= q < |s| && i <= j <= q + 1 - p
    ensures s[p..q + 1][i..j] == s[p + i..p + j]
  {
    var t := s[p..q + 1];
    forall k | 0 <= k < j - i ensures t[i..j][k] == s[p + i..p + j][k] {
      assert t[i..j][k] == t[i + k] == s[p + i + k];
    }
  }

  // ----- evaluation -----

  /** The switch at the end of eval. */
  method Operate(tok: Token, val1: Word, val2: Word, w: World) returns (r: Result)
    requires tok.Op? || tok.Deref?
    ensures tok.Op? ==> r == Combine(tok.op, val1, val2)
    ensures tok.Deref? ==> r == Value(w.mem(val2))
  {
    hide Wrap, Quotient;
    match tok {
      case Op(Plus) => r := Value(Wrap(val1 + val2));
      case Op(Minus) => r := Value(Wrap(val1 - val2));
      case Op(Times) => r := Value(Wrap(val1 * val2));
      case Op(Over) => r := if val2 == 0 then DivideByZero else Value(Quotient(val1, val2));
      case Op(Equal) => r := Value(if val1 == val2 then 1 else 0);
      case Op(NotEqual) => r := Value(if val1 != val2 then 1 else 0);
      case Op(Both) => r := Value(if val1 != 0 && val2 != 0 then 1 else 0);
      case Deref => r := Value(w.mem(val2));
    }
  }

  /** eval on a range that holds a printed expression.  It terminates, meets no
      assertion, and computes the value of the tree modulo 2^64; it stops at a
      division by zero exactly when the tree divides by zero.  An empty range (the
      missing left operand of a dereference) gives 0. */
  method EvalRange(tokens: array<Token>, p: nat, q: nat, w: World, ghost e: Tree) returns (r: Result)
    requires q < tokens.Length
    requires p <= q ==> tokens[p..q + 1] == Print(e) && Grammatical(e)
    ensures r == if p > q then Value(0) else Eval(e, w)
    decreases q + 1 - p
  {
    hide Depth, Level, OpLevel, Wrapped, MainAt, TopOp, Found, Print, Combine;
    if p > q {
      return Value(0);
    }
    RootIsMain(e);
    if p == q {
      AtomRange(tokens[p..q + 1], e);
      match tokens[p] {
        case Num(n) => return Value(n);
        case HexNum(n) => return Value(n);
        case Reg(i) => return Value(w.gpr[i]);
        case CsrReg => return Value(0);
        case _ => assert false;
      }
    }
    var wrapped := CheckParentheses(tokens, p, q);
    if wrapped {
      ParenRange(tokens[..], p, q, e);
      r := EvalRange(tokens, p + 1, q - 1, w, e.inner);
      return;
    }
    var op := FindPositionMainOperator(tokens, p, q);
    FoundRoot(e, p, op);
    RootRange(tokens[..], p, q, e);
    var tok := tokens[op];
    var r1 := Value(0);
    if op != 0 {
      r1 := EvalRange(tokens, p, op - 1, w, if e.Bin? then e.left else e);
      if r1.DivideByZero? {
        return DivideByZero;
      }
    }
    var r2 := EvalRange(tokens, op + 1, q, w, if e.Bin? then e.right else e.inner);
    if r2.DivideByZero? {
      return DivideByZero;
    }
    r := Operate(tok, r1.v, r2.v, w);
  }

  lemma AtomRange(s: seq<Token>, e: Tree)
    requires |s| == 1 && s == Print(e) && Grammatical(e) && e.Atom?
    ensures s[0] == e.tok && IsAtom(s[0])
  {}

  lemma ParenRange(s: seq<Token>, p: nat, q: nat, e: Tree)
    requires p < q < |s| && s[p..q + 1] == Print(e) && e.Paren?
    ensures q >= p + 2 && s[p + 1..q] == Print(e.inner)
  {
    Slices(s, p, q, [Open], Print(e.inner), [Close]);
  }

  lemma RootRange(s: seq<Token>, p: nat, q: nat, e: Tree)
    requires p < q < |s| && s[p..q + 1] == Print(e)
    ensures e.Bin? ==> var op := p + |Print(e.left)|;
              p < op < q && s[op] == Op(e.op) && s[p..op] == Print(e.left) && s[op + 1..q + 1] == Print(e.right)
    ensures e.Star? ==> s[p] == Deref && s[p + 1..q + 1] == Print(e.inner)
  {
    if e.Bin? {
      Slices(s, p, q, Print(e.left), [Op(e.op)], Print(e.right));
      var op := p + |Print(e.left)|;
      assert s[op] == s[op..op + 1][0];
    } else if e.Star? {
      Slices(s, p, q, [], [Deref], Print(e.inner));
      assert [] + [Deref] + Print(e.inner) == Print(e);
      assert s[p] == s[p..p + 1][0];
    }
  }

  // ----- telling dereference from multiplication -----

  /** A token after which a star is read as multiplication. */
  predicate EndsOperand(t: Token) {
    t.Num? || t.HexNum? || t.Close?
  }

  /** The lexer produces one star for both uses. */
  function Lexed(s: seq<Token>): (r: seq<Token>)
    ensures |r| == |s| && forall i :: 0 <= i < |s| ==> r[i] == if s[i] == Deref then Op(Times) else s[i]
  {
    seq(|s|, i requires 0 <= i < |s| => if s[i] == Deref then Op(Times) else s[i])
  }

  /** What the token at position i becomes. */
  function ReclassifiedAt(s: seq<Token>, i: nat): Token
    requires i < |s|
  {
    if s[i] == Op(Times) && (i == 0 || !EndsOperand(s[i - 1])) then Deref else s[i]
  }

  function Reclassified(s: seq<Token>): (r: seq<Token>)
    ensures |r| == |s| && forall i: nat :: i < |s| ==> r[i] == ReclassifiedAt(s, i)
  {
    seq(|s|, i requires 0 <= i < |s| => ReclassifiedAt(s, i))
  }

  /** A star at position i is one that the reclassification reads as meant. */
  predicate StarPlaced(s: seq<Token>, i: nat)
    requires i < |s|
  {
    s[i] == Deref || s[i] == Op(Times) ==> (s[i] == Op(Times) <==> i > 0 && EndsOperand(s[i - 1]))
  }

  predicate StarsPlaced(s: seq<Token>) {
    forall i: nat :: i < |s| ==> StarPlaced(s, i)
  }

  lemma StarPlacedIsExact(s: seq<Token>, i: nat)
    requires i < |s|
    ensures Reclassified(Lexed(s))[i] == s[i] <==> StarPlaced(s, i)
  {
    var l := Lexed(s);
    var r := Reclassified(l);
    assert l[i] == if s[i] == Deref then Op(Times) else s[i];
    assert i > 0 ==> l[i - 1] == if s[i - 1] == Deref then Op(Times) else s[i - 1];
    assert r[i] == ReclassifiedAt(l, i);
  }

  lemma StarsPlacedIsExact(s: seq<Token>)
    ensures Reclassified(Lexed(s)) == s <==> StarsPlaced(s)
  {
    hide Lexed, Reclassified, StarPlaced;
    forall i: nat | i < |s| ensures Reclassified(Lexed(s))[i] == s[i] <==> StarPlaced(s, i) {
      StarPlacedIsExact(s, i);
    }
  }

  function LastToken(e: Tree): Token {
    Print(e)[|Print(e)| - 1]
  }

  /** No multiplication has a left operand that ends in a register. */
  predicate RegisterSafe(e: Tree) {
    match e
    case Atom(_) => true
    case Paren(inner) => RegisterSafe(inner)
    case Star(inner) => RegisterSafe(inner)
    case Bin(op, l, r) => RegisterSafe(l) && RegisterSafe(r) && (op == Times ==> EndsOperand(LastToken(l)))
  }

  lemma StarsInConcat(a: seq<Token>, op: BinOp, b: seq<Token>)
    requires |a| > 0 && |b| > 0
    ensures StarsPlaced(a + [Op(op)] + b)
            <==> StarsPlaced(a) && StarsPlaced(b) && (op == Times ==> EndsOperand(a[|a| - 1]))
  {
    var c := a + [Op(op)] + b;
    forall i: nat | i < |a| ensures StarPlaced(c, i) == StarPlaced(a, i) {
      assert c[i] == a[i] && (i > 0 ==> c[i - 1] == a[i - 1]);
    }
    forall i: nat | i < |b| ensures StarPlaced(c, |a| + 1 + i) == StarPlaced(b, i) {
      assert c[|a| + 1 + i] == b[i] && c[|a| + i] == if i > 0 then b[i - 1] else Op(op);
    }
    assert StarPlaced(c, |a|) == (op == Times ==> EndsOperand(a[|a| - 1])) by {
      assert c[|a|] == Op(op) && c[|a| - 1] == a[|a| - 1];
    }
    hide StarPlaced;
    forall i: nat | i < |c| && StarsPlaced(a) && StarsPlaced(b) && (op == Times ==> EndsOperand(a[|a| - 1]))
      ensures StarPlaced(c, i)
    {
      if i > |a| {
        assert StarPlaced(c, |a| + 1 + (i - |a| - 1)) == StarPlaced(b, i - |a| - 1);
      }
    }
  }

  lemma StarsAfter(t: Token, a: seq<Token>)
    requires |a| > 0 && (t == Deref || t == Open)
    ensures StarsPlaced([t] + a) <==> StarsPlaced(a)
  {
    var c := [t] + a;
    forall i: nat | i < |a| ensures StarPlaced(c, i + 1) == StarPlaced(a, i) {
      assert c[i + 1] == a[i] && c[i] == if i > 0 then a[i - 1] else t;
    }
    assert StarPlaced(c, 0);
    hide StarPlaced;
    forall i: nat | i < |c| && StarsPlaced(a) ensures StarPlaced(c, i) {
      if i > 0 {
        assert StarPlaced(c, (i - 1) + 1) == StarPlaced(a, i - 1);
      }
    }
  }

  lemma StarsBeforeClose(a: seq<Token>)
    ensures StarsPlaced(a + [Close]) <==> StarsPlaced(a)
  {
    var c := a + [Close];
    forall i: nat | i < |a| ensures StarPlaced(c, i) == StarPlaced(a, i) {
      assert c[i] == a[i] && (i > 0 ==> c[i - 1] == a[i - 1]);
    }
    assert StarPlaced(c, |a|);
    hide StarPlaced;
  }

  lemma {:induction false} StarsOfPrint(e: Tree)
    requires Grammatical(e)
    ensures StarsPlaced(Print(e)) <==> RegisterSafe(e)
  {
    match e {
      case Atom(_) =>
      case Paren(inner) =>
        StarsOfPrint(inner);
        StarsAfter(Open, Print(inner) + [Close]);
        StarsBeforeClose(Print(inner));
        assert Print(e) == [Open] + (Print(inner) + [Close]);
      case Star(inner) =>
        StarsOfPrint(inner);
        StarsAfter(Deref, Print(inner));
      case Bin(op, l, r) =>
        StarsOfPrint(l);
        StarsOfPrint(r);
        StarsInConcat(Print(l), op, Print(r));
    }
  }

  /** Reclassifying the stars of a printed expression recovers it exactly when no
      multiplication has a left operand that ends in a register. */
  lemma ReclassificationIsExact(e: Tree)
    requires Grammatical(e)
    ensures Reclassified(Lexed(Print(e))) == Print(e) <==> RegisterSafe(e)
  {
    StarsOfPrint(e);
    StarsPlacedIsExact(Print(e));
  }

  /** The loop of expr() that turns stars into dereferences, in place. */
  method ReclassifyStars(tokens: array<Token>, n: nat)
    requires n <= tokens.Length
    modifies tokens
    ensures tokens[..n] == Reclassified(old(tokens[..n])) && tokens[n..] == old(tokens[n..])
  {
    ghost var s := tokens[..n];
    var i := 0;
    while i < n
      invariant 0 <= i <= n
      invariant forall k: nat :: k < i ==> tokens[k] == ReclassifiedAt(s, k)
      invariant forall k :: i <= k < tokens.Length ==> tokens[k] == old(tokens[k])
    {
      if tokens[i] == Op(Times)
         && (i == 0 || (!tokens[i - 1].Num? && !tokens[i - 1].HexNum? && !tokens[i - 1].Close?)) {
        tokens[i] := Deref;
      }
      i := i + 1;
    }
    assert tokens[..n] == Reclassified(s);
  }

  /** expr() on the tokens of a printed expression: reclassify, then evaluate the
      whole range. */
  method EvalTokens(tokens: array<Token>, n: nat, w: World, ghost e: Tree) returns (r: Result)
    requires 0 < n <= tokens.Length && tokens[..n] == Lexed(Print(e))
    requires Grammatical(e) && RegisterSafe(e)
    modifies tokens
    ensures r == Eval(e, w)
    ensures tokens[..n] == Print(e) && tokens[n..] == old(tokens[n..])
  {
    hide Eval, Grammatical, RegisterSafe, Print, Lexed, Reclassified;
    ReclassificationIsExact(e);
    ReclassifyStars(tokens, n);
    assert tokens[0..n] == tokens[..n];
    r := EvalRange(tokens, 0, n - 1, w, e);
  }

  // ----- the printer with minimal parentheses -----

  predicate NeedsParens(op: BinOp, left: bool, e: Tree) {
    if left then TreeLevel(e) < OpLevel(op) || (op == Times && !EndsOperand(LastToken(e)))
    else TreeLevel(e) <= OpLevel(op)
  }

  function Guarded(e: Tree, needed: bool): Tree {
    if needed then Paren(e) else e
  }

  /** Adds the parentheses that the grammar, and the reading of stars after
      registers, require. */
  function Parenthesised(e: Tree): Tree {
    match e
    case Atom(_) => e
    case Paren(inner) => Paren(Parenthesised(inner))
    case Star(inner) => var i := Parenthesised(inner); Star(Guarded(i, TreeLevel(i) < 6))
    case Bin(op, l, r) =>
      var l', r' := Parenthesised(l), Parenthesised(r);
      Bin(op, Guarded(l', NeedsParens(op, true, l')), Guarded(r', NeedsParens(op, false, r')))
  }

  predicate AtomsOnly(e: Tree) {
    match e
    case Atom(t) => IsAtom(t)
    case Paren(inner) => AtomsOnly(inner)
    case Star(inner) => AtomsOnly(inner)
    case Bin(_, l, r) => AtomsOnly(l) && AtomsOnly(r)
  }

  /** For every expression tree whatsoever, the printed text is readable and means
      the same. */
  lemma {:induction false} ParenthesisedIsReadable(e: Tree, w: World)
    requires AtomsOnly(e)
    ensures Grammatical(Parenthesised(e)) && RegisterSafe(Parenthesised(e)) && Eval(Parenthesised(e), w) == Eval(e, w)
  {
    match e {
      case Atom(_) =>
      case Paren(inner) => ParenthesisedIsReadable(inner, w);
      case Star(inner) => ParenthesisedIsReadable(inner, w);
      case Bin(op, l, r) =>
        ParenthesisedIsReadable(l, w);
        ParenthesisedIsReadable(r, w);
        ParenEndsOperand(Parenthesised(l));
    }
  }

  lemma ParenEndsOperand(e: Tree)
    ensures EndsOperand(LastToken(Paren(e)))
  {}

  /** The tree without its parentheses. */
  function Bare(e: Tree): Tree {
    match e
    case Atom(_) => e
    case Paren(inner) => Bare(inner)
    case Star(inner) => Star(Bare(inner))
    case Bin(op, l, r) => Bin(op, Bare(l), Bare(r))
  }

  function Parens(e: Tree): nat {
    match e
    case Atom(_) => 0
    case Paren(inner) => 1 + Parens(inner)
    case Star(inner) => Parens(inner)
    case Bin(_, l, r) => Parens(l) + Parens(r)
  }

  lemma LastOfRight(op: BinOp, l: Tree, r: Tree)
    ensures LastToken(Bin(op, l, r)) == LastToken(r)
  {}

  lemma LastOfStar(e: Tree)
    ensures LastToken(Star(e)) == LastToken(e)
  {}

  /** The printer keeps the root, unless that is a parenthesis to be dropped. */
  lemma RootIsKept(e: Tree)
    requires !e.Paren?
    ensures TreeLevel(Parenthesised(Bare(e))) == TreeLevel(e)
  {
    hide NeedsParens;
  }

  /** What a readable tree pays where the printer would add a parenthesis. */
  ghost predicate Cheaper(e: Tree) {
    var m := Parenthesised(Bare(e));
    && Parens(m) <= Parens(e)
    && (EndsOperand(LastToken(e)) && !EndsOperand(LastToken(m)) ==> Parens(m) < Parens(e))
    && (e.Paren? ==> Parens(m) < Parens(e))
  }

  lemma CheaperBin(op: BinOp, l: Tree, r: Tree)
    requires Grammatical(Bin(op, l, r)) && RegisterSafe(Bin(op, l, r)) && Cheaper(l) && Cheaper(r)
    ensures Cheaper(Bin(op, l, r))
  {
    hide LastToken, EndsOperand;
    var e, ml, mr := Bin(op, l, r), Parenthesised(Bare(l)), Parenthesised(Bare(r));
    var gl, gr := Guarded(ml, NeedsParens(op, true, ml)), Guarded(mr, NeedsParens(op, false, mr));
    assert Parenthesised(Bare(e)) == Bin(op, gl, gr);
    hide Parenthesised, Bare, OpLevel;
    if !l.Paren? { RootIsKept(l); }
    if !r.Paren? { RootIsKept(r); }
    assert Parens(gl) <= Parens(l) && Parens(gr) <= Parens(r);
    LastOfRight(op, l, r);
    LastOfRight(op, gl, gr);
    ParenEndsOperand(mr);
    hide TreeLevel, NeedsParens, Cheaper;
    CheaperParts(e, Bin(op, gl, gr));
  }

  lemma CheaperParts(e: Tree, m: Tree)
    requires m == Parenthesised(Bare(e)) && !e.Paren? && Parens(m) <= Parens(e)
    requires EndsOperand(LastToken(e)) && !EndsOperand(LastToken(m)) ==> Parens(m) < Parens(e)
    ensures Cheaper(e)
  {}

  lemma CheaperStar(e: Tree)
    requires Grammatical(Star(e)) && Cheaper(e)
    ensures Cheaper(Star(e))
  {
    hide LastToken, EndsOperand;
    var m := Parenthesised(Bare(e));
    var g := Guarded(m, TreeLevel(m) < 6);
    assert Parenthesised(Bare(Star(e))) == Star(g);
    hide Parenthesised, Bare;
    if !e.Paren? { RootIsKept(e); }
    assert Parens(g) <= Parens(e);
    LastOfStar(e);
    LastOfStar(g);
    ParenEndsOperand(m);
    hide TreeLevel, Cheaper;
    CheaperParts(Star(e), Star(g));
  }

  lemma {:induction false} ReadableTreesPay(e: Tree)
    requires Grammatical(e) && RegisterSafe(e)
    ensures Cheaper(e)
  {
    match e {
      case Atom(_) =>
      case Paren(inner) => ReadableTreesPay(inner);
      case Star(inner) =>
        ReadableTreesPay(inner);
        CheaperStar(inner);
      case Bin(op, l, r) =>
        ReadableTreesPay(l);
        ReadableTreesPay(r);
        CheaperBin(op, l, r);
    }
  }

  /** The printer adds the fewest parentheses: no readable text of the same
      expression has fewer. */
  lemma ParenthesesAreMinimal(e: Tree, readable: Tree)
    requires Grammatical(readable) && RegisterSafe(readable) && Bare(readable) == Bare(e)
    ensures Parens(Parenthesised(Bare(e))) <= Parens(readable)
  {
    ReadableTreesPay(readable);
    hide *;
  }

  /** A tree that is already readable, written with parentheses of the user's own,
      gets none added. */
  lemma {:induction false} ReadableTreesAreKept(e: Tree)
    requires Grammatical(e) && RegisterSafe(e)
    ensures Parenthesised(e) == e
  {
    match e {
      case Atom(_) =>
      case Paren(inner) => ReadableTreesAreKept(inner);
      case Star(inner) => ReadableTreesAreKept(inner);
      case Bin(op, l, r) =>
        ReadableTreesAreKept(l);
        ReadableTreesAreKept(r);
    }
  }

  /** The grammar is unambiguous: a text has one tree. */
  lemma {:induction false} TextHasOneTree(a: Tree, b: Tree)
    requires Grammatical(a) && Grammatical(b) && Print(a) == Print(b)
    ensures a == b
    decreases a
  {
    RootIsMain(a);
    RootIsMain(b);
    SameRoot(a, b);
    match a {
      case Atom(_) =>
      case Paren(inner) =>
        assert Print(a)[1..|Print(a)| - 1] == Print(inner) && Print(b)[1..|Print(b)| - 1] == Print(b.inner);
        TextHasOneTree(inner, b.inner);
      case Star(inner) =>
        assert Print(a)[1..] == Print(inner) && Print(b)[1..] == Print(b.inner);
        TextHasOneTree(inner, b.inner);
      case Bin(op, l, r) =>
        var k := |Print(l)|;
        MainIsUnique(Print(a), k, |Print(b.left)|);
        BinParts(op, l, r);
        BinParts(b.op, b.left, b.right);
        TextHasOneTree(l, b.left);
        TextHasOneTree(r, b.right);
    }
  }

  lemma BinParts(op: BinOp, l: Tree, r: Tree)
    ensures var s, k := Print(Bin(op, l, r)), |Print(l)|;
            |s| > k && s[..k] == Print(l) && s[k] == Op(op) && s[k + 1..] == Print(r)
  {}

  lemma SameRoot(a: Tree, b: Tree)
    requires Grammatical(a) && Grammatical(b) && Print(a) == Print(b)
    ensures a.Atom? == b.Atom? && a.Paren? == b.Paren? && a.Star? == b.Star?
  {
    RootIsMain(a);
    RootIsMain(b);
    hide Wrapped, Grammatical, Depth, Level;
  }

  /** Printing any tree and evaluating the tokens gives the tree's value, or stops
      at a division by zero exactly when the tree divides by zero. */
  method PrintThenEval(tokens: array<Token>, w: World, ghost e: Tree) returns (r: Result)
    requires AtomsOnly(e) && tokens[..] == Lexed(Print(Parenthesised(e)))
    modifies tokens
    ensures r == Eval(e, w)
  {
    ParenthesisedIsReadable(e, w);
    assert tokens[..tokens.Length] == tokens[..];
    r := EvalTokens(tokens, tokens.Length, w, Parenthesised(e));
  }

  /** A register before a star: `$ra * 2` is read as a dereference. */
  lemma RegisterTimesIsMisread()
    ensures Reclassified(Lexed(Print(Bin(Times, Atom(Reg(1)), Atom(Num(2)))))) == [Reg(1), Deref, Num(2)]
  {
    var s := Print(Bin(Times, Atom(Reg(1)), Atom(Num(2))));
    assert s == [Reg(1), Op(Times), Num(2)];
  }
}
