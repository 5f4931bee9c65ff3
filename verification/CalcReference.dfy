/** The meaning of an expression, told by a grammar with one type for each level
    and nothing else: sums of terms, terms of factors, factors that are decimal
    numbers or sums in parentheses. The calculator computes it. */
module CalcReference {
  import opened CalcTokens
  import opened CalcGrammar
  import opened ShuntingYard
  import opened StackMachine
  import opened Calculator

  type Digit = d: nat | d < 10

  datatype Sum = JustTerm(term: Term) | Plus(left: Sum, term: Term) | Minus(left: Sum, term: Term)

  datatype Term = JustFactor(factor: Factor) | Times(left: Term, factor: Factor) | Over(left: Term, factor: Factor)

  datatype Factor = Number(high: seq<Digit>, low: Digit) | Group(sum: Sum)

  // ----- How it is written -----

  function DigitChars(ds: seq<Digit>): (s: string)
    ensures |s| == |ds| && forall k :: 0 <= k < |ds| ==> s[k] == "0123456789"[ds[k]]
  {
    seq(|ds|, k requires 0 <= k < |ds| => "0123456789"[ds[k]])
  }

  function WriteSum(s: Sum): seq<Token> {
    match s
    case JustTerm(t) => WriteTerm(t)
    case Plus(l, t) => WriteSum(l) + [Sym('+')] + WriteTerm(t)
    case Minus(l, t) => WriteSum(l) + [Sym('-')] + WriteTerm(t)
  }

  function WriteTerm(t: Term): seq<Token> {
    match t
    case JustFactor(f) => WriteFactor(f)
    case Times(l, f) => WriteTerm(l) + [Sym('*')] + WriteFactor(f)
    case Over(l, f) => WriteTerm(l) + [Sym('/')] + WriteFactor(f)
  }

  function WriteFactor(f: Factor): seq<Token> {
    match f
    case Number(high, low) => [Num(DigitChars(high + [low]))]
    case Group(s) => [Sym('(')] + WriteSum(s) + [Sym(')')]
  }

  function NestingSum(s: Sum): nat {
    match s
    case JustTerm(t) => NestingTerm(t)
    case Plus(l, t) => Max(NestingSum(l), NestingTerm(t))
    case Minus(l, t) => Max(NestingSum(l), NestingTerm(t))
  }

  function NestingTerm(t: Term): nat {
    match t
    case JustFactor(f) => NestingFactor(f)
    case Times(l, f) => Max(NestingTerm(l), NestingFactor(f))
    case Over(l, f) => Max(NestingTerm(l), NestingFactor(f))
  }

  function NestingFactor(f: Factor): nat {
    match f
    case Number(_, _) => 0
    case Group(s) => 1 + NestingSum(s)
  }

  // ----- What it is worth -----

  /** A value of C type int. */
  function Fits(v: int): Outcome {
    if -2147483648 <= v <= 2147483647 then Value(v) else Undefined
  }

  function Decimal(ds: seq<Digit>): nat {
    if ds == [] then 0 else 10 * Decimal(ds[..|ds|-1]) + ds[|ds|-1]
  }

  function SumValue(s: Sum): Outcome {
    match s
    case JustTerm(t) => TermValue(t)
    case Plus(l, t) =>
      (match (SumValue(l), TermValue(t)) case (Value(a), Value(b)) => Fits(a + b) case _ => Undefined)
    case Minus(l, t) =>
      (match (SumValue(l), TermValue(t)) case (Value(a), Value(b)) => Fits(a - b) case _ => Undefined)
  }

  function TermValue(t: Term): Outcome {
    match t
    case JustFactor(f) => FactorValue(f)
    case Times(l, f) =>
      (match (TermValue(l), FactorValue(f)) case (Value(a), Value(b)) => Fits(a * b) case _ => Undefined)
    case Over(l, f) =>
      (match (TermValue(l), FactorValue(f))
       case (Value(a), Value(b)) => if b == 0 then Undefined else Fits(TruncDiv(a, b))
       case _ => Undefined)
  }

  function FactorValue(f: Factor): Outcome {
    match f
    case Number(high, low) => Fits(Decimal(high + [low]))
    case Group(s) => SumValue(s)
  }

  // ----- As a parse tree -----

  function SumTree(s: Sum): Expr {
    match s
    case JustTerm(t) => TermTree(t)
    case Plus(l, t) => Bin('+', SumTree(l), TermTree(t))
    case Minus(l, t) => Bin('-', SumTree(l), TermTree(t))
  }

  function TermTree(t: Term): Expr {
    match t
    case JustFactor(f) => FactorTree(f)
    case Times(l, f) => Bin('*', TermTree(l), FactorTree(f))
    case Over(l, f) => Bin('/', TermTree(l), FactorTree(f))
  }

  function FactorTree(f: Factor): Expr {
    match f
    case Number(high, low) => Lit(DigitChars(high + [low]))
    case Group(s) => Paren(SumTree(s))
  }

  lemma DigitIs(d: Digit)
    ensures var c := "0123456789"[d]; IsDigit(c) && (c - '0') as nat == d
  {
  }

  lemma {:induction false} DigitsAreDecimal(ds: seq<Digit>)
    ensures AllDigits(DigitChars(ds)) && NumValue(DigitChars(ds)) == Decimal(ds)
  {
    forall k | 0 <= k < |ds| ensures IsDigit(DigitChars(ds)[k]) { DigitIs(ds[k]); }
    if ds != [] {
      var n := |ds| - 1;
      DigitsAreDecimal(ds[..n]);
      DigitIs(ds[n]);
      assert DigitChars(ds)[..n] == DigitChars(ds[..n]);
    }
  }

  lemma {:induction false} SumIsTree(s: Sum)
    ensures var e := SumTree(s);
            && Parsed(e) && Level(e) >= 1 && Tokens(e) == WriteSum(s)
            && Depth(e) == NestingSum(s) && Eval(e) == SumValue(s)
  {
    match s
    case JustTerm(t) => TermIsTree(t);
    case Plus(l, t) => SumIsTree(l); TermIsTree(t);
    case Minus(l, t) => SumIsTree(l); TermIsTree(t);
  }

  lemma {:induction false} TermIsTree(t: Term)
    ensures var e := TermTree(t);
            && Parsed(e) && Level(e) >= 2 && Tokens(e) == WriteTerm(t)
            && Depth(e) == NestingTerm(t) && Eval(e) == TermValue(t)
  {
    match t
    case JustFactor(f) => FactorIsTree(f);
    case Times(l, f) => TermIsTree(l); FactorIsTree(f);
    case Over(l, f) => TermIsTree(l); FactorIsTree(f);
  }

  lemma {:induction false} FactorIsTree(f: Factor)
    ensures var e := FactorTree(f);
            && Parsed(e) && Level(e) == 3 && Tokens(e) == WriteFactor(f)
            && Depth(e) == NestingFactor(f) && Eval(e) == FactorValue(f)
  {
    match f
    case Number(high, low) => DigitsAreDecimal(high + [low]);
    case Group(s) => SumIsTree(s);
  }

  /** Semantic preservation: for every sum, every spacing of it in at most 128
      characters and nesting of at most 10 parentheses, the calculator is defined
      if and only if the sum is, and then computes its value. */
  lemma CalculatorComputesSums(s: Sum, gaps: seq<nat>)
    requires |gaps| == |WriteSum(s)| + 1
    requires NestingSum(s) <= 10 && |Layout(WriteSum(s), gaps)| <= 128
    ensures var text := Layout(WriteSum(s), gaps);
            && Spelled(ToPostfix(Lex(text))) && Machine(ToPostfix(Lex(text)), []) == SumValue(s)
            && (Calculable(text) <==> SumValue(s).Value?)
  {
    SumIsTree(s);
    CalculatorCorrect(SumTree(s), gaps);
  }
}
