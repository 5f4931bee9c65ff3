/** The bounds on depth are attained: trees that use the stacks of the calculator
    to the full, and the depth from which on they no longer suffice. */
module CalcLimits {
  import opened CalcTokens
  import opened CalcGrammar
  import opened ShuntingYard
  import opened StackMachine
  import opened Calculator

  const ONE: Expr := Lit(['1'])

  /** `1+1*x`. */
  function OnePlus(x: Expr): Expr { Bin('+', ONE, Bin('*', ONE, x)) }

  /** `1+1*(1+1*( ... 1+1*1 ... ))` with `d` pairs of parentheses. */
  function Deep(d: nat): Expr { OnePlus(if d == 0 then ONE else Paren(Deep(d - 1))) }

  lemma OneIsOne()
    ensures Parsed(ONE) && Eval(ONE) == Value(1)
  {
    assert ['1'][..0] == [];
    assert NumValue([]) == 0;
    assert NumValue(['1']) == 1;
  }

  lemma OnePlusIs(x: Expr)
    requires Parsed(x) && Level(x) == 3
    ensures Parsed(OnePlus(x)) && Depth(OnePlus(x)) == Depth(x) && Height(OnePlus(x)) == 2 + Height(x)
    ensures Eval(x).Value? && 0 <= Eval(x).v < INT_MAX ==> Eval(OnePlus(x)) == Value(1 + Eval(x).v)
  {
    OneIsOne();
    HeightPositive(x);
    var product := Bin('*', ONE, x);
    assert Parsed(product) && Level(product) == 2;
    if Eval(x).Value? && 0 <= Eval(x).v < INT_MAX { ValueRanged(x); assert Eval(product) == Eval(x); }
  }

  lemma ValueRanged(x: Expr)
    requires Parsed(x) && Eval(x).Value?
    ensures Eval(x).v >= INT_MIN
  {
  }

  lemma {:induction false} DeepIsTree(d: nat)
    ensures Parsed(Deep(d)) && Depth(Deep(d)) == d && Height(Deep(d)) == 2 * d + 3
    ensures d + 2 <= INT_MAX ==> Eval(Deep(d)) == Value(d + 2)
  {
    OneIsOne();
    if d == 0 {
      OnePlusIs(ONE);
    } else {
      DeepIsTree(d - 1);
      OnePlusIs(Paren(Deep(d - 1)));
    }
  }

  /** What stands in front of the innermost operand of one level. */
  const HEAD: seq<Token> := [Num(['1']), Sym('+'), Num(['1']), Sym('*')]

  function Operand(d: nat): seq<Token> {
    if d == 0 then [Num(['1'])] else [Sym('(')] + (Tokens(Deep(d - 1)) + [Sym(')')])
  }

  lemma OnePlusTokens(x: Expr)
    ensures Tokens(OnePlus(x)) == HEAD + Tokens(x)
  {
    assert Tokens(ONE) == [Num(['1'])];
    assert Tokens(Bin('*', ONE, x)) == [Num(['1']), Sym('*')] + Tokens(x);
    assert Tokens(OnePlus(x)) == [Num(['1']), Sym('+')] + ([Num(['1']), Sym('*')] + Tokens(x));
  }

  lemma DeepTokens(d: nat)
    ensures Tokens(Deep(d)) == HEAD + Operand(d)
  {
    OnePlusTokens(if d == 0 then ONE else Paren(Deep(d - 1)));
    if d > 0 { assert Tokens(Paren(Deep(d - 1))) == Operand(d); }
  }

  lemma {:induction false} DeepSize(d: nat)
    ensures |Tokens(Deep(d))| == 6 * d + 5
    ensures forall k :: 0 <= k < |Tokens(Deep(d))| ==> |Spell(Tokens(Deep(d))[k])| == 1
  {
    DeepTokens(d);
    if d > 0 { DeepSize(d - 1); }
  }

  /** An operator waits on a stack whose top binds less tightly. */
  lemma OperatorWaits(y: Yard, c: char, rest: seq<Token>) returns (z: Yard)
    requires (c == '+' || c == '*') && Stops(y.stack, Prec(c))
    ensures z.stack == y.stack + [c] && Peak(y, [Num(['1']), Sym(c)] + rest) >= Peak(z, rest)
  {
    var toks := [Num(['1']), Sym(c)] + rest;
    var y1 := Step(y, toks[0]);
    z := Step(y1, Sym(c));
    PeakFrom(y, toks);
    PeakFrom(y1, toks[1..]);
    assert toks[1..][0] == Sym(c) && toks[1..][1..] == rest;
    assert z.stack == y.stack + [c];
  }

  /** Both operators of a level wait on the stack. */
  lemma HeadWaits(y: Yard, rest: seq<Token>) returns (z: Yard)
    requires Stops(y.stack, 1)
    ensures z.stack == y.stack + ['+'] + ['*'] && Peak(y, HEAD + rest) >= Peak(z, rest)
  {
    var tail := [Num(['1']), Sym('*')] + rest;
    assert HEAD + rest == [Num(['1']), Sym('+')] + tail;
    z := OperatorWaits(y, '+', tail);
    z := OperatorWaits(z, '*', rest);
  }

  lemma PeakFrom(y: Yard, toks: seq<Token>)
    requires toks != []
    ensures Peak(y, toks) >= Peak(Step(y, toks[0]), toks[1..])
  {
  }

  /** Three entries per level, and two more. */
  lemma {:induction false} DeepPeak(y: Yard, d: nat)
    requires Stops(y.stack, 1)
    ensures Peak(y, Tokens(Deep(d))) >= |y.stack| + 3 * d + 2
    decreases d
  {
    DeepTokens(d);
    var z := HeadWaits(y, Operand(d));
    if d > 0 {
      var inside := Step(z, Sym('('));
      PeakFrom(z, Operand(d));
      assert Operand(d)[1..] == Tokens(Deep(d - 1)) + [Sym(')')];
      DeepPeak(inside, d - 1);
      RunAppend(inside, Tokens(Deep(d - 1)), [Sym(')')]);
    }
  }

  function NoGaps(n: nat): seq<nat> { seq(n, _ => 0) }

  lemma {:induction false} LayoutSize(toks: seq<Token>)
    requires forall k :: 0 <= k < |toks| ==> |Spell(toks[k])| == 1
    ensures |Layout(toks, NoGaps(|toks| + 1))| == |toks|
  {
    if toks != [] {
      LayoutSize(toks[1..]);
      assert NoGaps(|toks| + 1)[1..] == NoGaps(|toks[1..]| + 1);
    }
  }

  /** The text of `Deep(d)` without any space. */
  function DeepText(d: nat): string { Layout(Tokens(Deep(d)), NoGaps(|Tokens(Deep(d))| + 1)) }

  lemma DeepReads(d: nat)
    ensures |DeepText(d)| == 6 * d + 5 && Lex(DeepText(d)) == Tokens(Deep(d))
  {
    var toks := Tokens(Deep(d));
    DeepSize(d);
    LayoutSize(toks);
    DeepIsTree(d);
    TokensSpelled(Deep(d));
    forall k | 0 < k < |toks| ensures !(toks[k-1].Num? && toks[k].Num?) { TokensApart(Deep(d), k); }
    LexLayout(toks, NoGaps(|toks| + 1));
  }

  /** The stack bounds are attained at every depth, by a text of 6d + 5
      characters; and that text can be calculated exactly up to depth 10. */
  lemma DepthLimitIsTight(d: nat)
    ensures Parsed(Deep(d)) && Depth(Deep(d)) == d && |DeepText(d)| == 6 * d + 5
    ensures Peak(START, Lex(DeepText(d))) == 3 * d + 2
    ensures Spelled(Postfix(Deep(d)))
    ensures d + 2 <= INT_MAX ==> Tallest(Postfix(Deep(d)), []) == 2 * d + 3
    ensures Calculable(DeepText(d)) <==> d <= 10
  {
    DeepIsTree(d);
    DeepReads(d);
    DeepPeak(START, d);
    TranslatesTree(Deep(d));
    ValueStackBound(Deep(d));
    if d <= 10 { CalculatorCorrect(Deep(d), NoGaps(|Tokens(Deep(d))| + 1)); }
  }
}
