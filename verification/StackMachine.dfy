/** The evaluator of postfix tokens: a stack machine with 32 slots. */
module StackMachine {
  import opened CalcTokens
  import opened CalcGrammar
  import opened ShuntingYard

  const SLOTS: nat := 32

  /** The value the machine returns from here on; `stack` has its top at the
      end. An operator with too few operands, or a final stack that does not
      hold exactly one value, yields 0. */
  function Machine(toks: seq<Token>, stack: seq<int>): Outcome
    requires Spelled(toks)
  {
    if toks == [] then Value(if |stack| == 1 then stack[0] else 0)
    else
      match toks[0]
      case Num(ds) =>
        if |stack| >= SLOTS || Ranged(NumValue(ds)).Undefined? then Undefined
        else Machine(toks[1..], stack + [NumValue(ds)])
      case Sym(c) =>
        if |stack| < 2 then Value(0)
        else
          var n := |stack| - 2;
          match Apply(stack[n], stack[n+1], c)
          case Undefined => Undefined
          case Value(v) => Machine(toks[1..], stack[..n] + [v])
  }

  /** The same machine with a stack that never runs out. */
  function Unbounded(toks: seq<Token>, stack: seq<int>): Outcome
    requires Spelled(toks)
  {
    if toks == [] then Value(if |stack| == 1 then stack[0] else 0)
    else
      match toks[0]
      case Num(ds) =>
        if Ranged(NumValue(ds)).Undefined? then Undefined else Unbounded(toks[1..], stack + [NumValue(ds)])
      case Sym(c) =>
        if |stack| < 2 then Value(0)
        else
          var n := |stack| - 2;
          match Apply(stack[n], stack[n+1], c)
          case Undefined => Undefined
          case Value(v) => Unbounded(toks[1..], stack[..n] + [v])
  }

  /** The tallest stack it reaches. */
  function Tallest(toks: seq<Token>, stack: seq<int>): (h: nat)
    requires Spelled(toks)
    ensures |stack| <= h
  {
    if toks == [] then |stack|
    else
      match toks[0]
      case Num(ds) =>
        if Ranged(NumValue(ds)).Undefined? then |stack| else Tallest(toks[1..], stack + [NumValue(ds)])
      case Sym(c) =>
        if |stack| < 2 then |stack|
        else
          var n := |stack| - 2;
          match Apply(stack[n], stack[n+1], c)
          case Undefined => |stack|
          case Value(v) => Max(|stack|, Tallest(toks[1..], stack[..n] + [v]))
  }

  /** On any tokens, 32 slots make no difference to a stack that does not grow
      taller; and they make the outcome undefined otherwise. */
  lemma {:induction false} SlotsSufficeWhen(toks: seq<Token>, stack: seq<int>)
    requires Spelled(toks) && |stack| <= 32
    ensures Machine(toks, stack) == if Tallest(toks, stack) <= 32 then Unbounded(toks, stack) else Undefined
  {
    if toks != [] {
      match toks[0]
      case Num(ds) =>
        if |stack| < SLOTS && Ranged(NumValue(ds)).Value? { SlotsSufficeWhen(toks[1..], stack + [NumValue(ds)]); }
      case Sym(c) =>
        if |stack| >= 2 {
          var n := |stack| - 2;
          var r := Apply(stack[n], stack[n+1], c);
          if r.Value? { SlotsSufficeWhen(toks[1..], stack[..n] + [r.v]); }
        }
    }
  }

  /** Stack slots that evaluating `e` takes. */
  function Height(e: Expr): nat {
    match e
    case Lit(_) => 1
    case Bin(_, l, r) => Max(Height(l), 1 + Height(r))
    case Paren(inner) => Height(inner)
  }

  lemma {:induction false} HeightBound(e: Expr)
    requires Parsed(e)
    ensures Height(e) <= 2 * Depth(e) + 4 - Level(e)
  {
    match e
    case Lit(_) =>
    case Bin(_, l, r) => HeightBound(l); HeightBound(r);
    case Paren(inner) => HeightBound(inner);
  }

  lemma {:induction false} PostfixSpelled(e: Expr)
    requires Parsed(e)
    ensures Spelled(Postfix(e))
  {
    match e
    case Lit(_) =>
    case Bin(_, l, r) => PostfixSpelled(l); PostfixSpelled(r);
    case Paren(inner) => PostfixSpelled(inner);
  }

  /** Running the postfix form of `e` in front of anything pushes its value, or
      is undefined exactly when the value is. */
  lemma {:induction false} MachineRunsTree(e: Expr, rest: seq<Token>, stack: seq<int>)
    requires Parsed(e) && Spelled(rest) && Spelled(Postfix(e))
    requires |stack| + Height(e) <= SLOTS
    ensures Machine(Postfix(e) + rest, stack) ==
            if Eval(e).Undefined? then Undefined else Machine(rest, stack + [Eval(e).v])
    decreases e
  {
    match e
    case Lit(ds) =>
      assert (Postfix(e) + rest)[1..] == rest;
    case Paren(inner) =>
      MachineRunsTree(inner, rest, stack);
    case Bin(op, l, r) =>
      PostfixSpelled(l);
      PostfixSpelled(r);
      var more := [Sym(op)] + rest;
      assert Postfix(e) + rest == Postfix(l) + (Postfix(r) + more);
      MachineRunsTree(l, Postfix(r) + more, stack);
      if Eval(l).Value? {
        MachineRunsTree(r, more, stack + [Eval(l).v]);
        if Eval(r).Value? { MachineAppliesOperator(op, Eval(l).v, Eval(r).v, rest, stack); }
      }
  }

  lemma MachineAppliesOperator(op: char, a: int, b: int, rest: seq<Token>, stack: seq<int>)
    requires Spelled(rest) && Prec(op) > 0
    ensures Machine([Sym(op)] + rest, stack + [a] + [b]) ==
            if Apply(a, b, op).Undefined? then Undefined else Machine(rest, stack + [Apply(a, b, op).v])
  {
    var s := stack + [a] + [b];
    assert ([Sym(op)] + rest)[1..] == rest;
    assert |s| - 2 == |stack| && s[|s| - 2] == a && s[|s| - 1] == b && s[..|s| - 2] == stack;
  }

  /** While `code` runs down to `rest`, the stack grows by `Height(e)`, or less
      if the value of `e` is undefined. */
  predicate GrowsBy(e: Expr, code: seq<Token>, rest: seq<Token>, stack: seq<int>)
    requires Parsed(e) && Spelled(code) && Spelled(rest)
  {
    if Eval(e).Value? then Tallest(code, stack) == Max(|stack| + Height(e), Tallest(rest, stack + [Eval(e).v]))
    else Tallest(code, stack) <= |stack| + Height(e)
  }

  lemma {:induction false} TallestTree(e: Expr, rest: seq<Token>, stack: seq<int>)
    requires Parsed(e) && Spelled(rest) && Spelled(Postfix(e))
    ensures GrowsBy(e, Postfix(e) + rest, rest, stack)
    decreases e
  {
    match e
    case Lit(ds) =>
      assert (Postfix(e) + rest)[1..] == rest;
    case Paren(inner) =>
      TallestTree(inner, rest, stack);
    case Bin(op, l, r) =>
      PostfixSpelled(l);
      PostfixSpelled(r);
      var more := [Sym(op)] + rest;
      assert Postfix(e) + rest == Postfix(l) + (Postfix(r) + more);
      TallestTree(l, Postfix(r) + more, stack);
      if Eval(l).Value? { TallestTree(r, more, stack + [Eval(l).v]); }
      TallestBin(op, l, r, Postfix(e) + rest, Postfix(r) + more, rest, stack);
  }

  lemma TallestBin(op: char, l: Expr, r: Expr, code: seq<Token>, mid: seq<Token>, rest: seq<Token>, stack: seq<int>)
    requires Parsed(Bin(op, l, r)) && Spelled(code) && Spelled(mid) && Spelled(rest) && Spelled([Sym(op)] + rest)
    requires GrowsBy(l, code, mid, stack)
    requires Eval(l).Value? ==> GrowsBy(r, mid, [Sym(op)] + rest, stack + [Eval(l).v])
    ensures GrowsBy(Bin(op, l, r), code, rest, stack)
  {
    HeightPositive(r);
    if Eval(l).Value? && Eval(r).Value? {
      BothDefined(op, Eval(l).v, Eval(r).v, rest, stack, Tallest(code, stack), Height(l), Height(r));
    }
  }

  lemma BothDefined(op: char, a: int, b: int, rest: seq<Token>, stack: seq<int>, t: nat, hl: nat, hr: nat)
    requires Spelled(rest) && Spelled([Sym(op)] + rest) && Prec(op) > 0 && hr > 0
    requires t == Max(|stack| + hl, Max(|stack| + 1 + hr, Tallest([Sym(op)] + rest, stack + [a] + [b])))
    ensures Apply(a, b, op).Undefined? ==> t == |stack| + Max(hl, 1 + hr)
    ensures Apply(a, b, op).Value? ==>
              t == Max(|stack| + Max(hl, 1 + hr), Tallest(rest, stack + [Apply(a, b, op).v]))
  {
    TallestOperator(op, a, b, rest, stack);
  }

  lemma TallestOperator(op: char, a: int, b: int, rest: seq<Token>, stack: seq<int>)
    requires Spelled(rest) && Prec(op) > 0
    ensures Tallest([Sym(op)] + rest, stack + [a] + [b]) ==
            if Apply(a, b, op).Undefined? then |stack| + 2
            else Max(|stack| + 2, Tallest(rest, stack + [Apply(a, b, op).v]))
  {
    var s := stack + [a] + [b];
    assert ([Sym(op)] + rest)[1..] == rest;
    assert |s| - 2 == |stack| && s[|s| - 2] == a && s[|s| - 1] == b && s[..|s| - 2] == stack;
  }

  /** The value stack never exceeds 2d + 3 entries for parenthesis depth d; it
      gets as tall as the tree says if the value is defined. */
  lemma ValueStackBound(e: Expr)
    requires Parsed(e)
    ensures Spelled(Postfix(e)) && Tallest(Postfix(e), []) <= 2 * Depth(e) + 3
    ensures Eval(e).Value? ==> Tallest(Postfix(e), []) == Height(e)
  {
    PostfixSpelled(e);
    HeightBound(e);
    TallestTree(e, [], []);
    assert Postfix(e) + [] == Postfix(e);
    HeightPositive(e);
  }

  lemma HeightPositive(e: Expr)
    ensures Height(e) >= 1
  {
  }

  lemma EvaluatesTree(e: Expr)
    requires Parsed(e) && Depth(e) <= 10
    ensures Spelled(Postfix(e)) && Machine(Postfix(e), []) == Eval(e)
  {
    PostfixSpelled(e);
    HeightBound(e);
    MachineRunsTree(e, [], []);
    assert Postfix(e) + [] == Postfix(e);
  }

  // ----- Tokens that are no postfix form of a tree -----

  /** On a stack of `h` values every operator finds two, and one value is left. */
  predicate Balanced(toks: seq<Token>, h: nat) {
    if toks == [] then h == 1
    else if toks[0].Num? then Balanced(toks[1..], h + 1)
    else h >= 2 && Balanced(toks[1..], h - 1)
  }

  /** Otherwise the machine returns 0, if it is defined. */
  lemma {:induction false} UnbalancedYieldsZero(toks: seq<Token>, stack: seq<int>)
    requires Spelled(toks) && !Balanced(toks, |stack|)
    ensures Machine(toks, stack) in {Value(0), Undefined}
  {
    if toks != [] {
      match toks[0]
      case Num(ds) =>
        if Ranged(NumValue(ds)).Value? { UnbalancedYieldsZero(toks[1..], stack + [NumValue(ds)]); }
      case Sym(c) =>
        if |stack| >= 2 {
          var n := |stack| - 2;
          var r := Apply(stack[n], stack[n+1], c);
          if r.Value? { UnbalancedYieldsZero(toks[1..], stack[..n] + [r.v]); }
        }
    }
  }

  /** An unknown operator makes 0 of its operands. */
  lemma UnknownOperator(c: char, a: int, b: int, rest: seq<Token>, stack: seq<int>)
    requires Spelled(rest) && WellSpelled(Sym(c)) && c !in "+-*/"
    ensures Spelled([Sym(c)] + rest)
    ensures Machine([Sym(c)] + rest, stack + [a] + [b]) == Machine(rest, stack + [0])
  {
    var s := stack + [a] + [b];
    assert ([Sym(c)] + rest)[1..] == rest;
    assert |s| - 2 == |stack| && s[..|s| - 2] == stack;
  }
}
