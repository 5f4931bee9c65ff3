/** The calculator as it runs: character buffers, index loops and fixed-size
    stacks, proved against the token-level translation and machine. */
module Calculator {
  import opened CalcTokens
  import opened CalcGrammar
  import opened ShuntingYard
  import opened StackMachine

  const START := Yard("", [])

  /** `buf` holds the C string `s`: its characters and then the terminator. */
  ghost predicate Holds(buf: seq<char>, s: string) {
    |s| < |buf| && buf[..|s|] == s && buf[|s|] == '\0' && '\0' !in s
  }

  // ----- Translation -----

  /** Writes an operator and the space after it. */
  method PutOperator(postfix: array<char>, j0: nat, c: char, ghost out: seq<Token>) returns (j: nat)
    requires j0 + 2 <= postfix.Length && postfix[..j0] == Emit(out)
    modifies postfix
    ensures j == j0 + 2 && postfix[..j] == Emit(out + [Sym(c)])
  {
    EmitSnoc(out, Sym(c));
    postfix[j0] := c;
    postfix[j0+1] := ' ';
    j := j0 + 2;
  }

  /** The loops that pop operators: onto the output until a parenthesis or an
      operator below `p` is on top. Popping down to a parenthesis is `p == 0`. */
  method PopOperators(stack: array<char>, top0: int, p: nat, postfix: array<char>, j0: nat,
                      ghost y: Yard)
    returns (top: int, j: nat)
    requires -1 <= top0 < stack.Length && stack != postfix && j0 <= postfix.Length
    requires y.stack == stack[..top0+1] && postfix[..j0] == Emit(y.out)
    requires j0 + Size(Unwind(y.stack, p).emitted) <= postfix.Length
    modifies postfix
    ensures -1 <= top <= top0 && j <= postfix.Length
    ensures stack[..top+1] == Drained(y, p).stack && postfix[..j] == Emit(Drained(y, p).out)
  {
    top, j := top0, j0;
    ghost var z, goal := y, Drained(y, p);
    while top > -1 && stack[top] != '(' && Prec(stack[top]) >= p
      invariant -1 <= top <= top0 && j <= postfix.Length
      invariant z.stack == stack[..top+1] && postfix[..j] == Emit(z.out)
      invariant Drained(z, p) == goal
      invariant j + StillToPop(z, p) <= postfix.Length
    {
      TopOfPrefix(stack[..], top);
      assert stack[..][..top+1] == z.stack;
      DrainOne(z, p);
      j := PopOne(stack, top, postfix, j, z);
      z := Popped1(z);
      top := top - 1;
    }
    if top > -1 { assert Top(z.stack) == stack[top]; }
    DrainStops(z, p);
  }

  /** Characters that the popping loop will write. */
  ghost function StillToPop(y: Yard, p: nat): nat { Size(Unwind(y.stack, p).emitted) }

  lemma DrainStops(y: Yard, p: nat)
    requires Stops(y.stack, p)
    ensures Drained(y, p) == y
  {
    assert y.out + [] == y.out;
  }

  lemma TopOfPrefix(s: string, top: nat)
    requires top < |s|
    ensures s[..top+1] != "" && Top(s[..top+1]) == s[top] && Init(s[..top+1]) == s[..top]
  {
  }

  /** Moves the operator on top of the stack to the output. */
  method PopOne(stack: array<char>, top: nat, postfix: array<char>, j0: nat, ghost y: Yard) returns (j: nat)
    requires top < stack.Length && stack != postfix && j0 + 2 <= postfix.Length
    requires y.stack == stack[..top+1] && postfix[..j0] == Emit(y.out)
    modifies postfix
    ensures j == j0 + 2 && postfix[..j] == Emit(Popped1(y).out) && Popped1(y).stack == stack[..top]
  {
    TopOfPrefix(stack[..], top);
    assert stack[..][..top+1] == stack[..top+1] && stack[..][..top] == stack[..top];
    j := PutOperator(postfix, j0, stack[top], y.out);
  }

  /** One operator moved from the stack to the output. */
  ghost function Popped1(y: Yard): Yard
    requires y.stack != ""
  {
    Yard(Init(y.stack), y.out + [Sym(Top(y.stack))])
  }

  lemma DrainOne(y: Yard, p: nat)
    requires !Stops(y.stack, p)
    ensures Drained(Popped1(y), p) == Drained(y, p)
    ensures StillToPop(y, p) == 2 + StillToPop(Popped1(y), p)
  {
    var u := Unwind(Init(y.stack), p);
    assert Unwind(y.stack, p).emitted[1..] == u.emitted;
    Associative(y.out, [Sym(Top(y.stack))], u.emitted);
  }

  /** The loop after the last character, and the terminator over the last space. */
  method Finish(stack: array<char>, top0: int, postfix: array<char>, j0: nat, ghost y: Yard)
    requires postfix.Length > 0
    requires -1 <= top0 < stack.Length && stack != postfix && j0 <= postfix.Length
    requires y.stack == stack[..top0+1] && postfix[..j0] == Emit(y.out)
    requires j0 + Size(Flush(y.stack)) <= postfix.Length
    modifies postfix
    ensures |Render(Whole(y))| < postfix.Length
    ensures postfix[..|Render(Whole(y))|] == Render(Whole(y))
    ensures postfix[|Render(Whole(y))|] == '\0'
  {
    var top, j := top0, j0;
    ghost var z := y;
    while top > -1
      invariant -1 <= top <= top0 && 0 <= j <= postfix.Length
      invariant z.stack == stack[..top+1] && postfix[..j] == Emit(z.out)
      invariant Whole(z) == Whole(y)
      invariant j + Size(Flush(z.stack)) <= postfix.Length
    {
      assert z.stack != "" && Top(z.stack) == stack[top];
      FlushOne(z);
      if stack[top] == '(' {
        z := Yard(Init(z.stack), z.out);
      } else {
        j := PutOperator(postfix, j, stack[top], z.out);
        z := Yard(Init(z.stack), z.out + [Sym(stack[top])]);
      }
      top := top - 1;
    }
    assert Whole(z) == z.out;
    Terminate(postfix, j, z.out);
  }

  lemma FlushOne(y: Yard)
    requires y.stack != ""
    ensures Top(y.stack) == '(' ==>
              && Whole(Yard(Init(y.stack), y.out)) == Whole(y)
              && Size(Flush(y.stack)) == Size(Flush(Init(y.stack)))
    ensures Top(y.stack) != '(' ==>
              && Whole(Yard(Init(y.stack), y.out + [Sym(Top(y.stack))])) == Whole(y)
              && Size(Flush(y.stack)) == Size(Flush(Init(y.stack))) + 2
  {
    assert Top(y.stack) == '(' ==> Flush(y.stack) == Flush(Init(y.stack));
    assert Top(y.stack) != '(' ==> Flush(y.stack)[1..] == Flush(Init(y.stack));
  }

  /** Overwrites the last space, if any, with the terminator. */
  method Terminate(postfix: array<char>, j: nat, ghost out: seq<Token>)
    requires 0 < postfix.Length && j <= postfix.Length && postfix[..j] == Emit(out)
    modifies postfix
    ensures |Render(out)| < postfix.Length
    ensures postfix[..|Render(out)|] == Render(out)
    ensures postfix[|Render(out)|] == '\0'
  {
    RenderIsEmit(out);
    if j > 0 {
      postfix[j-1] := '\0';
    } else {
      postfix[j] := '\0';
    }
  }

  /** The loop that copies a number and the space after it. */
  method CopyNumber(infix: string, i0: nat, postfix: array<char>, j0: nat, ghost out0: seq<Token>)
    returns (i: nat, j: nat)
    requires i0 < |infix| && j0 + (RunEnd(infix, i0) - i0) < postfix.Length
    requires postfix[..j0] == Emit(out0)
    modifies postfix
    ensures i == RunEnd(infix, i0)
    ensures j <= postfix.Length && postfix[..j] == Emit(out0 + [Num(infix[i0..i])])
  {
    i, j := CopyDigits(infix, i0, postfix, j0);
    ghost var digits := postfix[..j];
    postfix[j] := ' ';
    j := j + 1;
    assert postfix[..j] == digits + " ";
    EmitSnoc(out0, Num(infix[i0..i]));
  }

  method CopyDigits(infix: string, i0: nat, postfix: array<char>, j0: nat) returns (i: nat, j: nat)
    requires i0 < |infix| && j0 + (RunEnd(infix, i0) - i0) < postfix.Length
    modifies postfix
    ensures i == RunEnd(infix, i0) && j == j0 + (i - i0) && postfix[..j] == old(postfix[..j0]) + infix[i0..i]
  {
    i, j := i0, j0;
    ghost var before := postfix[..j0];
    while i < |infix| && IsDigit(infix[i])
      invariant i0 <= i <= |infix| && j == j0 + (i - i0)
      invariant RunEnd(infix, i) == RunEnd(infix, i0)
      invariant postfix[..j] == before + infix[i0..i]
    {
      postfix[j] := infix[i];
      assert postfix[..j+1] == postfix[..j] + [infix[i]];
      i, j := i + 1, j + 1;
    }
  }

  /** The output only grows, so what is finished by the end bounds it now. */
  lemma {:induction false} OutputGrows(y: Yard, toks: seq<Token>)
    ensures y.out <= Run(y, toks).out
    ensures Size(y.out) <= Size(Whole(Run(y, toks)))
    decreases |toks|
  {
    if toks != [] { OutputGrows(Step(y, toks[0]), toks[1..]); }
    PrefixSize(y.out, Whole(Run(y, toks)));
  }

  lemma PrefixSize(a: seq<Token>, b: seq<Token>)
    requires a <= b
    ensures Size(a) <= Size(b)
  {
    assert b == a + b[|a|..];
    SizeAppend(a, b[|a|..]);
  }

  /** Room for the next token, on the stack and in the output. */
  lemma RoomForToken(y: Yard, toks: seq<Token>, slots: nat, room: nat)
    requires toks != [] && Peak(y, toks) <= slots && Size(Whole(Run(y, toks))) <= room
    ensures |Step(y, toks[0]).stack| <= slots && |Emit(Step(y, toks[0]).out)| <= room
    ensures Peak(Step(y, toks[0]), toks[1..]) <= slots
    ensures Run(Step(y, toks[0]), toks[1..]) == Run(y, toks)
  {
    OutputGrows(Step(y, toks[0]), toks[1..]);
    EmitSize(Step(y, toks[0]).out);
  }

  /** One symbol: a parenthesis or an operator. */
  method ReadSymbol(c: char, stack: array<char>, top0: int, postfix: array<char>, j0: nat, ghost y: Yard)
    returns (top: int, j: nat)
    requires -1 <= top0 < stack.Length && stack != postfix && j0 <= postfix.Length
    requires y.stack == stack[..top0+1] && postfix[..j0] == Emit(y.out)
    requires |Step(y, Sym(c)).stack| <= stack.Length && |Emit(Step(y, Sym(c)).out)| <= postfix.Length
    modifies stack, postfix
    ensures -1 <= top < stack.Length && j <= postfix.Length
    ensures stack[..top+1] == Step(y, Sym(c)).stack && postfix[..j] == Emit(Step(y, Sym(c)).out)
  {
    top, j := top0, j0;
    if c == '(' {
      top := top + 1;
      stack[top] := c;
    } else {
      var p := if c == ')' then 0 else Prec(c);
      PopSize(y.out, Unwind(y.stack, p).emitted);
      top, j := PopOperators(stack, top, p, postfix, j, y);
      if c == ')' {
        if top > -1 { top := top - 1; }
      } else {
        top := top + 1;
        stack[top] := c;
      }
    }
  }

  /** One number or one symbol. */
  method ReadToken(infix: string, i0: nat, stack: array<char>, top0: int, postfix: array<char>, j0: nat,
                   ghost y: Yard)
    returns (i: nat, top: int, j: nat)
    requires i0 < |infix| && infix[i0] != ' '
    requires -1 <= top0 < stack.Length && stack != postfix && j0 <= postfix.Length
    requires y.stack == stack[..top0+1] && postfix[..j0] == Emit(y.out)
    requires var z := Step(y, Lex(infix[i0..])[0]); |z.stack| <= stack.Length && |Emit(z.out)| <= postfix.Length
    modifies stack, postfix
    ensures i0 < i <= |infix| && Lex(infix[i..]) == Lex(infix[i0..])[1..]
    ensures -1 <= top < stack.Length && j <= postfix.Length
    ensures var z := Step(y, Lex(infix[i0..])[0]); stack[..top+1] == z.stack && postfix[..j] == Emit(z.out)
  {
    if IsDigit(infix[i0]) {
      LexNumberAt(infix, i0);
      EmitSnoc(y.out, Num(infix[i0..RunEnd(infix, i0)]));
      top := top0;
      i, j := CopyNumber(infix, i0, postfix, j0, y.out);
    } else {
      LexSymbolAt(infix, i0);
      i := i0 + 1;
      top, j := ReadSymbol(infix[i0], stack, top0, postfix, j0, y);
    }
  }

  /** infix_to_postfix. The preconditions are the two buffer sizes. */
  method InfixToPostfix(infix: string, postfix: array<char>)
    requires '\0' !in infix
    requires Peak(START, Lex(infix)) <= 32
    requires Max(1, Size(ToPostfix(Lex(infix)))) <= postfix.Length
    modifies postfix
    ensures Holds(postfix[..], Render(ToPostfix(Lex(infix))))
  {
    var stack := new char[32];
    var top, i, j := -1, 0, 0;
    ghost var y, toks := START, Lex(infix);
    ghost var goal := ToPostfix(Lex(infix));
    assert infix[0..] == infix;
    while i < |infix|
      invariant 0 <= i <= |infix| && -1 <= top < 32 && 0 <= j <= postfix.Length
      invariant y.stack == stack[..top+1] && postfix[..j] == Emit(y.out)
      invariant toks == Lex(infix[i..])
      invariant Whole(Run(y, toks)) == goal && Peak(y, toks) <= 32
      decreases |infix| - i
    {
      LexNonEmpty(infix, i);
      if infix[i] == ' ' {
        i := i + 1;
      } else {
        RoomForToken(y, toks, 32, postfix.Length);
        i, top, j := ReadToken(infix, i, stack, top, postfix, j, y);
        y, toks := Step(y, toks[0]), toks[1..];
      }
    }
    PopSize(y.out, Flush(y.stack));
    Finish(stack, top, postfix, j, y);
    OutputHasNoTerminator(infix);
  }

  lemma LexNonEmpty(s: string, i: nat)
    requires i < |s|
    ensures s[i] == ' ' ==> Lex(s[i..]) == Lex(s[i+1..])
    ensures s[i] != ' ' ==> Lex(s[i..]) != []
  {
    if IsDigit(s[i]) { LexNumberAt(s, i); } else { LexSymbolAt(s, i); }
  }

  lemma PopSize(out: seq<Token>, emitted: seq<Token>)
    ensures |Emit(out)| + Size(emitted) == Size(out + emitted) == |Emit(out + emitted)|
  {
    EmitSize(out);
    EmitSize(out + emitted);
    SizeAppend(out, emitted);
  }

  lemma RenderIsEmit(toks: seq<Token>)
    ensures var e := Emit(toks); Render(toks) == if e == "" then "" else e[..|e|-1]
  {
  }

  lemma {:induction false} LexHasNoTerminator(s: string)
    requires '\0' !in s
    ensures Sym('\0') !in Lex(s)
    decreases |s|
  {
    if s == "" {
    } else if s[0] == ' ' || !IsDigit(s[0]) {
      LexHasNoTerminator(s[1..]);
    } else {
      LexHasNoTerminator(s[RunLength(s)..]);
    }
  }

  lemma {:induction false} BagMember(t: Token, toks: seq<Token>)
    requires t.Sym? && !IsParen(t)
    ensures t in OperatorBag(toks) <==> t in toks
  {
    if toks != [] { BagMember(t, toks[1..]); }
  }

  lemma {:induction false} EmitHasNoTerminator(toks: seq<Token>)
    requires Spelled(toks) && Sym('\0') !in toks
    ensures '\0' !in Emit(toks)
  {
    if toks != [] { EmitHasNoTerminator(toks[..|toks|-1]); }
  }

  lemma OutputHasNoTerminator(s: string)
    requires '\0' !in s
    ensures '\0' !in Render(ToPostfix(Lex(s)))
  {
    var out := ToPostfix(Lex(s));
    TranslatesAnything(Lex(s));
    LexHasNoTerminator(s);
    BagMember(Sym('\0'), Lex(s));
    BagMember(Sym('\0'), out);
    EmitHasNoTerminator(out);
    RenderIsEmit(out);
  }

  // ----- Evaluation -----

  /** C's `int`: the verifier checks that no operation leaves its range. */
  newtype Int32 = x: int | INT_MIN <= x <= INT_MAX

  function Ints(s: seq<Int32>): seq<int> { seq(|s|, k requires 0 <= k < |s| => s[k] as int) }

  /** apply_op, called only where C defines the result. */
  function ApplyOp(a: Int32, b: Int32, op: char): (r: Int32)
    requires Apply(a as int, b as int, op).Value?
    ensures Value(r as int) == Apply(a as int, b as int, op)
  {
    match op
    case '+' => a + b
    case '-' => a - b
    case '*' => a * b
    case '/' => TruncDiv(a as int, b as int) as Int32
    case _ => 0
  }

  lemma {:induction false} NumberGrows(ds: string, k: nat)
    requires k <= |ds| && AllDigits(ds)
    ensures NumValue(ds[..k]) <= NumValue(ds)
  {
    if k == |ds| {
      assert ds[..k] == ds;
    } else {
      NumberGrows(ds[..|ds|-1], k);
      assert ds[..|ds|-1][..k] == ds[..k];
    }
  }

  /** The loop that reads a number. */
  method ReadNumber(s: string, i0: nat) returns (num: Int32, i: nat)
    requires i0 < |s| && NumValue(s[i0..RunEnd(s, i0)]) <= INT_MAX
    ensures i == RunEnd(s, i0) && num as int == NumValue(s[i0..i])
  {
    num, i := 0, i0;
    ghost var ds := s[i0..RunEnd(s, i0)];
    while i < |s| && IsDigit(s[i])
      invariant i0 <= i <= |s| && RunEnd(s, i) == RunEnd(s, i0)
      invariant num as int == NumValue(ds[..i-i0])
    {
      NumberGrows(ds, i - i0 + 1);
      assert ds[..i-i0+1][..i-i0] == ds[..i-i0];
      num := num * 10 + (s[i] - '0') as Int32;
      i := i + 1;
    }
    assert ds[..i-i0] == ds;
  }

  /** One pass of the loop of evaluate_postfix, at the level of the machine. */
  lemma MachineStep(toks: seq<Token>, stack: seq<int>)
    requires Spelled(toks) && toks != [] && Machine(toks, stack).Value?
    ensures toks[0].Num? ==>
              && |stack| < 32 && NumValue(toks[0].digits) <= INT_MAX
              && Machine(toks, stack) == Machine(toks[1..], stack + [NumValue(toks[0].digits)])
    ensures toks[0].Sym? && |stack| < 2 ==> Machine(toks, stack) == Value(0)
    ensures toks[0].Sym? && |stack| >= 2 ==>
              var n := |stack| - 2;
              var v := Apply(stack[n], stack[n+1], toks[0].c);
              v.Value? && Machine(toks, stack) == Machine(toks[1..], stack[..n] + [v.v])
  {
  }

  /** One number or one operator; the value stack is `vals`. */
  method EvalToken(s: string, i0: nat, stack: array<Int32>, top0: int, ghost vals: seq<int>)
    returns (i: nat, top: int, ghost after: seq<int>)
    requires i0 < |s| && s[i0] != ' ' && stack.Length == 32 && -1 <= top0 < 32
    requires vals == Ints(stack[..top0+1]) && Machine(Lex(s[i0..]), vals).Value?
    requires IsDigit(s[i0]) || top0 >= 1
    modifies stack
    ensures i0 < i <= |s| && -1 <= top < 32 && after == Ints(stack[..top+1])
    ensures Machine(Lex(s[i..]), after) == Machine(Lex(s[i0..]), vals)
  {
    MachineStep(Lex(s[i0..]), vals);
    if IsDigit(s[i0]) {
      LexNumberAt(s, i0);
      var num;
      num, i := ReadNumber(s, i0);
      top := top0 + 1;
      stack[top] := num;
      after := vals + [num as int];
    } else {
      LexSymbolAt(s, i0);
      var val2, val1 := stack[top0], stack[top0-1];
      i, top := i0 + 1, top0 - 1;
      stack[top] := ApplyOp(val1, val2, s[i0]);
      after := vals[..top] + [stack[top] as int];
    }
  }

  /** evaluate_postfix, on every string for which C defines the result. */
  method EvaluatePostfix(postfix: string) returns (r: Int32)
    requires Machine(Lex(postfix), []).Value?
    ensures Value(r as int) == Machine(Lex(postfix), [])
  {
    var stack := new Int32[32];
    var top, i := -1, 0;
    ghost var vals: seq<int> := [];
    assert postfix[0..] == postfix;
    while i < |postfix|
      invariant 0 <= i <= |postfix| && -1 <= top < 32
      invariant vals == Ints(stack[..top+1])
      invariant Machine(Lex(postfix[i..]), vals) == Machine(Lex(postfix), [])
      decreases |postfix| - i
    {
      LexNonEmpty(postfix, i);
      if postfix[i] == ' ' {
        i := i + 1;
      } else {
        if !IsDigit(postfix[i]) && top < 1 {
          LexSymbolAt(postfix, i);
          return 0;
        }
        i, top, vals := EvalToken(postfix, i, stack, top, vals);
      }
    }
    if top != 0 {
      return 0;
    }
    r := stack[top];
  }

  // ----- The whole calculator -----

  /** What C requires of the text for the calculator to be defined on it. */
  ghost predicate Calculable(text: string) {
    && '\0' !in text
    && Peak(START, Lex(text)) <= 32
    && Size(ToPostfix(Lex(text))) <= 256
    && Spelled(ToPostfix(Lex(text)))
    && Machine(ToPostfix(Lex(text)), []).Value?
  }

  /** Where the terminator is: how far the loops of evaluate_postfix read. */
  method StringLength(buf: array<char>, ghost s: string) returns (n: nat)
    requires Holds(buf[..], s)
    ensures n == |s|
  {
    n := 0;
    forall k | 0 <= k < |s| ensures buf[k] != '\0' { assert buf[k] == s[k]; }
    while buf[n] != '\0'
      invariant n <= |s|
      decreases |s| - n
    {
      n := n + 1;
    }
  }

  /** calculator_main up to the printing of the result. */
  method CalculatorMain(expression: string) returns (result: Int32)
    requires Calculable(expression)
    ensures Value(result as int) == Machine(ToPostfix(Lex(expression)), [])
  {
    var postfix := new char[256];
    InfixToPostfix(expression, postfix);
    ghost var out := ToPostfix(Lex(expression));
    LexRender(out);
    var n := StringLength(postfix, Render(out));
    result := EvaluatePostfix(postfix[..n]);
  }

  /** Semantic preservation. For every parse tree and every spacing of it, the
      text reads as the tree's tokens, the stacks and the output buffer are
      large enough, and the calculator computes the tree's value, being
      undefined exactly when that value is. */
  lemma CalculatorCorrect(e: Expr, gaps: seq<nat>)
    requires Parsed(e) && |gaps| == |Tokens(e)| + 1
    requires Depth(e) <= 10 && |Layout(Tokens(e), gaps)| <= 128
    ensures var toks := Lex(Layout(Tokens(e), gaps));
            && Spelled(ToPostfix(toks)) && Machine(ToPostfix(toks), []) == Eval(e)
            && Peak(START, toks) <= 3 * Depth(e) + 2 <= 32
            && Tallest(ToPostfix(toks), []) <= 2 * Depth(e) + 3 <= 32
            && Size(ToPostfix(toks)) <= 256
    ensures Calculable(Layout(Tokens(e), gaps)) <==> Eval(e).Value?
  {
    var text := Layout(Tokens(e), gaps);
    TokensSpelled(e);
    forall k | 0 < k < |Tokens(e)| ensures !(Tokens(e)[k-1].Num? && Tokens(e)[k].Num?) {
      TokensApart(e, k);
    }
    LexLayout(Tokens(e), gaps);
    TranslatesTree(e);
    EvaluatesTree(e);
    ValueStackBound(e);
    LexSize(text);
    TranslatesAnything(Lex(text));
    LayoutHasNoTerminator(e, gaps);
  }

  lemma {:induction false} TokensHaveNoTerminator(e: Expr)
    requires Parsed(e)
    ensures Sym('\0') !in Tokens(e)
  {
    match e
    case Lit(_) =>
    case Bin(_, l, r) => TokensHaveNoTerminator(l); TokensHaveNoTerminator(r);
    case Paren(inner) => TokensHaveNoTerminator(inner);
  }

  lemma {:induction false} NoTerminatorInLayout(toks: seq<Token>, gaps: seq<nat>)
    requires |gaps| == |toks| + 1 && Spelled(toks) && Sym('\0') !in toks
    ensures '\0' !in Layout(toks, gaps)
  {
    if toks != [] {
      assert WellSpelled(toks[0]);
      NoTerminatorInLayout(toks[1..], gaps[1..]);
    }
  }

  lemma LayoutHasNoTerminator(e: Expr, gaps: seq<nat>)
    requires Parsed(e) && |gaps| == |Tokens(e)| + 1
    ensures '\0' !in Layout(Tokens(e), gaps)
  {
    TokensSpelled(e);
    TokensHaveNoTerminator(e);
    NoTerminatorInLayout(Tokens(e), gaps);
  }

  /** For every text, well-formed or not: the output's digit runs are the
      input's in order, its operator characters are the input's with the same
      multiplicities, it has no parenthesis, and with its terminator it takes
      at most max(1, 2n) bytes. */
  lemma OutputPreserves(text: string)
    ensures var out := Render(ToPostfix(Lex(text)));
            && Numbers(Lex(out)) == Numbers(Lex(text))
            && OperatorBag(Lex(out)) == OperatorBag(Lex(text))
            && NoParens(Lex(out))
            && |out| + 1 <= Max(1, 2 * |text|)
  {
    var out := ToPostfix(Lex(text));
    TranslatesAnything(Lex(text));
    LexRender(out);
    LexSize(text);
    EmitSize(out);
    RenderIsEmit(out);
  }
}
