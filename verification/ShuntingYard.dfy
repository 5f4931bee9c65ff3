/** The translation from infix to postfix tokens, and why it is right. */
module ShuntingYard {
  import opened CalcTokens
  import opened CalcGrammar

  function Top(stack: string): char
    requires stack != ""
  {
    stack[|stack|-1]
  }

  function Init(stack: string): string
    requires stack != ""
  {
    stack[..|stack|-1]
  }

  datatype Popped = Popped(rest: string, emitted: seq<Token>)

  /** A popping loop stops here: on an empty stack, an open parenthesis, or an
      operator that binds less tightly than `p`. */
  predicate Stops(stack: string, p: nat) {
    stack == "" || Top(stack) == '(' || Prec(Top(stack)) < p
  }

  function Unwind(stack: string, p: nat): Popped {
    if Stops(stack, p) then Popped(stack, [])
    else
      var u := Unwind(Init(stack), p);
      Popped(u.rest, [Sym(Top(stack))] + u.emitted)
  }

  /** The loop after the last character: everything but open parentheses. */
  function Flush(stack: string): seq<Token> {
    if stack == "" then []
    else (if Top(stack) == '(' then [] else [Sym(Top(stack))]) + Flush(Init(stack))
  }

  /** The operator stack (top at the end) and the output so far. */
  datatype Yard = Yard(stack: string, out: seq<Token>)

  /** The state when a popping loop stops. */
  function Drained(y: Yard, p: nat): Yard {
    Yard(Unwind(y.stack, p).rest, y.out + Unwind(y.stack, p).emitted)
  }

  /** A closing parenthesis pops down to the open one, and pops that too. */
  function Close(y: Yard): Yard {
    var d := Drained(y, 0);
    if d.stack == "" then d else Yard(Init(d.stack), d.out)
  }

  /** An operator pops what binds at least as tightly, then waits on the stack. */
  function Push(y: Yard, c: char): Yard {
    var d := Drained(y, Prec(c));
    Yard(d.stack + [c], d.out)
  }

  function Step(y: Yard, t: Token): Yard {
    match t
    case Num(_) => Yard(y.stack, y.out + [t])
    case Sym(c) =>
      if c == '(' then Yard(y.stack + [c], y.out)
      else if c == ')' then Close(y)
      else Push(y, c)
  }

  function Run(y: Yard, toks: seq<Token>): Yard
    decreases |toks|
  {
    if toks == [] then y else Run(Step(y, toks[0]), toks[1..])
  }

  function ToPostfix(toks: seq<Token>): seq<Token> {
    var y := Run(Yard("", []), toks);
    y.out + Flush(y.stack)
  }

  /** The tallest the operator stack gets. */
  function Peak(y: Yard, toks: seq<Token>): nat
    decreases |toks|
  {
    Max(|y.stack|, if toks == [] then 0 else Peak(Step(y, toks[0]), toks[1..]))
  }

  // ----- What the translation of a tree should be -----

  function Postfix(e: Expr): seq<Token> {
    match e
    case Lit(ds) => [Num(ds)]
    case Bin(op, l, r) => Postfix(l) + Postfix(r) + [Sym(op)]
    case Paren(inner) => Postfix(inner)
  }

  /** Operators of `e` still on the stack once its last token has been read. */
  function Pending(e: Expr): string {
    if e.Bin? then [e.op] + Pending(e.right) else ""
  }

  /** Output written by the time the last token of `e` has been read. */
  function Emitted(e: Expr): seq<Token> {
    match e
    case Lit(ds) => [Num(ds)]
    case Bin(_, l, r) => Postfix(l) + Emitted(r)
    case Paren(inner) => Postfix(inner)
  }

  /** Stack contents from the top down. */
  function Backwards(ops: string): seq<Token> {
    if ops == "" then [] else [Sym(Top(ops))] + Backwards(Init(ops))
  }

  predicate Operators(ops: string, p: nat) {
    forall k :: 0 <= k < |ops| ==> ops[k] != '(' && Prec(ops[k]) >= p
  }

  lemma {:induction false} BackwardsCons(op: char, ops: string)
    ensures Backwards([op] + ops) == Backwards(ops) + [Sym(op)]
  {
    if ops == "" {
      assert [op] + ops == [op];
      assert Init([op]) == "";
    } else {
      assert Init([op] + ops) == [op] + Init(ops);
      BackwardsCons(op, Init(ops));
    }
  }

  lemma {:induction false} PendingOperators(e: Expr)
    requires Parsed(e)
    ensures Operators(Pending(e), Level(e))
    ensures |Pending(e)| <= 3 - Level(e)
  {
    if e.Bin? { PendingOperators(e.right); }
  }

  lemma {:induction false} EmittedThenPending(e: Expr)
    ensures Emitted(e) + Backwards(Pending(e)) == Postfix(e)
  {
    if e.Bin? {
      EmittedThenPending(e.right);
      BackwardsCons(e.op, Pending(e.right));
    }
  }

  lemma {:induction false} UnwindOperators(stack: string, ops: string, p: nat)
    requires Operators(ops, p) && Stops(stack, p)
    ensures Unwind(stack + ops, p) == Popped(stack, Backwards(ops))
  {
    if ops == "" {
      assert stack + ops == stack;
    } else {
      assert Init(stack + ops) == stack + Init(ops);
      UnwindOperators(stack, Init(ops), p);
    }
  }

  lemma {:induction false} FlushOperators(ops: string)
    requires Operators(ops, 0)
    ensures Flush(ops) == Backwards(ops)
  {
    if ops != "" { FlushOperators(Init(ops)); }
  }

  // ----- Reading the tokens of one tree -----

  /** The state after the tokens of `e` have been read in state `y`. */
  function After(y: Yard, e: Expr): Yard {
    Yard(y.stack + Pending(e), y.out + Emitted(e))
  }

  lemma Associative(a: seq<Token>, b: seq<Token>, c: seq<Token>)
    ensures a + b + c == a + (b + c)
  {
  }

  /** Draining the pending operators of `e` completes its postfix form. */
  lemma DrainTree(y: Yard, e: Expr, p: nat)
    requires Parsed(e) && p <= Level(e) && Stops(y.stack, p)
    ensures Drained(After(y, e), p) == Yard(y.stack, y.out + Postfix(e))
  {
    PendingOperators(e);
    UnwindOperators(y.stack, Pending(e), p);
    EmittedThenPending(e);
    Associative(y.out, Emitted(e), Backwards(Pending(e)));
  }

  /** `Bin` reads: left operand, operator, right operand. */
  lemma OperatorStep(y: Yard, e: Expr)
    requires Parsed(e) && e.Bin? && Stops(y.stack, Level(e))
    ensures Step(After(y, e.left), Sym(e.op)) == Yard(y.stack + [e.op], y.out + Postfix(e.left))
  {
    DrainTree(y, e.left, Prec(e.op));
    assert e.op != '(' && e.op != ')';
  }

  lemma ClosingStep(y: Yard, e: Expr)
    requires Parsed(e)
    ensures Step(After(Yard(y.stack + ['('], y.out), e), Sym(')')) == Yard(y.stack, y.out + Postfix(e))
  {
    var inside := Yard(y.stack + ['('], y.out);
    DrainTree(inside, e, 0);
    assert Init(inside.stack) == y.stack;
  }

  lemma {:induction false} RunAppend(y: Yard, a: seq<Token>, b: seq<Token>)
    ensures Run(y, a + b) == Run(Run(y, a), b)
    ensures Peak(y, a + b) == Max(Peak(y, a), Peak(Run(y, a), b))
    decreases |a|
  {
    if a == [] {
      assert a + b == b;
    } else {
      assert (a + b)[1..] == a[1..] + b;
      RunAppend(Step(y, a[0]), a[1..], b);
    }
  }

  lemma RunOne(y: Yard, t: Token)
    ensures Run(y, [t]) == Step(y, t)
    ensures Peak(y, [t]) == Max(|y.stack|, |Step(y, t).stack|)
  {
    assert Run(Step(y, t), [t][1..]) == Step(y, t);
    assert Peak(Step(y, t), [t][1..]) == |Step(y, t).stack|;
  }

  /** Reading `a`, then one token, then `b`. */
  lemma RunAround(y: Yard, a: seq<Token>, t: Token, b: seq<Token>)
    ensures var z := Step(Run(y, a), t);
            && Run(y, a + [t] + b) == Run(z, b)
            && Peak(y, a + [t] + b) == Max(Peak(y, a), Peak(z, b))
  {
    RunAppend(y, a, [t]);
    RunOne(Run(y, a), t);
    RunAppend(y, a + [t], b);
    PeakStarts(y, a);
  }

  lemma {:induction false} PeakStarts(y: Yard, toks: seq<Token>)
    ensures |Run(y, toks).stack| <= Peak(y, toks)
    decreases |toks|
  {
    if toks != [] { PeakStarts(Step(y, toks[0]), toks[1..]); }
  }

  /** The loop lemma. On any stack whose top does not bind `e`, reading `e`
      pushes exactly its pending operators. On the way the stack gains at most
      three entries per parenthesis (two operators of rising precedence and
      the parenthesis itself) and two more on the outermost level. */
  lemma {:induction false} RunTree(y: Yard, e: Expr)
    requires Parsed(e) && Stops(y.stack, Level(e))
    ensures Run(y, Tokens(e)) == After(y, e)
    ensures Peak(y, Tokens(e)) <= |y.stack| + 3 * Depth(e) + 3 - Level(e)
    decreases e
  {
    match e
    case Lit(ds) =>
      RunOne(y, Num(ds));
      assert y.stack + Pending(e) == y.stack;
    case Bin(_, _, _) => RunBin(y, e);
    case Paren(_) => RunParen(y, e);
  }

  lemma {:induction false} RunBin(y: Yard, e: Expr)
    requires Parsed(e) && Stops(y.stack, Level(e)) && e.Bin?
    ensures Run(y, Tokens(e)) == After(y, e)
    ensures Peak(y, Tokens(e)) <= |y.stack| + 3 * Depth(e) + 3 - Level(e)
    decreases e, 0
  {
    var l, r, z := e.left, e.right, Yard(y.stack + [e.op], y.out + Postfix(e.left));
    RunTree(y, l);
    OperatorStep(y, e);
    RunTree(z, r);
    RunAround(y, Tokens(l), Sym(e.op), Tokens(r));
    AfterBin(y, e);
  }

  lemma AfterBin(y: Yard, e: Expr)
    requires e.Bin?
    ensures After(Yard(y.stack + [e.op], y.out + Postfix(e.left)), e.right) == After(y, e)
  {
    Associative(y.out, Postfix(e.left), Emitted(e.right));
    assert y.stack + [e.op] + Pending(e.right) == y.stack + ([e.op] + Pending(e.right));
  }

  lemma {:induction false} RunParen(y: Yard, e: Expr)
    requires Parsed(e) && e.Paren?
    ensures Run(y, Tokens(e)) == After(y, e)
    ensures Peak(y, Tokens(e)) <= |y.stack| + 3 * Depth(e)
    decreases e, 0
  {
    var z := Yard(y.stack + ['('], y.out);
    RunOne(y, Sym('('));
    RunTree(z, e.inner);
    RunAppend(y, [Sym('(')], Tokens(e.inner));
    ClosingStep(y, e.inner);
    RunAround(y, [Sym('(')] + Tokens(e.inner), Sym(')'), []);
    assert Tokens(e) == [Sym('(')] + Tokens(e.inner) + [Sym(')')] + [];
    assert y.stack + Pending(e) == y.stack;
  }

  /** The translator turns the tokens of a parse tree into its postfix form. */
  lemma TranslatesTree(e: Expr)
    requires Parsed(e)
    ensures ToPostfix(Tokens(e)) == Postfix(e)
    ensures Peak(Yard("", []), Tokens(e)) <= 3 * Depth(e) + 2
  {
    RunTree(Yard("", []), e);
    PendingOperators(e);
    FlushOperators(Pending(e));
    EmittedThenPending(e);
    assert "" + Pending(e) == Pending(e) && [] + Emitted(e) == Emitted(e);
  }

  // ----- Every token sequence, well-formed or not -----

  predicate IsParen(t: Token) { t == Sym('(') || t == Sym(')') }

  /** The numbers of a token sequence, in order. */
  function Numbers(toks: seq<Token>): seq<Token> {
    if toks == [] then []
    else (if toks[0].Num? then [toks[0]] else []) + Numbers(toks[1..])
  }

  /** The operator characters of a token sequence: every symbol that is not a
      parenthesis, with multiplicity. */
  function OperatorBag(toks: seq<Token>): multiset<Token> {
    if toks == [] then multiset{}
    else (if toks[0].Num? || IsParen(toks[0]) then multiset{} else multiset{toks[0]})
         + OperatorBag(toks[1..])
  }

  predicate NoParens(toks: seq<Token>) {
    forall k :: 0 <= k < |toks| ==> !IsParen(toks[k])
  }

  /** The stack holds operators and open parentheses only. */
  predicate StackOk(stack: string) {
    forall k :: 0 <= k < |stack| ==> stack[k] != ')' && (stack[k] != '(' ==> WellSpelled(Sym(stack[k])))
  }

  lemma {:induction false} NumbersAppend(a: seq<Token>, b: seq<Token>)
    ensures Numbers(a + b) == Numbers(a) + Numbers(b)
  {
    if a == [] {
      assert a + b == b;
    } else {
      var head := if a[0].Num? then [a[0]] else [];
      assert (a + b)[1..] == a[1..] + b && (a + b)[0] == a[0];
      NumbersAppend(a[1..], b);
      Associative(head, Numbers(a[1..]), Numbers(b));
    }
  }

  lemma {:induction false} BagAppend(a: seq<Token>, b: seq<Token>)
    ensures OperatorBag(a + b) == OperatorBag(a) + OperatorBag(b)
  {
    if a == [] {
      assert a + b == b;
    } else {
      assert (a + b)[1..] == a[1..] + b;
      BagAppend(a[1..], b);
    }
  }

  /** What an output should keep of the tokens read. */
  datatype Parts = Parts(numbers: seq<Token>, operators: multiset<Token>, size: nat)

  function PartsOf(toks: seq<Token>): Parts { Parts(Numbers(toks), OperatorBag(toks), Size(toks)) }

  /** `a` has the parts of `b` and `c` together, in no more space. */
  predicate Joins(a: Parts, b: Parts, c: Parts) {
    && a.numbers == b.numbers + c.numbers && a.operators == b.operators + c.operators
    && a.size <= b.size + c.size
  }

  lemma PartsAppend(a: seq<Token>, b: seq<Token>)
    ensures Joins(PartsOf(a + b), PartsOf(a), PartsOf(b))
    ensures Size(a + b) == Size(a) + Size(b)
  {
    NumbersAppend(a, b);
    BagAppend(a, b);
    SizeAppend(a, b);
  }

  /** Output that holds only operators. */
  predicate OnlyOperators(toks: seq<Token>) {
    forall k :: 0 <= k < |toks| ==> toks[k].Sym? && !IsParen(toks[k]) && WellSpelled(toks[k])
  }

  predicate Clean(toks: seq<Token>) { NoParens(toks) && Spelled(toks) }

  lemma {:induction false} OperatorsHaveNoNumbers(toks: seq<Token>)
    requires OnlyOperators(toks)
    ensures Numbers(toks) == []
  {
    if toks != [] { OperatorsHaveNoNumbers(toks[1..]); }
  }

  lemma {:induction false} FlushParts(stack: string)
    requires StackOk(stack)
    ensures OnlyOperators(Flush(stack))
  {
    if stack != "" { FlushParts(Init(stack)); }
  }

  lemma {:induction false} UnwindParts(stack: string, p: nat)
    requires StackOk(stack)
    ensures var u := Unwind(stack, p);
            && StackOk(u.rest) && Stops(u.rest, p)
            && Flush(stack) == u.emitted + Flush(u.rest)
  {
    if !Stops(stack, p) { UnwindParts(Init(stack), p); }
  }

  /** The output as it would be if the input ended here. */
  function Whole(y: Yard): seq<Token> { y.out + Flush(y.stack) }

  lemma DrainWhole(y: Yard, p: nat)
    requires StackOk(y.stack)
    ensures var d := Drained(y, p);
            Whole(d) == Whole(y) && StackOk(d.stack) && Stops(d.stack, p)
  {
    UnwindParts(y.stack, p);
    var u := Unwind(y.stack, p);
    Associative(y.out, u.emitted, Flush(u.rest));
  }

  lemma FlushTop(stack: string, c: char)
    ensures Flush(stack + [c]) == if c == '(' then Flush(stack) else [Sym(c)] + Flush(stack)
  {
    assert Init(stack + [c]) == stack && Top(stack + [c]) == c;
  }

  lemma CloseWhole(y: Yard)
    requires StackOk(y.stack)
    ensures Whole(Close(y)) == Whole(y) && StackOk(Close(y).stack)
  {
    DrainWhole(y, 0);
    var d := Drained(y, 0);
    if d.stack != "" {
      var below := Init(d.stack);
      assert d.stack == below + ['('];
      FlushTop(below, '(');
    }
  }

  /** A new token joins the output, in front of what is still stacked. */
  predicate Inserts(before: seq<Token>, t: Token, after: seq<Token>, front: seq<Token>, back: seq<Token>) {
    && before == front + back && OnlyOperators(back)
    && after == if IsParen(t) then before else front + [t] + back
  }

  lemma NumWhole(y: Yard, t: Token)
    requires StackOk(y.stack) && t.Num?
    ensures Inserts(Whole(y), t, Whole(Step(y, t)), y.out, Flush(y.stack))
  {
    FlushParts(y.stack);
  }

  lemma PushWhole(y: Yard, c: char)
    requires StackOk(y.stack) && WellSpelled(Sym(c)) && !IsParen(Sym(c))
    ensures var d := Drained(y, Prec(c));
            Inserts(Whole(y), Sym(c), Whole(Push(y, c)), d.out, Flush(d.stack)) && StackOk(Push(y, c).stack)
  {
    var d := Drained(y, Prec(c));
    DrainWhole(y, Prec(c));
    FlushParts(d.stack);
    FlushTop(d.stack, c);
    Associative(d.out, [Sym(c)], Flush(d.stack));
  }

  /** Every token keeps what the output should keep. */
  lemma StepWhole(y: Yard, t: Token)
    requires StackOk(y.stack) && WellSpelled(t) && Clean(Whole(y))
    ensures StackOk(Step(y, t).stack) && Clean(Whole(Step(y, t)))
    ensures Joins(PartsOf(Whole(Step(y, t))), PartsOf(Whole(y)), PartsOf([t]))
  {
    if t.Num? {
      NumWhole(y, t);
      InsertParts(Whole(y), t, Whole(Step(y, t)), y.out, Flush(y.stack));
    } else if t.c == '(' {
      FlushTop(y.stack, '(');
      ParenParts(Whole(y), t);
    } else if t.c == ')' {
      CloseWhole(y);
      ParenParts(Whole(y), t);
    } else {
      var d := Drained(y, Prec(t.c));
      PushWhole(y, t.c);
      InsertParts(Whole(y), t, Whole(Step(y, t)), d.out, Flush(d.stack));
    }
  }

  lemma ParenParts(w: seq<Token>, t: Token)
    requires IsParen(t)
    ensures Joins(PartsOf(w), PartsOf(w), PartsOf([t]))
  {
    assert [t][1..] == [];
    assert Numbers([t]) == Numbers([]) && OperatorBag([t]) == OperatorBag([]);
    assert Numbers(w) + [] == Numbers(w);
  }

  lemma InsertParts(before: seq<Token>, t: Token, after: seq<Token>, front: seq<Token>, back: seq<Token>)
    requires Inserts(before, t, after, front, back) && !IsParen(t) && WellSpelled(t) && Clean(before)
    ensures Joins(PartsOf(after), PartsOf(before), PartsOf([t])) && Clean(after)
  {
    OperatorsHaveNoNumbers(back);
    PartsAppend(front, back);
    PartsAppend(front, [t]);
    PartsAppend(front + [t], back);
    JoinsInsert(PartsOf(front), PartsOf([t]), PartsOf(back), PartsOf(before), PartsOf(front + [t]), PartsOf(after));
    InsertClean(front, t, back);
  }

  lemma JoinsInsert(f: Parts, t: Parts, b: Parts, before: Parts, ft: Parts, after: Parts)
    requires b.numbers == [] && Joins(before, f, b) && before.size == f.size + b.size
    requires Joins(ft, f, t) && Joins(after, ft, b)
    ensures Joins(after, before, t)
  {
    assert f.numbers + [] == f.numbers && ft.numbers + [] == ft.numbers;
  }

  lemma InsertClean(front: seq<Token>, t: Token, back: seq<Token>)
    requires Clean(front + back) && !IsParen(t) && WellSpelled(t)
    ensures Clean(front + [t] + back)
  {
    var before := front + back;
    assert forall k :: 0 <= k < |front| ==> front[k] == before[k];
    assert forall k :: 0 <= k < |back| ==> back[k] == before[|front| + k];
  }

  lemma JoinsTrans(a: Parts, b: Parts, c: Parts, d: Parts, cd: Parts, r: Parts)
    requires Joins(a, b, c) && Joins(r, a, d) && cd.numbers == c.numbers + d.numbers
    requires cd.operators == c.operators + d.operators && cd.size == c.size + d.size
    ensures Joins(r, b, cd)
  {
  }

  lemma {:induction false} RunWhole(y: Yard, toks: seq<Token>)
    requires StackOk(y.stack) && Spelled(toks) && Clean(Whole(y))
    ensures Clean(Whole(Run(y, toks)))
    ensures Joins(PartsOf(Whole(Run(y, toks))), PartsOf(Whole(y)), PartsOf(toks))
    decreases |toks|
  {
    if toks != [] {
      var t, rest, z := toks[0], toks[1..], Step(y, toks[0]);
      StepWhole(y, t);
      RunWhole(z, rest);
      assert toks == [t] + rest;
      PartsAppend([t], rest);
      JoinsTrans(PartsOf(Whole(z)), PartsOf(Whole(y)), PartsOf([t]), PartsOf(rest), PartsOf(toks),
                 PartsOf(Whole(Run(z, rest))));
    }
  }

  /** For every input, well-formed or not: the numbers come out in order, the
      operators come out with the same multiplicities, no parenthesis comes
      out, and the output is no larger than the input's tokens. */
  lemma TranslatesAnything(toks: seq<Token>)
    requires Spelled(toks)
    ensures Numbers(ToPostfix(toks)) == Numbers(toks)
    ensures OperatorBag(ToPostfix(toks)) == OperatorBag(toks)
    ensures NoParens(ToPostfix(toks)) && Spelled(ToPostfix(toks))
    ensures Size(ToPostfix(toks)) <= Size(toks)
  {
    var start := Yard("", []);
    assert Whole(start) == [];
    RunWhole(start, toks);
  }

  // ----- Unmatched parentheses -----

  lemma {:induction false} RunStackOk(y: Yard, toks: seq<Token>)
    requires StackOk(y.stack) && Spelled(toks) && Clean(Whole(y))
    ensures StackOk(Run(y, toks).stack)
    decreases |toks|
  {
    if toks != [] {
      StepWhole(y, toks[0]);
      RunStackOk(Step(y, toks[0]), toks[1..]);
    }
  }

  /** Closing once more at the end changes nothing: parentheses still open there
      count as closed. */
  lemma TrailingParenthesis(toks: seq<Token>)
    requires Spelled(toks)
    ensures ToPostfix(toks + [Sym(')')]) == ToPostfix(toks)
  {
    var start := Yard("", []);
    assert Whole(start) == [];
    RunStackOk(start, toks);
    RunAppend(start, toks, [Sym(')')]);
    RunOne(Run(start, toks), Sym(')'));
    CloseWhole(Run(start, toks));
  }

  /** `z` is `y`, or `y` inside one more open parenthesis. */
  predicate Inside(y: Yard, z: Yard) {
    z == y || (z.stack == ['('] + y.stack && z.out == y.out)
  }

  lemma {:induction false} UnwindInside(stack: string, p: nat)
    ensures Unwind(['('] + stack, p) == Popped(['('] + Unwind(stack, p).rest, Unwind(stack, p).emitted)
  {
    var deep := ['('] + stack;
    if stack != "" {
      assert Top(deep) == Top(stack) && Init(deep) == ['('] + Init(stack);
      if !Stops(stack, p) { UnwindInside(Init(stack), p); }
    }
  }

  lemma {:induction false} FlushInside(stack: string)
    ensures Flush(['('] + stack) == Flush(stack)
  {
    var deep := ['('] + stack;
    if stack == "" {
      assert deep == ['('] && Init(deep) == "";
    } else {
      assert Top(deep) == Top(stack) && Init(deep) == ['('] + Init(stack);
      FlushInside(Init(stack));
    }
  }

  lemma StepInside(y: Yard, z: Yard, t: Token)
    requires Inside(y, z)
    ensures Inside(Step(y, t), Step(z, t))
  {
    if z != y && t.Sym? {
      if t.c == '(' {
        assert ['('] + y.stack + ['('] == ['('] + (y.stack + ['(']);
      } else if t.c == ')' {
        UnwindInside(y.stack, 0);
        var d, e := Drained(y, 0).stack, Drained(z, 0).stack;
        if d == "" { assert Init(e) == ""; } else { assert Init(e) == ['('] + Init(d); }
      } else {
        UnwindInside(y.stack, Prec(t.c));
        var d := Drained(y, Prec(t.c)).stack;
        assert ['('] + d + [t.c] == ['('] + (d + [t.c]);
      }
    }
  }

  lemma {:induction false} RunInside(y: Yard, z: Yard, toks: seq<Token>)
    requires Inside(y, z)
    ensures Inside(Run(y, toks), Run(z, toks))
    decreases |toks|
  {
    if toks != [] {
      StepInside(y, z, toks[0]);
      RunInside(Step(y, toks[0]), Step(z, toks[0]), toks[1..]);
    }
  }

  /** Opening once more at the front changes nothing: parentheses closed without
      having been opened count as opened there. */
  lemma LeadingParenthesis(toks: seq<Token>)
    ensures ToPostfix([Sym('(')] + toks) == ToPostfix(toks)
  {
    var y, z := Yard("", []), Yard(['('], []);
    assert "" + ['('] == ['('] == ['('] + "";
    assert Step(y, Sym('(')) == z && ([Sym('(')] + toks)[1..] == toks;
    RunInside(y, z, toks);
    FlushInside(Run(y, toks).stack);
  }
}
