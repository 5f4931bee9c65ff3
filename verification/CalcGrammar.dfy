/** The reference meaning of a calculator expression: parse trees under the
    usual precedence and left associativity, and their value in C `int`
    arithmetic. */
module CalcGrammar {
  import opened CalcTokens

  datatype Expr =
    | Lit(digits: string)
    | Bin(op: char, left: Expr, right: Expr)
    | Paren(inner: Expr)

  function Prec(op: char): (p: nat) {
    if op == '+' || op == '-' then 1
    else if op == '*' || op == '/' then 2
    else 0
  }

  /** How tightly the root of a tree binds. */
  function Level(e: Expr): nat {
    if e.Bin? then Prec(e.op) else 3
  }

  /** `e` is a parse tree: the left operand binds at least as tightly as the
      operator (left associativity) and the right one strictly tighter. */
  predicate Parsed(e: Expr) {
    match e
    case Lit(ds) => ds != "" && AllDigits(ds)
    case Bin(op, l, r) =>
      Prec(op) > 0 && Parsed(l) && Parsed(r) && Prec(op) <= Level(l) && Prec(op) < Level(r)
    case Paren(inner) => Parsed(inner)
  }

  function Tokens(e: Expr): seq<Token> {
    match e
    case Lit(ds) => [Num(ds)]
    case Bin(op, l, r) => Tokens(l) + [Sym(op)] + Tokens(r)
    case Paren(inner) => [Sym('(')] + Tokens(inner) + [Sym(')')]
  }

  function Max(a: nat, b: nat): nat { if a < b then b else a }

  /** Parenthesis nesting depth. */
  function Depth(e: Expr): nat {
    match e
    case Lit(_) => 0
    case Bin(_, l, r) => Max(Depth(l), Depth(r))
    case Paren(inner) => 1 + Depth(inner)
  }

  /** A value, or behaviour that C leaves undefined (an `int` overflow, a
      division by zero, a write past the end of a stack array). */
  datatype Outcome = Value(v: int) | Undefined

  const INT_MIN := -0x8000_0000
  const INT_MAX := 0x7fff_ffff

  function Ranged(v: int): Outcome {
    if INT_MIN <= v <= INT_MAX then Value(v) else Undefined
  }

  lemma Remainder(a: nat, b: nat)
    requires b > 0
    ensures 0 <= a - a / b * b < b
  {
    assert a == a / b * b + a % b;
  }

  lemma Signs(q: int, b: int)
    ensures (-q) * b == -(q * b) && q * (-b) == -(q * b)
  {
  }

  /** Division of C: section 6.5.5 of ISO/IEC 9899:2011, truncation toward zero. */
  function TruncDiv(a: int, b: int): (q: int)
    requires b != 0
    ensures var r := a - q * b;
            && (if r < 0 then -r else r) < (if b < 0 then -b else b)
            && (r == 0 || (r < 0 <==> a < 0))
  {
    var absA := if a < 0 then -a else a;
    var absB := if b < 0 then -b else b;
    var q := absA / absB;
    Remainder(absA, absB);
    Signs(q, b);
    if (a < 0) == (b < 0) then q else -q
  }

  function Apply(a: int, b: int, op: char): Outcome {
    match op
    case '+' => Ranged(a + b)
    case '-' => Ranged(a - b)
    case '*' => Ranged(a * b)
    case '/' => if b == 0 then Undefined else Ranged(TruncDiv(a, b))
    case _ => Value(0)
  }

  function NumValue(ds: string): nat
    requires AllDigits(ds)
  {
    if ds == "" then 0
    else 10 * NumValue(ds[..|ds|-1]) + (ds[|ds|-1] - '0') as nat
  }

  function Eval(e: Expr): Outcome
    requires Parsed(e)
  {
    match e
    case Lit(ds) => Ranged(NumValue(ds))
    case Paren(inner) => Eval(inner)
    case Bin(op, l, r) =>
      match (Eval(l), Eval(r))
      case (Value(a), Value(b)) => Apply(a, b, op)
      case _ => Undefined
  }

  lemma {:induction false} TokensSpelled(e: Expr)
    requires Parsed(e)
    ensures Spelled(Tokens(e)) && Tokens(e) != []
  {
    match e
    case Lit(_) =>
    case Bin(_, l, r) => TokensSpelled(l); TokensSpelled(r);
    case Paren(inner) => TokensSpelled(inner);
  }

  /** Numbers are never adjacent in the tokens of a tree, so any spacing will do. */
  lemma {:induction false} TokensApart(e: Expr, k: nat)
    requires Parsed(e) && k < |Tokens(e)|
    ensures 0 < k ==> !(Tokens(e)[k-1].Num? && Tokens(e)[k].Num?)
  {
    match e
    case Lit(_) =>
    case Bin(op, l, r) =>
      if k < |Tokens(l)| { TokensApart(l, k); }
      else if k > |Tokens(l)| + 1 { TokensApart(r, k - |Tokens(l)| - 1); }
    case Paren(inner) =>
      if 1 < k <= |Tokens(inner)| { TokensApart(inner, k - 1); }
  }
}
