/** The character level of the calculator: how a text splits into tokens, and
    the two ways of writing tokens down (a user's spacing, and the form that
    the translator writes into its output buffer). */
module CalcTokens {

  /** A maximal digit run, or any single character that is neither a digit nor
      a space. */
  datatype Token = Num(digits: string) | Sym(c: char)

  predicate IsDigit(c: char) { '0' <= c <= '9' }

  predicate AllDigits(s: string) { forall k :: 0 <= k < |s| ==> IsDigit(s[k]) }

  /** Length of the digit run at the front of `s`. */
  function RunLength(s: string): (n: nat)
    ensures n <= |s| && AllDigits(s[..n]) && (n < |s| ==> !IsDigit(s[n]))
  {
    if s == "" || !IsDigit(s[0]) then 0 else 1 + RunLength(s[1..])
  }

  /** One past the digit run that starts at index `i`. */
  function RunEnd(s: string, i: nat): (r: nat)
    requires i <= |s|
    ensures i <= r <= |s| && forall k :: i <= k < r ==> IsDigit(s[k])
    decreases |s| - i
  {
    if i < |s| && IsDigit(s[i]) then RunEnd(s, i + 1) else i
  }

  function Lex(s: string): (toks: seq<Token>)
    ensures Spelled(toks)
    decreases |s|
  {
    if s == "" then []
    else if s[0] == ' ' then Lex(s[1..])
    else if IsDigit(s[0]) then
      var n := RunLength(s);
      [Num(s[..n])] + Lex(s[n..])
    else [Sym(s[0])] + Lex(s[1..])
  }

  lemma {:induction false} RunEndIsRunLength(s: string, i: nat)
    requires i <= |s|
    ensures RunEnd(s, i) == i + RunLength(s[i..])
    decreases |s| - i
  {
    if i < |s| && IsDigit(s[i]) {
      assert s[i..][1..] == s[i+1..];
      RunEndIsRunLength(s, i + 1);
    }
  }

  lemma LexNumber(t: string)
    requires t != "" && IsDigit(t[0])
    ensures var n := RunLength(t);
            Lex(t) == [Num(t[..n])] + Lex(t[n..]) && Lex(t)[1..] == Lex(t[n..])
  {
  }

  lemma LexNumberAt(s: string, i: nat)
    requires i < |s| && IsDigit(s[i])
    ensures var k := RunEnd(s, i);
            && Lex(s[i..]) == [Num(s[i..k])] + Lex(s[k..])
            && Lex(s[i..])[1..] == Lex(s[k..])
  {
    RunEndIsRunLength(s, i);
    LexNumberTo(s, i, RunEnd(s, i));
  }

  lemma LexNumberTo(s: string, i: nat, k: nat)
    requires i < |s| && IsDigit(s[i]) && k == i + RunLength(s[i..])
    ensures Lex(s[i..]) == [Num(s[i..k])] + Lex(s[k..]) && Lex(s[i..])[1..] == Lex(s[k..])
  {
    LexNumber(s[i..]);
    TailSlices(s, i, k - i);
  }

  lemma TailSlices(s: string, i: nat, n: nat)
    requires i + n <= |s|
    ensures s[i..][..n] == s[i..i+n] && s[i..][n..] == s[i+n..]
  {
  }

  lemma LexSymbolAt(s: string, i: nat)
    requires i < |s| && !IsDigit(s[i])
    ensures s[i] == ' ' ==> Lex(s[i..]) == Lex(s[i+1..])
    ensures s[i] != ' ' ==>
              && Lex(s[i..]) == [Sym(s[i])] + Lex(s[i+1..])
              && Lex(s[i..])[1..] == Lex(s[i+1..])
  {
    assert s[i..][1..] == s[i+1..];
  }

  predicate WellSpelled(t: Token) {
    match t
    case Num(ds) => ds != "" && AllDigits(ds)
    case Sym(c) => !IsDigit(c) && c != ' '
  }

  predicate Spelled(toks: seq<Token>) {
    forall k :: 0 <= k < |toks| ==> WellSpelled(toks[k])
  }

  function Spell(t: Token): string {
    match t
    case Num(ds) => ds
    case Sym(c) => [c]
  }

  function Spaces(n: nat): string { seq(n, _ => ' ') }

  /** The tokens in order with `gaps[k]` spaces before token `k` and the last
      gap at the end. */
  function Layout(toks: seq<Token>, gaps: seq<nat>): string
    requires |gaps| == |toks| + 1
  {
    if toks == [] then Spaces(gaps[0])
    else Spaces(gaps[0]) + Spell(toks[0]) + Layout(toks[1..], gaps[1..])
  }

  /** Two numbers in a row must be kept apart by a space. */
  predicate KeepsNumbersApart(toks: seq<Token>, gaps: seq<nat>)
    requires |gaps| == |toks| + 1
  {
    forall k :: 0 < k < |toks| && toks[k-1].Num? && toks[k].Num? ==> gaps[k] > 0
  }

  lemma {:induction false} RunLengthExact(ds: string, rest: string)
    requires AllDigits(ds) && (rest != "" ==> !IsDigit(rest[0]))
    ensures RunLength(ds + rest) == |ds|
  {
    if ds == "" {
      assert ds + rest == rest;
    } else {
      assert (ds + rest)[1..] == ds[1..] + rest;
      RunLengthExact(ds[1..], rest);
    }
  }

  lemma LexToken(t: Token, rest: string)
    requires WellSpelled(t)
    requires t.Num? && rest != "" ==> !IsDigit(rest[0])
    ensures Lex(Spell(t) + rest) == [t] + Lex(rest)
  {
    match t
    case Num(ds) =>
      RunLengthExact(ds, rest);
      assert (ds + rest)[..|ds|] == ds && (ds + rest)[|ds|..] == rest;
    case Sym(c) =>
      assert ([c] + rest)[1..] == rest;
  }

  lemma {:induction false} LexSkipsSpaces(n: nat, rest: string)
    ensures Lex(Spaces(n) + rest) == Lex(rest)
  {
    if n == 0 {
      assert Spaces(n) + rest == rest;
    } else {
      assert (Spaces(n) + rest)[1..] == Spaces(n-1) + rest;
      LexSkipsSpaces(n-1, rest);
    }
  }

  /** Spacing does not matter: every layout of the tokens reads back as them. */
  lemma {:induction false} LexLayout(toks: seq<Token>, gaps: seq<nat>)
    requires |gaps| == |toks| + 1
    requires Spelled(toks) && KeepsNumbersApart(toks, gaps)
    ensures Lex(Layout(toks, gaps)) == toks
  {
    if toks == [] {
      LexSkipsSpaces(gaps[0], "");
      assert Spaces(gaps[0]) + "" == Spaces(gaps[0]);
    } else {
      var rest := Layout(toks[1..], gaps[1..]);
      assert Layout(toks, gaps) == Spaces(gaps[0]) + (Spell(toks[0]) + rest);
      LexSkipsSpaces(gaps[0], Spell(toks[0]) + rest);
      assert KeepsNumbersApart(toks[1..], gaps[1..]) by {
        forall k | 0 < k < |toks[1..]| && toks[1..][k-1].Num? && toks[1..][k].Num?
          ensures gaps[1..][k] > 0
        {
          assert toks[k+1] == toks[1..][k] && toks[k] == toks[1..][k-1];
        }
      }
      LexLayout(toks[1..], gaps[1..]);
      if toks[0].Num? { LayoutStart(toks, gaps); }
      LexToken(toks[0], rest);
    }
  }

  lemma LayoutStart(toks: seq<Token>, gaps: seq<nat>)
    requires |gaps| == |toks| + 1 && toks != [] && toks[0].Num?
    requires Spelled(toks) && KeepsNumbersApart(toks, gaps)
    ensures var rest := Layout(toks[1..], gaps[1..]); rest != "" ==> !IsDigit(rest[0])
  {
    if |toks| > 1 {
      assert toks[1..][0] == toks[1];
      if toks[1].Num? { assert gaps[1] > 0; }
    }
  }

  /** What the translator has written after emitting `toks`: every token is
      followed by one space. */
  function Emit(toks: seq<Token>): string {
    if toks == [] then ""
    else Emit(toks[..|toks|-1]) + Spell(toks[|toks|-1]) + " "
  }

  /** The finished output: the last space has become the terminator. */
  function Render(toks: seq<Token>): string {
    if toks == [] then "" else Emit(toks[..|toks|-1]) + Spell(toks[|toks|-1])
  }

  lemma EmitSnoc(toks: seq<Token>, t: Token)
    ensures Emit(toks + [t]) == Emit(toks) + Spell(t) + " "
  {
    assert (toks + [t])[..|toks|] == toks;
  }

  lemma LexLast(t: Token, rest: string)
    requires WellSpelled(t)
    ensures Lex(Spell(t) + (" " + rest)) == [t] + Lex(rest)
  {
    LexToken(t, " " + rest);
    assert (" " + rest)[1..] == rest;
  }

  lemma Regroup(before: seq<Token>, t: Token, after: seq<Token>)
    ensures before + ([t] + after) == before + [t] + after
  {
  }

  lemma {:induction false} LexEmit(toks: seq<Token>, rest: string)
    requires Spelled(toks)
    ensures Lex(Emit(toks) + rest) == toks + Lex(rest)
  {
    if toks == [] {
      assert Emit(toks) + rest == rest;
    } else {
      var before, t := toks[..|toks|-1], toks[|toks|-1];
      var more := Spell(t) + (" " + rest);
      assert Emit(toks) + rest == Emit(before) + more;
      LexEmit(before, more);
      LexLast(t, rest);
      Regroup(before, t, Lex(rest));
      assert toks == before + [t];
    }
  }

  /** Round trip through the output buffer. */
  lemma LexRender(toks: seq<Token>)
    requires Spelled(toks)
    ensures Lex(Render(toks)) == toks
  {
    if toks != [] {
      var n := |toks| - 1;
      LexEmit(toks[..n], Spell(toks[n]));
      assert Spell(toks[n]) + "" == Spell(toks[n]);
      LexToken(toks[n], "");
      assert toks == toks[..n] + [toks[n]];
    }
  }

  /** Characters that `Emit` writes for `toks`. */
  function Size(toks: seq<Token>): nat {
    if toks == [] then 0 else |Spell(toks[0])| + 1 + Size(toks[1..])
  }

  lemma {:induction false} SizeAppend(a: seq<Token>, b: seq<Token>)
    ensures Size(a + b) == Size(a) + Size(b)
  {
    if a == [] {
      assert a + b == b;
    } else {
      assert (a + b)[1..] == a[1..] + b;
      SizeAppend(a[1..], b);
    }
  }

  lemma {:induction false} EmitSize(toks: seq<Token>)
    ensures |Emit(toks)| == Size(toks)
  {
    if toks != [] {
      var n := |toks| - 1;
      EmitSize(toks[..n]);
      SizeAppend(toks[..n], [toks[n]]);
      assert toks == toks[..n] + [toks[n]];
    }
  }

  /** A text of n characters has tokens worth at most 2n emitted characters. */
  lemma {:induction false} LexSize(s: string)
    ensures Size(Lex(s)) <= 2 * |s|
    decreases |s|
  {
    if s == "" {
    } else if s[0] == ' ' {
      LexSize(s[1..]);
    } else if IsDigit(s[0]) {
      var n := RunLength(s);
      LexSize(s[n..]);
      assert Lex(s)[1..] == Lex(s[n..]);
    } else {
      LexSize(s[1..]);
      assert Lex(s)[1..] == Lex(s[1..]);
    }
  }
}
