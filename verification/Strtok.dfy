/** strtok: repeated calls cut a string into its maximal delimiter-free runs
    (section 7.24.5.8 of ISO/IEC 9899:2011). */
module Strtok {
  import opened Bytes

  /** Start and end of a run. */
  datatype Span = Span(start: nat, end: nat)

  predicate Delim(s: seq<Byte>, delims: seq<Byte>, k: int) { 0 <= k < |s| && s[k] in delims }

  function Skip(s: seq<Byte>, delims: seq<Byte>, i: nat): (r: nat)
    requires i <= |s|
    ensures i <= r <= |s| && !Delim(s, delims, r)
    ensures forall k :: i <= k < r ==> Delim(s, delims, k)
    decreases |s| - i
  {
    if Delim(s, delims, i) then Skip(s, delims, i + 1) else i
  }

  function Stop(s: seq<Byte>, delims: seq<Byte>, i: nat): (r: nat)
    requires i <= |s|
    ensures i <= r <= |s| && (r < |s| ==> Delim(s, delims, r))
    ensures forall k :: i <= k < r ==> !Delim(s, delims, k)
    decreases |s| - i
  {
    if i < |s| && !Delim(s, delims, i) then Stop(s, delims, i + 1) else i
  }

  predicate InText(s: seq<Byte>, spans: seq<Span>) {
    forall k :: 0 <= k < |spans| ==> spans[k].start < spans[k].end <= |s|
  }

  /** The runs from index `i` on, in order. */
  function Spans(s: seq<Byte>, delims: seq<Byte>, i: nat): (r: seq<Span>)
    requires i <= |s|
    ensures InText(s, r) && forall k :: 0 <= k < |r| ==> i <= r[k].start
    decreases |s| - i
  {
    var b := Skip(s, delims, i);
    if b == |s| then []
    else [Span(b, Stop(s, delims, b))] + Spans(s, delims, Resume(s, delims, b))
  }

  /** Where the search goes on after the run that starts at `b`. */
  function Resume(s: seq<Byte>, delims: seq<Byte>, b: nat): (r: nat)
    requires b < |s| && !Delim(s, delims, b)
    ensures b < r <= |s|
  {
    var e := Stop(s, delims, b);
    if e < |s| then e + 1 else e
  }

  /** The text of the runs. */
  function Words(s: seq<Byte>, spans: seq<Span>): seq<seq<Byte>>
    requires InText(s, spans)
  {
    if spans == [] then [] else [s[spans[0].start..spans[0].end]] + Words(s, spans[1..])
  }

  lemma {:induction false} WordIsSlice(s: seq<Byte>, spans: seq<Span>, k: nat)
    requires InText(s, spans) && k < |spans|
    ensures |Words(s, spans)| == |spans| && Words(s, spans)[k] == s[spans[k].start..spans[k].end]
    decreases |spans|
  {
    if |spans| > 1 { WordIsSlice(s, spans[1..], if k == 0 then 0 else k - 1); }
  }

  /** A maximal non-empty delimiter-free run of `s`. */
  predicate IsRun(s: seq<Byte>, delims: seq<Byte>, p: Span) {
    && p.start < p.end <= |s|
    && (forall k :: p.start <= k < p.end ==> s[k] !in delims)
    && (p.start > 0 ==> s[p.start - 1] in delims)
    && (p.end < |s| ==> s[p.end] in delims)
  }

  lemma RunsDisjoint(s: seq<Byte>, delims: seq<Byte>, p: Span, q: Span)
    requires IsRun(s, delims, p) && IsRun(s, delims, q) && q.start <= p.start < q.end
    ensures p == q
  {
  }

  lemma FirstIsRun(s: seq<Byte>, delims: seq<Byte>, i: nat)
    requires i <= |s| && (0 < i < |s| ==> Delim(s, delims, i - 1)) && Skip(s, delims, i) < |s|
    ensures var b := Skip(s, delims, i);
            IsRun(s, delims, Span(b, Stop(s, delims, b)))
  {
    var b := Skip(s, delims, i);
    var e := Stop(s, delims, b);
    forall k | b <= k < e ensures s[k] !in delims { assert !Delim(s, delims, k); }
    assert b > 0 ==> Delim(s, delims, b - 1);
    assert e < |s| ==> Delim(s, delims, e);
    assert !Delim(s, delims, b);
  }

  /** The spans are exactly the maximal runs. */
  lemma {:induction false} SpansAreRuns(s: seq<Byte>, delims: seq<Byte>, i: nat, p: Span)
    requires i <= |s| && (0 < i < |s| ==> Delim(s, delims, i - 1))
    ensures p in Spans(s, delims, i) <==> IsRun(s, delims, p) && i <= p.start
    decreases |s| - i
  {
    var b := Skip(s, delims, i);
    assert IsRun(s, delims, p) ==> !Delim(s, delims, p.start);
    if b < |s| {
      var q, next := Span(b, Stop(s, delims, b)), Resume(s, delims, b);
      SpansAreRuns(s, delims, next, p);
      FirstIsRun(s, delims, i);
      if IsRun(s, delims, p) && b <= p.start < q.end { RunsDisjoint(s, delims, p, q); }
      assert q.end < |s| && IsRun(s, delims, p) ==> p.start != q.end;
    }
  }

  /** ... in order and without overlap. */
  lemma {:induction false} SpansInOrder(s: seq<Byte>, delims: seq<Byte>, i: nat, j: nat, k: nat)
    requires i <= |s| && j < k < |Spans(s, delims, i)|
    ensures Spans(s, delims, i)[j].end < Spans(s, delims, i)[k].start
    decreases |s| - i
  {
    var b := Skip(s, delims, i);
    var next := Resume(s, delims, b);
    assert Spans(s, delims, i)[k] == Spans(s, delims, next)[k - 1];
    if j > 0 {
      SpansInOrder(s, delims, next, j - 1, k - 1);
      assert Spans(s, delims, i)[j] == Spans(s, delims, next)[j - 1];
    }
  }

  method IsDelimiter(c: Byte, delims: seq<Byte>) returns (r: bool)
    ensures r == (c in delims)
  {
    for i := 0 to |delims|
      invariant c !in delims[..i]
    {
      if c == delims[i] {
        return true;
      }
    }
    return false;
  }

  /** A string buffer and the static pointer of strtok; -1 is NULL. */
  class Tokenizer {
    const buf: array<Byte>
    var state: int

    constructor (buf: array<Byte>)
      ensures this.buf == buf && state == -1
    {
      this.buf := buf;
      state := -1;
    }

    /** `s` is the string that the buffer held at first; it is unchanged from
        index `i` on. */
    ghost predicate Intact(s: seq<Byte>, i: nat)
      reads buf
    {
      && 0 !in s && i <= |s| < buf.Length && buf[|s|] == 0
      && forall k :: i <= k < |s| ==> buf[k] == s[k]
    }

    /** Only delimiters of `s` have been overwritten, each with NUL. */
    ghost predicate OnlyCut(s: seq<Byte>, delims: seq<Byte>)
      requires |s| < buf.Length
      reads buf
    {
      forall k :: 0 <= k < |s| ==> buf[k] == s[k] || (buf[k] == 0 && Delim(s, delims, k))
    }

    ghost predicate Valid(s: seq<Byte>, delims: seq<Byte>)
      reads this, buf
    {
      && 0 !in delims && -1 <= state <= |s| < buf.Length
      && (state >= 0 ==> Intact(s, state)) && OnlyCut(s, delims)
    }

    /** What is still to come. */
    ghost function Rest(s: seq<Byte>, delims: seq<Byte>): (r: seq<Span>)
      requires -1 <= state <= |s|
      reads this
      ensures InText(s, r)
    {
      if state == -1 then [] else Spans(s, delims, state)
    }

    /** Skips leading delimiters. */
    method FindStart(i: nat, delims: seq<Byte>, ghost s: seq<Byte>) returns (start: nat)
      requires Intact(s, i) && 0 !in delims
      ensures start == Skip(s, delims, i)
    {
      start := i;
      var isDelim := IsDelimiter(buf[start], delims);
      while isDelim
        invariant i <= start <= |s| && Skip(s, delims, start) == Skip(s, delims, i)
        invariant isDelim == Delim(s, delims, start)
        decreases |s| - start
      {
        start := start + 1;
        isDelim := IsDelimiter(buf[start], delims);
      }
    }

    /** Finds the end of the token. */
    method FindEnd(start: nat, delims: seq<Byte>, ghost s: seq<Byte>) returns (end: nat)
      requires Intact(s, start) && 0 !in delims
      ensures end == Stop(s, delims, start)
    {
      end := start;
      var isDelim := IsDelimiter(buf[end], delims);
      while buf[end] != 0 && !isDelim
        invariant start <= end <= |s| && Stop(s, delims, end) == Stop(s, delims, start)
        invariant isDelim == Delim(s, delims, end)
        decreases |s| - end
      {
        end := end + 1;
        isDelim := IsDelimiter(buf[end], delims);
      }
    }

    /** Terminates the token and remembers where to go on. */
    method Cut(b: nat, end: nat, delims: seq<Byte>, ghost s: seq<Byte>)
      requires Intact(s, b) && b < |s| && !Delim(s, delims, b) && end == Stop(s, delims, b)
      requires 0 !in delims && OnlyCut(s, delims)
      modifies this`state, buf
      ensures state == Resume(s, delims, b) && Valid(s, delims)
      ensures buf[end] == 0 && forall k :: b <= k < end ==> buf[k] == s[k]
      ensures forall k :: 0 <= k < buf.Length && k != end ==> buf[k] == old(buf[k])
    {
      if buf[end] != 0 {
        buf[end] := 0;
        state := end + 1;
      } else {
        state := end;
      }
    }

    /** strtok(NULL, delims): the next run, or NULL and then NULL for ever. */
    method Next(delims: seq<Byte>, ghost s: seq<Byte>) returns (tok: int)
      requires Valid(s, delims)
      modifies this`state, buf
      ensures Valid(s, delims)
      ensures old(Rest(s, delims)) == [] ==> tok == -1 && Rest(s, delims) == [] && buf[..] == old(buf[..])
      ensures old(Rest(s, delims)) != [] ==>
                var p := old(Rest(s, delims))[0];
                && tok == p.start && Rest(s, delims) == old(Rest(s, delims))[1..]
                && buf[p.end] == 0 && (forall k :: p.start <= k < p.end ==> buf[k] == s[k])
                && forall k :: 0 <= k < buf.Length && k != p.end ==> buf[k] == old(buf[k])
    {
      if state == -1 || buf[state] == 0 {
        return -1;
      }
      var start := FindStart(state, delims, s);
      if buf[start] == 0 {
        state := start;
        return -1;
      }
      var end := FindEnd(start, delims, s);
      Cut(start, end, delims, s);
      tok := start;
    }

    /** The C string at `at`. */
    method Word(at: nat, ghost end: nat, ghost s: seq<Byte>) returns (word: seq<Byte>)
      requires at <= end <= |s| && end < buf.Length && buf[end] == 0 && 0 !in s
      requires forall k :: at <= k < end ==> buf[k] == s[k]
      ensures word == s[at..end]
    {
      var n := at;
      while buf[n] != 0
        invariant at <= n <= end
        decreases end - n
      {
        n := n + 1;
      }
      word := buf[at..n];
    }

    /** One call, and the token as a caller reads it. */
    method NextWord(delims: seq<Byte>, ghost s: seq<Byte>) returns (tok: int, word: seq<Byte>)
      requires Valid(s, delims) && 0 !in s
      modifies this`state, buf
      ensures Valid(s, delims)
      ensures old(Rest(s, delims)) == [] ==> tok == -1 && Rest(s, delims) == []
      ensures old(Rest(s, delims)) != [] ==>
                && tok >= 0 && Rest(s, delims) == old(Rest(s, delims))[1..]
                && [word] + Words(s, Rest(s, delims)) == Words(s, old(Rest(s, delims)))
    {
      ghost var rest := Rest(s, delims);
      word := [];
      tok := Next(delims, s);
      if tok != -1 {
        word := Word(tok, rest[0].end, s);
      }
    }

    /** Calling until NULL yields all the runs, and cuts delimiters only. */
    method All(delims: seq<Byte>, ghost s: seq<Byte>) returns (toks: seq<seq<Byte>>)
      requires Intact(s, 0) && 0 !in delims
      modifies this`state, buf
      ensures toks == Words(s, Spans(s, delims, 0))
      ensures Valid(s, delims) && Rest(s, delims) == []
    {
      state := 0;
      toks := [];
      var done := false;
      ghost var rest := Rest(s, delims);
      ghost var goal, left := Words(s, rest), Words(s, rest);
      while !done
        invariant Valid(s, delims) && rest == Rest(s, delims)
        invariant left == Words(s, rest) && toks + left == goal
        invariant done ==> rest == []
        decreases !done, |rest|
      {
        var tok, word := NextWord(delims, s);
        if tok == -1 {
          done := true;
        } else {
          toks := toks + [word];
          rest := rest[1..];
          left := Words(s, rest);
        }
      }
    }
  }
}
