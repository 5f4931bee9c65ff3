/** The physical memory manager as it runs: a bitmap of 32-bit words and a
    counter, updated with masks. */
module Pmm {
  import opened PhysicalBlocks

  /** A 32-bit word as its bits, the least significant first. */
  type Word = w: seq<bool> | |w| == 32 witness seq(32, _ => false)

  /** `1 << k`. */
  function Mask(k: nat): Word { seq(32, i => i == k) }

  function Or(w: Word, m: Word): Word { seq(32, i requires 0 <= i < 32 => w[i] || m[i]) }

  function And(w: Word, m: Word): Word { seq(32, i requires 0 <= i < 32 => w[i] && m[i]) }

  function Not(w: Word): Word { seq(32, i requires 0 <= i < 32 => !w[i]) }

  predicate NonZero(w: Word) { exists i :: 0 <= i < 32 && w[i] }

  /** 0xFFFFFFFF. */
  const ALL_ONES: Word := seq(32, _ => true)

  lemma TestBit(w: Word, k: nat)
    requires k < 32
    ensures NonZero(And(w, Mask(k))) <==> w[k]
  {
    assert And(w, Mask(k))[k] == w[k];
  }

  /** The flags of the first `n` blocks. */
  function BitsOf(words: seq<Word>, n: nat): seq<bool>
    requires n <= 32 * |words|
  {
    seq(n, i requires 0 <= i < n => words[i / 32][i % 32])
  }

  /** What the bit operations on one word do to the flags. */
  lemma BitsAfter(words: seq<Word>, n: nat, i: nat)
    requires n <= 32 * |words| && i < 32 * |words|
    ensures var w := words[i / 32];
            && (i < n ==> BitsOf(words[i / 32 := Or(w, Mask(i % 32))], n) == BitsOf(words, n)[i := true])
            && BitsOf(words[i / 32 := And(w, Not(Mask(i % 32)))], n) == ClearFlag(BitsOf(words, n), i)
  {
    assert forall k :: 0 <= k < n ==> (k == i <==> k / 32 == i / 32 && k % 32 == i % 32);
  }

  /** A byte of a word, set by memset. */
  function WithByte(w: Word, k: nat): Word { seq(32, i requires 0 <= i < 32 => i / 8 == k || w[i]) }

  /** memset of byte `i` of the bitmap sets eight flags. */
  lemma BitsAfterByte(words: seq<Word>, n: nat, i: nat)
    requires n <= 32 * |words| && i < 4 * |words|
    ensures var after := words[i / 4 := WithByte(words[i / 4], i % 4)];
            forall k :: 0 <= k < n ==> BitsOf(after, n)[k] == (k / 8 == i || BitsOf(words, n)[k])
  {
    assert forall k :: 0 <= k < n ==> (k / 8 == i <==> k / 32 == i / 4 && k % 32 / 8 == i % 4);
  }

  lemma WordIsSlice(words: seq<Word>, n: nat, i: nat)
    requires n <= 32 * |words| && i < n / 32
    ensures forall k :: 32 * i <= k < 32 * i + 32 ==> BitsOf(words, n)[k] == words[i][k - 32 * i]
  {
  }

  // ----- Freeing the usable regions, on flags -----

  /** A block that is not a managed one has no flag. */
  function ClearFlag(bits: seq<bool>, i: nat): (r: seq<bool>)
    ensures |r| == |bits|
  {
    if i < |bits| then bits[i := false] else bits
  }

  /** Clears `t` flags from `first` on. */
  function Cleared(bits: seq<bool>, first: nat, t: nat): (r: seq<bool>)
    ensures |r| == |bits|
  {
    if t == 0 then bits else ClearFlag(Cleared(bits, first, t - 1), first + t - 1)
  }

  lemma {:induction false} ClearedAt(bits: seq<bool>, first: nat, t: nat, i: nat)
    requires i < |bits|
    ensures Cleared(bits, first, t)[i] == (bits[i] && !(first <= i < first + t))
  {
    if t > 0 { ClearedAt(bits, first, t - 1, i); }
  }

  predicate SetAt(bits: seq<bool>, i: nat) { i < |bits| && bits[i] }

  /** How many of them were not set. */
  function ClearIn(bits: seq<bool>, first: nat, t: nat): (n: nat)
    ensures n <= t
  {
    if t == 0 then 0 else ClearIn(bits, first, t - 1) + if SetAt(bits, first + t - 1) then 0 else 1
  }

  lemma {:induction false} ClearInWhen(bits: seq<bool>, first: nat, t: nat)
    ensures ClearIn(bits, first, t) == 0 <==> forall i: nat :: first <= i < first + t ==> SetAt(bits, i)
  {
    if t > 0 { ClearInWhen(bits, first, t - 1); }
  }

  lemma ClearOne(bits: seq<bool>, i: nat)
    ensures Count(ClearFlag(bits, i)) + 1 == Count(bits) + if SetAt(bits, i) then 0 else 1
  {
    if i < |bits| { CountUpdate(bits, i, false); }
  }

  lemma ClearedNext(bits: seq<bool>, first: nat, t: nat)
    requires t > 0
    ensures Count(Cleared(bits, first, t)) + 1 ==
            Count(Cleared(bits, first, t - 1)) + if SetAt(bits, first + t - 1) then 0 else 1
  {
    var i := first + t - 1;
    if i < |bits| { ClearedAt(bits, first, t - 1, i); }
    ClearOne(Cleared(bits, first, t - 1), i);
  }

  lemma {:induction false} ClearedCount(bits: seq<bool>, first: nat, t: nat)
    ensures Count(Cleared(bits, first, t)) + t == Count(bits) + ClearIn(bits, first, t)
  {
    if t > 0 {
      ClearedCount(bits, first, t - 1);
      ClearedNext(bits, first, t);
    }
  }

  /** The blocks visited for one region. */
  function Run(r: Region): nat { if r.kind == 1 then BlocksIn(r) else 0 }

  /** The flags after the regions have been freed one after the other. */
  function Freed(bits: seq<bool>, mmap: seq<Region>): (r: seq<bool>)
    ensures |r| == |bits|
  {
    if mmap == [] then bits
    else
      var last := |mmap| - 1;
      Cleared(Freed(bits, mmap[..last]), mmap[last].base / BLOCK_SIZE, Run(mmap[last]))
  }

  /** How often the counter is decremented for them. */
  function AllVisits(mmap: seq<Region>): nat {
    if mmap == [] then 0 else AllVisits(mmap[..|mmap|-1]) + Run(mmap[|mmap|-1])
  }

  lemma {:induction false} VisitsGrow(mmap: seq<Region>, n: nat)
    requires n <= |mmap|
    ensures AllVisits(mmap[..n]) <= AllVisits(mmap)
  {
    if n == |mmap| {
      assert mmap[..n] == mmap;
    } else {
      VisitsGrow(mmap[..|mmap|-1], n);
      assert mmap[..|mmap|-1][..n] == mmap[..n];
    }
  }

  /** The visits go at most one block too far. */
  lemma RunEnds(mmap: seq<Region>, k: nat)
    requires k < |mmap| && Run(mmap[k]) > 0
    ensures mmap[k].base / BLOCK_SIZE + Run(mmap[k]) <= TotalBlocks(mmap) + 1
  {
    TopBounds(mmap, k);
  }

  lemma {:induction false} VisitsBound(mmap: seq<Region>, n: nat)
    requires n <= |mmap| && TotalBlocks(mmap) <= MAX_BLOCKS
    ensures AllVisits(mmap[..n]) <= n * (MAX_BLOCKS + 1)
  {
    if n > 0 {
      VisitsBound(mmap, n - 1);
      assert mmap[..n][..n-1] == mmap[..n-1];
      if Run(mmap[n-1]) > 0 { RunEnds(mmap, n - 1); }
    }
  }

  /** How often for a block whose flag was not set. */
  function Repeats(bits: seq<bool>, mmap: seq<Region>): (n: nat) {
    if mmap == [] then 0
    else
      var last := |mmap| - 1;
      Repeats(bits, mmap[..last])
      + ClearIn(Freed(bits, mmap[..last]), mmap[last].base / BLOCK_SIZE, Run(mmap[last]))
  }

  /** Flags and counter after the first `n` regions. */
  function FreedTo(p: Blocks, mmap: seq<Region>, n: nat): Blocks
    requires n <= |mmap| && AllVisits(mmap) < RANGE
  {
    VisitsGrow(mmap, n);
    Blocks(Freed(p.bits, mmap[..n]), Wrap(p.used - AllVisits(mmap[..n])))
  }

  lemma FreedNext(p: Blocks, mmap: seq<Region>, n: nat)
    requires n < |mmap| && AllVisits(mmap) < RANGE
    ensures var q, r := FreedTo(p, mmap, n), mmap[n];
            && Run(r) < RANGE
            && FreedTo(p, mmap, n + 1) == Blocks(Cleared(q.bits, r.base / BLOCK_SIZE, Run(r)), Wrap(q.used - Run(r)))
  {
    assert mmap[..n+1][..n] == mmap[..n];
    VisitsGrow(mmap, n + 1);
  }

  lemma {:induction false} FreedCount(bits: seq<bool>, mmap: seq<Region>)
    ensures Count(Freed(bits, mmap)) + AllVisits(mmap) == Count(bits) + Repeats(bits, mmap)
    ensures Repeats(bits, mmap) <= AllVisits(mmap)
  {
    if mmap != [] {
      var last := |mmap| - 1;
      FreedCount(bits, mmap[..last]);
      ClearedCount(Freed(bits, mmap[..last]), mmap[last].base / BLOCK_SIZE, Run(mmap[last]));
    }
  }

  lemma UsableNext(mmap: seq<Region>, n: nat, i: nat)
    requires n < |mmap|
    ensures Usable(mmap[..n+1], i) == (Usable(mmap[..n], i) || Visits(mmap[n], i))
  {
    var now, next := mmap[..n], mmap[..n+1];
    assert forall k :: 0 <= k < n ==> next[k] == now[k];
    assert next[n] == mmap[n];
  }

  /** Exactly the usable blocks are clear afterwards. */
  lemma {:induction false} FreedBits(bits: seq<bool>, mmap: seq<Region>, i: nat)
    requires i < |bits|
    ensures Freed(bits, mmap)[i] == (bits[i] && !Usable(mmap, i))
  {
    if mmap != [] {
      var last := |mmap| - 1;
      FreedBits(bits, mmap[..last], i);
      ClearedAt(Freed(bits, mmap[..last]), mmap[last].base / BLOCK_SIZE, Run(mmap[last]), i);
      UsableNext(mmap, last, i);
      assert mmap[..last + 1] == mmap;
    }
  }

  /** With all flags set, none is found clear if and only if no block is visited
      twice and only managed ones are. */
  lemma {:induction false} RepeatsWhen(bits: seq<bool>, mmap: seq<Region>)
    requires forall i :: 0 <= i < |bits| ==> bits[i]
    ensures Repeats(bits, mmap) == 0 <==> VisitedOnce(mmap) && Within(mmap, |bits|)
  {
    if mmap != [] {
      var last := |mmap| - 1;
      var before, r := mmap[..last], mmap[last];
      RepeatsWhen(bits, before);
      OnceNext(mmap);
      WithinNext(mmap, |bits|);
      RunFindsSet(bits, before, r);
    }
  }

  lemma RunFindsSet(bits: seq<bool>, before: seq<Region>, r: Region)
    requires forall i :: 0 <= i < |bits| ==> bits[i]
    ensures ClearIn(Freed(bits, before), r.base / BLOCK_SIZE, Run(r)) == 0 <==>
            forall i: nat :: Visits(r, i) ==> i < |bits| && !Usable(before, i)
  {
    var flags, first := Freed(bits, before), r.base / BLOCK_SIZE;
    ClearInWhen(flags, first, Run(r));
    forall i: nat ensures SetAt(flags, i) == (i < |bits| && !Usable(before, i)) {
      if i < |bits| { FreedBits(bits, before, i); }
    }
    if ClearIn(flags, first, Run(r)) == 0 {
      forall i: nat | Visits(r, i) ensures i < |bits| && !Usable(before, i) { assert SetAt(flags, i); }
    }
    if forall i: nat :: Visits(r, i) ==> i < |bits| && !Usable(before, i) {
      forall i: nat | first <= i < first + Run(r) ensures SetAt(flags, i) { assert Visits(r, i); }
    }
  }

  lemma WithinNext(mmap: seq<Region>, n: nat)
    requires mmap != []
    ensures var r := mmap[|mmap|-1];
            Within(mmap, n) <==> Within(mmap[..|mmap|-1], n) && forall i: nat :: Visits(r, i) ==> i < n
  {
    var before, r := mmap[..|mmap|-1], mmap[|mmap|-1];
    assert forall k :: 0 <= k < |before| ==> before[k] == mmap[k];
    if Within(before, n) && forall i: nat :: Visits(r, i) ==> i < n {
      forall k, i: nat | 0 <= k < |mmap| && Visits(mmap[k], i) ensures i < n {
        if k < |before| { assert Visits(before[k], i); }
      }
    }
  }

  lemma OnceNext(mmap: seq<Region>)
    requires mmap != []
    ensures VisitedOnce(mmap) <==>
            var last := |mmap| - 1;
            VisitedOnce(mmap[..last]) && forall i: nat :: Visits(mmap[last], i) ==> !Usable(mmap[..last], i)
  {
    var last := |mmap| - 1;
    var before := mmap[..last];
    assert forall k :: 0 <= k < last ==> before[k] == mmap[k];
    if VisitedOnce(mmap) {
      forall i: nat | Visits(mmap[last], i) ensures !Usable(before, i) {
        forall j | 0 <= j < last ensures !Visits(before[j], i) { assert before[j] == mmap[j]; }
      }
    }
    if VisitedOnce(before) && forall i: nat :: Visits(mmap[last], i) ==> !Usable(before, i) {
      forall j, k, i: nat | 0 <= j < k < |mmap| && Visits(mmap[j], i) ensures !Visits(mmap[k], i) {
        assert before[j] == mmap[j];
        if k == last { assert Usable(before, i); } else { assert before[k] == mmap[k]; }
      }
    }
  }

  lemma FitsInRange(mmap: seq<Region>, kernelEnd: nat)
    requires MapFits(mmap, kernelEnd)
    ensures AllVisits(mmap) < RANGE
  {
    VisitsBound(mmap, |mmap|);
    assert mmap[..|mmap|] == mmap;
  }

  /** Marks a block and counts it, unless it is marked already. */
  function TakeBlock(p: Blocks, i: nat): (r: Blocks)
    requires i < |p.bits|
    ensures r.bits == p.bits[i := true]
  {
    if p.bits[i] then p else Blocks(p.bits[i := true], Wrap(p.used + 1))
  }

  lemma TakeCount(p: Blocks, i: nat, extra: int)
    requires i < |p.bits| && Off(p, extra)
    ensures Off(TakeBlock(p, i), extra)
  {
    CountUpdate(p.bits, i, true);
  }

  /** The loop that takes back the first `n` blocks. */
  function Taken(p: Blocks, n: nat): (r: Blocks)
    requires n <= |p.bits|
    ensures |r.bits| == |p.bits|
  {
    if n == 0 then p else TakeBlock(Taken(p, n - 1), n - 1)
  }

  lemma {:induction false} TakenCount(p: Blocks, n: nat, extra: int)
    requires n <= |p.bits| && Off(p, extra)
    ensures Off(Taken(p, n), extra)
  {
    if n > 0 {
      TakenCount(p, n - 1, extra);
      TakeCount(Taken(p, n - 1), n - 1, extra);
    }
  }

  lemma {:induction false} TakenBits(p: Blocks, n: nat, i: nat)
    requires n <= |p.bits| && i < |p.bits|
    ensures Taken(p, n).bits[i] == (i < n || p.bits[i])
  {
    if n > 0 { TakenBits(p, n - 1, i); }
  }

  function AllSet(n: nat): (bits: seq<bool>)
    ensures |bits| == n && forall i :: 0 <= i < n ==> bits[i]
  {
    seq(n, _ => true)
  }

  /** The flags once the first `m` bytes have been filled. */
  function FilledTo(start: seq<bool>, m: nat): (bits: seq<bool>)
    ensures |bits| == |start|
  {
    seq(|start|, i requires 0 <= i < |start| => i < 8 * m || start[i])
  }

  /** The flags after the memset, which covers whole bytes only; `start` is what
      the memory held before. */
  function Filled(start: seq<bool>): (bits: seq<bool>)
    ensures |bits| == |start|
  {
    FilledTo(start, |start| / 8)
  }

  lemma FillNext(start: seq<bool>, m: nat)
    ensures forall k :: 0 <= k < |start| ==> FilledTo(start, m + 1)[k] == (k / 8 == m || FilledTo(start, m)[k])
  {
    forall k | 0 <= k < |start|
      ensures FilledTo(start, m + 1)[k] == (k / 8 == m || FilledTo(start, m)[k])
    {
      assert k < 8 * (m + 1) <==> k / 8 == m || k < 8 * m;
    }
  }

  /** Flags and counter after the usable regions have been freed and the first
      `n` blocks taken back. */
  function AfterLoops(p: Blocks, mmap: seq<Region>, n: nat): Blocks
    requires n <= |p.bits| && AllVisits(mmap) < RANGE
  {
    Taken(Blocks(Freed(p.bits, mmap), Wrap(p.used - AllVisits(mmap))), n)
  }

  /** Flags and counter as pmm_init leaves them. */
  function Initial(start: seq<bool>, mmap: seq<Region>, kernelEnd: nat): (p: Blocks)
    requires MapFits(mmap, kernelEnd) && |start| == TotalBlocks(mmap)
    ensures |p.bits| == |start|
  {
    FitsInRange(mmap, kernelEnd);
    AfterLoops(Blocks(Filled(start), |start|), mmap, Reserved(mmap, kernelEnd))
  }

  /** The managed blocks that are usable. */
  function UsableFlags(mmap: seq<Region>): (bits: seq<bool>)
    ensures |bits| == TotalBlocks(mmap)
  {
    seq(TotalBlocks(mmap), i requires 0 <= i < TotalBlocks(mmap) => Usable(mmap, i))
  }

  /** Visits beyond one for each of those. */
  function Surplus(mmap: seq<Region>): int { AllVisits(mmap) - Count(UsableFlags(mmap)) }

  lemma SurplusIsRepeats(mmap: seq<Region>)
    ensures Surplus(mmap) == Repeats(AllSet(TotalBlocks(mmap)), mmap)
  {
    var all := AllSet(TotalBlocks(mmap));
    forall i | 0 <= i < |all| ensures Freed(all, mmap)[i] == !Usable(mmap, i) { FreedBits(all, mmap, i); }
    CountSplit(all, Freed(all, mmap), UsableFlags(mmap));
    FreedCount(all, mmap);
  }

  /** The unusable blocks whose flags the memset does not reach and that were
      clear. There are fewer than eight, and none if the blocks fill whole
      bytes. */
  function StrayFlags(start: seq<bool>, mmap: seq<Region>): (bits: seq<bool>)
    ensures |bits| == |start|
  {
    seq(|start|, i requires 0 <= i < |start| => !Filled(start)[i] && !Usable(mmap, i))
  }

  function Stray(start: seq<bool>, mmap: seq<Region>): nat { Count(StrayFlags(start, mmap)) }

  lemma {:induction false} CountSplit(a: seq<bool>, b: seq<bool>, d: seq<bool>)
    requires |a| == |b| == |d|
    requires forall i :: 0 <= i < |a| ==> a[i] == (b[i] || d[i]) && !(b[i] && d[i])
    ensures Count(a) == Count(b) + Count(d)
  {
    if a != [] { CountSplit(a[..|a|-1], b[..|a|-1], d[..|a|-1]); }
  }

  lemma {:induction false} CountNone(bits: seq<bool>)
    ensures Count(bits) == 0 <==> forall i :: 0 <= i < |bits| ==> !bits[i]
  {
    if bits != [] {
      var n := |bits| - 1;
      CountNone(bits[..n]);
      assert forall i :: 0 <= i < n ==> bits[..n][i] == bits[i];
    }
  }

  /** What the memory held matters only for the stray blocks. */
  lemma FreedStray(start: seq<bool>, mmap: seq<Region>)
    ensures Count(Freed(AllSet(|start|), mmap)) == Count(Freed(Filled(start), mmap)) + Stray(start, mmap)
  {
    var a, b, d := Freed(AllSet(|start|), mmap), Freed(Filled(start), mmap), StrayFlags(start, mmap);
    forall i | 0 <= i < |a| ensures a[i] == (b[i] || d[i]) && !(b[i] && d[i]) {
      FreedBits(AllSet(|start|), mmap, i);
      FreedBits(Filled(start), mmap, i);
    }
    CountSplit(a, b, d);
  }

  lemma InitialOff(start: seq<bool>, mmap: seq<Region>, kernelEnd: nat)
    requires MapFits(mmap, kernelEnd) && |start| == TotalBlocks(mmap)
    ensures Off(Initial(start, mmap, kernelEnd), Surplus(mmap) - Stray(start, mmap))
  {
    var all, bits := AllSet(|start|), Filled(start);
    FitsInRange(mmap, kernelEnd);
    CountFull(all);
    FreedCount(all, mmap);
    FreedStray(start, mmap);
    SurplusIsRepeats(mmap);
    TakenCount(Blocks(Freed(bits, mmap), Wrap(|bits| - AllVisits(mmap))), Reserved(mmap, kernelEnd),
               Surplus(mmap) - Stray(start, mmap));
  }

  lemma InitialFlag(start: seq<bool>, mmap: seq<Region>, kernelEnd: nat, i: nat)
    requires MapFits(mmap, kernelEnd) && |start| == TotalBlocks(mmap) && i < |start|
    ensures Initial(start, mmap, kernelEnd).bits[i] ==
            (i < Reserved(mmap, kernelEnd) || (!Usable(mmap, i) && Filled(start)[i]))
  {
    FitsInRange(mmap, kernelEnd);
    FreedBits(Filled(start), mmap, i);
    TakenBits(Blocks(Freed(Filled(start), mmap), Wrap(|start| - AllVisits(mmap))), Reserved(mmap, kernelEnd), i);
  }

  /** No stray blocks: each block that the memset does not reach is usable or
      was marked before. */
  ghost predicate NoStray(start: seq<bool>, mmap: seq<Region>) {
    forall i :: 8 * (|start| / 8) <= i < |start| && !Usable(mmap, i) ==> start[i]
  }

  /** In terms of bytes: marked are the blocks that lie wholly below the end of
      kernel and bitmap, and of those that no step of the freeing loops reached,
      the ones that the memset or the memory before it marked. */
  lemma InitialMeans(start: seq<bool>, mmap: seq<Region>, kernelEnd: nat, i: nat)
    requires MapFits(mmap, kernelEnd) && |start| == TotalBlocks(mmap) && i < |start|
    ensures Initial(start, mmap, kernelEnd).bits[i] <==>
            || 4096 * (i + 1) <= kernelEnd + |start| / 8
            || (!Stepped(mmap, i) && (i < 8 * (|start| / 8) || start[i]))
  {
    InitialFlag(start, mmap, kernelEnd, i);
    UsableIsStepped(mmap, i);
  }

  lemma StrayWhen(start: seq<bool>, mmap: seq<Region>)
    ensures Stray(start, mmap) == 0 <==> NoStray(start, mmap)
    ensures |start| % 8 == 0 ==> NoStray(start, mmap)
  {
    CountNone(StrayFlags(start, mmap));
    assert forall i :: 0 <= i < |start| ==>
      (StrayFlags(start, mmap)[i] <==> 8 * (|start| / 8) <= i && !start[i] && !Usable(mmap, i));
  }

  lemma SurplusWhen(mmap: seq<Region>)
    ensures Surplus(mmap) == 0 <==> VisitedOnce(mmap) && Managed(mmap)
  {
    SurplusIsRepeats(mmap);
    RepeatsWhen(AllSet(TotalBlocks(mmap)), mmap);
  }

  /** pmm_init marks the reserved blocks and, but for the stray ones, the
      unusable ones. Its counter is right if and only if there are as many
      surplus visits as stray blocks: without stray blocks, if and only if no
      block is visited twice and only managed ones are, and for such a map, if
      and only if there are no stray blocks. */
  lemma InitialCorrect(start: seq<bool>, mmap: seq<Region>, kernelEnd: nat)
    requires MapFits(mmap, kernelEnd) && |start| == TotalBlocks(mmap)
    ensures var p := Initial(start, mmap, kernelEnd);
            && (forall i :: 0 <= i < |start| ==>
                  (p.bits[i] <==> i < Reserved(mmap, kernelEnd) || (!Usable(mmap, i) && Filled(start)[i])))
            && (p.used == Count(p.bits) <==> Surplus(mmap) == Stray(start, mmap))
            && (|start| % 8 == 0 ==> NoStray(start, mmap))
            && (NoStray(start, mmap) ==>
                  && InitialBits(p.bits, mmap, kernelEnd)
                  && (p.used == Count(p.bits) <==> VisitedOnce(mmap) && Managed(mmap)))
            && (VisitedOnce(mmap) && Managed(mmap) ==> (p.used == Count(p.bits) <==> NoStray(start, mmap)))
  {
    forall i | 0 <= i < |start|
      ensures Initial(start, mmap, kernelEnd).bits[i] ==
              (i < Reserved(mmap, kernelEnd) || (!Usable(mmap, i) && Filled(start)[i]))
    {
      InitialFlag(start, mmap, kernelEnd, i);
    }
    InitialOff(start, mmap, kernelEnd);
    OffShows(Initial(start, mmap, kernelEnd), Surplus(mmap) - Stray(start, mmap));
    SurplusWhen(mmap);
    StrayWhen(start, mmap);
  }

  /** A map without a fault that leaves the counter to chance: of its 0x803
      blocks the last three are not reached by the memset, and two of those are
      not usable. */
  const STRAY_MAP: seq<Region> := [Region(0, 0x7F_0000, 1), Region(0x80_2000, 0x1000, 1)]

  lemma StrayMapFits()
    ensures MapFits(STRAY_MAP, 0x10_0000) && TotalBlocks(STRAY_MAP) == 0x803
    ensures VisitedOnce(STRAY_MAP) && Managed(STRAY_MAP)
    ensures Usable(STRAY_MAP, 0x802) && !Usable(STRAY_MAP, 0x801) && !Usable(STRAY_MAP, 0x800)
  {
    assert STRAY_MAP[..1] == [STRAY_MAP[0]] && [STRAY_MAP[0]][..0] == [];
    assert Top([]) == 0 && Top([STRAY_MAP[0]]) == 0x7F_0000 && Top(STRAY_MAP) == 0x80_3000;
    assert Visits(STRAY_MAP[1], 0x802);
  }

  lemma StrayBlock(start: seq<bool>)
    requires |start| == 0x803
    ensures MapFits(STRAY_MAP, 0x10_0000) && TotalBlocks(STRAY_MAP) == 0x803
    ensures VisitedOnce(STRAY_MAP) && Managed(STRAY_MAP)
    ensures var p := Initial(start, STRAY_MAP, 0x10_0000);
            p.used == Count(p.bits) <==> start[0x800] && start[0x801]
  {
    StrayMapFits();
    InitialCorrect(start, STRAY_MAP, 0x10_0000);
  }

  /** The inner loop of the search: the lowest clear bit, or 32. */
  method FirstClear(w: Word) returns (j: nat)
    ensures j <= 32 && (j < 32 ==> !w[j]) && forall k :: 0 <= k < j ==> w[k]
  {
    j := 0;
    while j < 32
      invariant j <= 32 && forall k :: 0 <= k < j ==> w[k]
    {
      TestBit(w, j);
      if !NonZero(And(w, Mask(j))) {
        return;
      }
      j := j + 1;
    }
  }

  class Manager {
    var bitmap: array<Word>
    var total: nat
    var used: Counter

    ghost predicate Valid()
      reads this, bitmap
    {
      total <= 32 * bitmap.Length && total <= MAX_BLOCKS
    }

    ghost function View(): Blocks
      requires Valid()
      reads this, bitmap
    {
      Blocks(BitsOf(bitmap[..], total), used)
    }

    /** Before pmm_init: a null bitmap and zero counters. */
    constructor ()
      ensures Valid() && total == used == 0 && fresh(bitmap)
    {
      bitmap := new Word[0];
      total, used := 0, 0;
    }

    method SetBlock(bit: nat)
      requires Valid() && bit < total
      modifies bitmap
      ensures Valid() && View() == old(View()).(bits := old(View()).bits[bit := true])
    {
      BitsAfter(bitmap[..], total, bit);
      bitmap[bit / 32] := Or(bitmap[bit / 32], Mask(bit % 32));
      assert bitmap[..] == old(bitmap[..])[bit / 32 := bitmap[bit / 32]];
    }

    /** Behind the managed blocks it clears a bit that is nobody's flag. */
    method ClearBlock(bit: nat)
      requires Valid() && bit < 32 * bitmap.Length
      modifies bitmap
      ensures Valid() && View() == old(View()).(bits := ClearFlag(old(View()).bits, bit))
    {
      BitsAfter(bitmap[..], total, bit);
      bitmap[bit / 32] := And(bitmap[bit / 32], Not(Mask(bit % 32)));
      assert bitmap[..] == old(bitmap[..])[bit / 32 := bitmap[bit / 32]];
    }

    method TestBlock(bit: nat) returns (b: bool)
      requires Valid() && bit < total
      ensures b == View().bits[bit]
    {
      TestBit(bitmap[bit / 32], bit % 32);
      b := NonZero(And(bitmap[bit / 32], Mask(bit % 32)));
    }

    /** Skips full words, then looks bit by bit. */
    method FindFirstFree() returns (r: int)
      requires Valid()
      ensures r == LeastFree(View().bits, 0, Searched(View()))
    {
      ghost var bits, n := View().bits, Searched(View());
      for i := 0 to total / 32
        invariant LeastFree(bits, 0, n) == LeastFree(bits, 32 * i, n)
      {
        WordIsSlice(bitmap[..], total, i);
        var j: nat := 32;
        if bitmap[i] != ALL_ONES {
          j := FirstClear(bitmap[i]);
        }
        SkipUsed(bits, 32 * i, 32 * i + j, n);
        if j < 32 {
          return 32 * i + j;
        }
      }
      return -1;
    }

    /** Finds the highest usable address. */
    static method TopOfMemory(mmap: seq<Region>) returns (top: nat)
      ensures top == Top(mmap)
    {
      top := 0;
      for i := 0 to |mmap|
        invariant top == Top(mmap[..i])
      {
        if mmap[i].kind == 1 && mmap[i].base + mmap[i].len > top {
          top := mmap[i].base + mmap[i].len;
        }
        assert mmap[..i+1][..i] == mmap[..i];
      }
      assert mmap[..|mmap|] == mmap;
    }

    /** The loop over one usable region: it counts every block it visits, those
        that were clear already too. */
    method FreeRegion(r: Region, ghost p: Blocks)
      requires Valid() && View() == p
      requires r.kind == 1 && (BlocksIn(r) > 0 ==> r.base / BLOCK_SIZE + BlocksIn(r) <= 32 * bitmap.Length)
      requires BlocksIn(r) < RANGE
      modifies this`used, bitmap
      ensures Valid()
      ensures View() == Blocks(Cleared(p.bits, r.base / BLOCK_SIZE, BlocksIn(r)), Wrap(p.used - BlocksIn(r)))
    {
      var j, first := 0, r.base / BLOCK_SIZE;
      ghost var t := 0;
      while j < r.len
        invariant j == BLOCK_SIZE * t && t <= BlocksIn(r)
        invariant Valid() && View().bits == Cleared(p.bits, first, t)
        invariant used == Wrap(p.used - t)
      {
        assert (r.base + j) / BLOCK_SIZE == first + t;
        ClearBlock((r.base + j) / BLOCK_SIZE);
        used := Wrap(used - 1);
        j, t := j + BLOCK_SIZE, t + 1;
      }
    }

    /** pmm_init. `room` is the memory behind the kernel, whatever it holds; a
        region that ends inside a block reaches one flag behind the bitmap. */
    method Init(mmap: seq<Region>, kernelEnd: nat, room: array<Word>)
      requires MapFits(mmap, kernelEnd) && TotalBlocks(mmap) < 32 * room.Length
      modifies this, room
      ensures Valid() && bitmap == room && EndsAfter(mmap, total) && total == TotalBlocks(mmap)
      ensures View() == Initial(BitsOf(old(room[..]), TotalBlocks(mmap)), mmap, kernelEnd)
    {
      FitsInRange(mmap, kernelEnd);
      TotalIsLast(mmap, TotalBlocks(mmap));
      MarkAll(mmap, room);
      FreeAndReserve(mmap, kernelEnd, View());
    }

    /** The loops that free the usable memory and take the kernel's back. */
    method FreeAndReserve(mmap: seq<Region>, kernelEnd: nat, ghost p: Blocks)
      requires Valid() && View() == p && total == TotalBlocks(mmap) < 32 * bitmap.Length
      requires AllVisits(mmap) < RANGE && Reserved(mmap, kernelEnd) <= total
      modifies this`used, bitmap
      ensures Valid() && View() == AfterLoops(p, mmap, Reserved(mmap, kernelEnd))
    {
      ghost var freed := Blocks(Freed(p.bits, mmap), Wrap(p.used - AllVisits(mmap)));
      assert AfterLoops(p, mmap, Reserved(mmap, kernelEnd)) == Taken(freed, Reserved(mmap, kernelEnd));
      FreeUsable(mmap, p);
      Reserve(kernelEnd, freed);
    }

    /** Everything starts out in use, as far as whole bytes go. */
    method MarkAll(mmap: seq<Region>, room: array<Word>)
      requires TotalBlocks(mmap) <= MAX_BLOCKS && TotalBlocks(mmap) < 32 * room.Length
      modifies this, room
      ensures Valid() && bitmap == room && total == TotalBlocks(mmap)
      ensures View() == Blocks(Filled(BitsOf(old(room[..]), total)), total)
    {
      var top := TopOfMemory(mmap);
      total := top / BLOCK_SIZE;
      bitmap := room;
      FillBytes(total / 8);
      used := total;
    }

    /** memset of the first `size` bytes of the bitmap to 0xFF. */
    method FillBytes(size: nat)
      requires Valid() && size == total / 8
      modifies bitmap
      ensures View() == old(View()).(bits := Filled(old(View()).bits))
    {
      ghost var start := View().bits;
      for i := 0 to size
        invariant View() == old(View()).(bits := FilledTo(start, i))
      {
        BitsAfterByte(bitmap[..], total, i);
        FillNext(start, i);
        ghost var words := bitmap[..];
        bitmap[i / 4] := WithByte(bitmap[i / 4], i % 4);
        assert bitmap[..] == words[i / 4 := WithByte(words[i / 4], i % 4)];
      }
    }

    /** The loop over the usable regions. */
    method FreeUsable(mmap: seq<Region>, ghost p: Blocks)
      requires Valid() && View() == p && total == TotalBlocks(mmap) < 32 * bitmap.Length && AllVisits(mmap) < RANGE
      modifies this`used, bitmap
      ensures Valid() && View() == Blocks(Freed(p.bits, mmap), Wrap(p.used - AllVisits(mmap)))
    {
      ghost var q := p;
      for n := 0 to |mmap|
        invariant Valid() && View() == q && |q.bits| == total
        invariant q == FreedTo(p, mmap, n)
      {
        FreedNext(p, mmap, n);
        if mmap[n].kind == 1 {
          if Run(mmap[n]) > 0 { RunEnds(mmap, n); }
          FreeRegion(mmap[n], q);
        }
        q := FreedTo(p, mmap, n + 1);
      }
      assert mmap[..|mmap|] == mmap;
    }

    /** Marks a block and counts it, unless it is marked already. */
    method Take(bit: nat, ghost p: Blocks)
      requires Valid() && View() == p && bit < total
      modifies this`used, bitmap
      ensures Valid() && View() == TakeBlock(p, bit)
    {
      var isUsed := TestBlock(bit);
      if !isUsed {
        SetBlock(bit);
        used := Wrap(used + 1);
      }
    }

    /** The loop that takes back the kernel's and the bitmap's blocks. */
    method Reserve(kernelEnd: nat, ghost p: Blocks)
      requires Valid() && View() == p && (kernelEnd + total / 8) / BLOCK_SIZE <= total
      modifies this`used, bitmap
      ensures Valid() && View() == Taken(p, (kernelEnd + total / 8) / BLOCK_SIZE)
    {
      var size := total / 8;
      var n := (kernelEnd + size) / BLOCK_SIZE;
      for i := 0 to n
        invariant Valid() && View() == Taken(p, i)
      {
        Take(i, Taken(p, i));
      }
    }

    method AllocBlock() returns (addr: nat)
      requires Valid()
      modifies this, bitmap
      ensures Valid() && bitmap == old(bitmap) && total == old(total)
      ensures (View(), addr) == Alloc(old(View()))
    {
      if used >= total {
        return 0;
      }
      var frame := FindFirstFree();
      if frame == -1 {
        return 0;
      }
      SetBlock(frame);
      used := used + 1;
      addr := frame * BLOCK_SIZE;
    }

    /** The address has to lie in the managed memory. */
    method FreeBlock(block: nat)
      requires Valid() && block / BLOCK_SIZE < total
      modifies this, bitmap
      ensures Valid() && bitmap == old(bitmap) && total == old(total)
      ensures View() == Free(old(View()), block)
    {
      var frame := block / BLOCK_SIZE;
      var isUsed := TestBlock(frame);
      if isUsed {
        ClearBlock(frame);
        used := Wrap(used - 1);
      }
    }
  }

  lemma {:induction false} SkipUsed(bits: seq<bool>, i: nat, j: nat, n: nat)
    requires i <= j <= n <= |bits| && forall k :: i <= k < j ==> bits[k]
    ensures LeastFree(bits, i, n) == LeastFree(bits, j, n)
    decreases j - i
  {
    if i < j { SkipUsed(bits, i + 1, j, n); }
  }
}
