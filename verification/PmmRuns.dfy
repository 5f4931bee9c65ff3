/** Whole runs of the physical memory manager: any allocations and any frees of
    managed addresses, those of block 0 and of the kernel's own blocks included. */
module PmmRuns {
  import opened PhysicalBlocks
  import opened Pmm

  datatype Call = AllocBlock | FreeBlock(addr: nat)

  /** Only managed addresses, below `total` blocks, are freed. */
  predicate InMemory(calls: seq<Call>, total: nat) {
    forall k :: 0 <= k < |calls| && calls[k].FreeBlock? ==> calls[k].addr / BLOCK_SIZE < total
  }

  function After(p: Blocks, call: Call): Blocks
    requires call.FreeBlock? ==> call.addr / BLOCK_SIZE < |p.bits|
  {
    match call
    case AllocBlock => Alloc(p).0
    case FreeBlock(addr) => Free(p, addr)
  }

  function AfterAll(p: Blocks, calls: seq<Call>): (q: Blocks)
    requires InMemory(calls, |p.bits|)
    ensures |q.bits| == |p.bits|
  {
    if calls == [] then p else After(AfterAll(p, calls[..|calls|-1]), calls[|calls|-1])
  }

  /** No run changes how wrong the counter is. */
  lemma {:induction false} RunKeepsOff(p: Blocks, calls: seq<Call>, extra: int)
    requires Off(p, extra) && InMemory(calls, |p.bits|)
    ensures Off(AfterAll(p, calls), extra)
  {
    if calls != [] {
      var n := |calls| - 1;
      RunKeepsOff(p, calls[..n], extra);
      match calls[n]
      case AllocBlock => AllocKeepsOff(AfterAll(p, calls[..n]), extra);
      case FreeBlock(addr) => FreeKeepsOff(AfterAll(p, calls[..n]), addr, extra);
    }
  }

  /** After pmm_init and any run, used_blocks equals the number of set bits if
      and only if it does so right after pmm_init. */
  lemma CounterOverRuns(start: seq<bool>, mmap: seq<Region>, kernelEnd: nat, calls: seq<Call>)
    requires MapFits(mmap, kernelEnd) && |start| == TotalBlocks(mmap) && InMemory(calls, |start|)
    ensures var p := AfterAll(Initial(start, mmap, kernelEnd), calls);
            && (p.used == Count(p.bits) <==> Surplus(mmap) == Stray(start, mmap))
            && (NoStray(start, mmap) ==> (p.used == Count(p.bits) <==> VisitedOnce(mmap) && Managed(mmap)))
  {
    var p := Initial(start, mmap, kernelEnd);
    InitialCorrect(start, mmap, kernelEnd);
    InitialOff(start, mmap, kernelEnd);
    RunKeepsOff(p, calls, Surplus(mmap) - Stray(start, mmap));
    OffShows(p, Surplus(mmap) - Stray(start, mmap));
    OffShows(AfterAll(p, calls), Surplus(mmap) - Stray(start, mmap));
  }

  /** The next allocation after any run, with the counter right: it takes the
      least free block that the search can reach, and none exactly if there is
      none. While block 0 is marked it returns 0 exactly then; while it is not,
      it returns 0 and marks it. */
  lemma NextBlock(start: seq<bool>, mmap: seq<Region>, kernelEnd: nat, calls: seq<Call>)
    requires MapFits(mmap, kernelEnd) && |start| == TotalBlocks(mmap) && InMemory(calls, |start|)
    requires Surplus(mmap) == Stray(start, mmap)
    ensures var p := AfterAll(Initial(start, mmap, kernelEnd), calls);
            var (q, addr) := Alloc(p);
            var none := forall k :: 0 <= k < Searched(p) ==> p.bits[k];
            && (q == p <==> none)
            && (p.bits[0] ==> (addr == 0 <==> none))
            && (addr != 0 ==>
                  var f := addr / BLOCK_SIZE;
                  && addr == f * BLOCK_SIZE && f < Searched(p) && !p.bits[f]
                  && (forall k :: 0 <= k < f ==> p.bits[k])
                  && q.bits == p.bits[f := true])
            && (!p.bits[0] && |start| >= 32 ==> addr == 0 && q.bits == p.bits[0 := true])
  {
    CounterOverRuns(start, mmap, kernelEnd, calls);
    AllocCorrect(AfterAll(Initial(start, mmap, kernelEnd), calls));
  }

  // ----- The flags after a run -----

  /** Call `k` of the run takes block `i`. */
  predicate Takes(p: Blocks, calls: seq<Call>, k: nat, i: nat)
    requires InMemory(calls, |p.bits|) && k < |calls|
  {
    var before := AfterAll(p, calls[..k]);
    calls[k] == AllocBlock && Alloc(before).0 != before && Alloc(before).1 / 4096 == i
  }

  predicate Frees(calls: seq<Call>, k: nat, i: nat)
    requires k < |calls|
  {
    calls[k].FreeBlock? && calls[k].addr / 4096 == i
  }

  /** None of the calls from `k` on takes or frees block `i`. */
  predicate Untouched(p: Blocks, calls: seq<Call>, k: nat, i: nat)
    requires InMemory(calls, |p.bits|)
  {
    forall j :: k <= j < |calls| ==> !Takes(p, calls, j, i) && !Frees(calls, j, i)
  }

  /** The last call that takes or frees block `i` takes it, or there is no such
      call and the block was in use before. */
  ghost predicate EndsInUse(p: Blocks, calls: seq<Call>, i: nat)
    requires InMemory(calls, |p.bits|) && i < |p.bits|
  {
    || (p.bits[i] && Untouched(p, calls, 0, i))
    || exists k :: 0 <= k < |calls| && Takes(p, calls, k, i) && Untouched(p, calls, k + 1, i)
  }

  lemma EndsInUseNext(p: Blocks, calls: seq<Call>, i: nat)
    requires InMemory(calls, |p.bits|) && i < |p.bits| && calls != []
    ensures var n := |calls| - 1;
            EndsInUse(p, calls, i) <==>
            Takes(p, calls, n, i) || (EndsInUse(p, calls[..n], i) && !Frees(calls, n, i))
  {
    var n := |calls| - 1;
    forall k | 0 <= k < n
      ensures Takes(p, calls, k, i) <==> Takes(p, calls[..n], k, i)
      ensures Frees(calls, k, i) <==> Frees(calls[..n], k, i)
    {
      assert calls[..n][..k] == calls[..k];
    }
    forall k | 0 <= k <= n
      ensures Untouched(p, calls, k, i) <==>
              Untouched(p, calls[..n], k, i) && !Takes(p, calls, n, i) && !Frees(calls, n, i)
    {
      if Untouched(p, calls, k, i) { assert !Takes(p, calls, n, i) && !Frees(calls, n, i); }
    }
  }

  /** A block is marked after a run if and only if that says so. */
  lemma {:induction false} FlagsOverRuns(p: Blocks, calls: seq<Call>, i: nat)
    requires InMemory(calls, |p.bits|) && i < |p.bits|
    ensures AfterAll(p, calls).bits[i] <==> EndsInUse(p, calls, i)
  {
    if calls != [] {
      var n := |calls| - 1;
      FlagsOverRuns(p, calls[..n], i);
      EndsInUseNext(p, calls, i);
      var before := AfterAll(p, calls[..n]);
      if calls[n] == AllocBlock && before.used < |before.bits| { AllocTakes(before); }
    }
  }

  /** Block 0 stays marked as long as it is not freed. */
  lemma {:induction false} BlockZeroStays(start: seq<bool>, mmap: seq<Region>, kernelEnd: nat, calls: seq<Call>)
    requires MapFits(mmap, kernelEnd) && |start| == TotalBlocks(mmap) && InMemory(calls, |start|)
    requires forall k :: 0 <= k < |calls| && calls[k].FreeBlock? ==> BLOCK_SIZE <= calls[k].addr
    ensures AfterAll(Initial(start, mmap, kernelEnd), calls).bits[0]
  {
    if calls == [] {
      InitialCorrect(start, mmap, kernelEnd);
    } else {
      BlockZeroStays(start, mmap, kernelEnd, calls[..|calls|-1]);
    }
  }
}
