/** The physical memory manager on values: one flag per block and a counter. */
module PhysicalBlocks {

  const BLOCK_SIZE: nat := 4096

  /** The address handed out is an `int` product, so 2 GB is all that can be
      managed. */
  const MAX_BLOCKS: nat := 0x8_0000

  /** The boot loader stores the memory map in one 64 KB segment. */
  const MAX_REGIONS: nat := 8192

  const RANGE: nat := 0x1_0000_0000

  /** used_blocks is an unsigned 32-bit counter. */
  type Counter = n: nat | n < RANGE

  /** Modulo 2^32, at most once around. */
  function Wrap(x: int): Counter
    requires 0 - RANGE <= x < 2 * RANGE
  {
    if x < 0 then x + RANGE else if x < RANGE then x else x - RANGE
  }

  /** `bits[i]` says that block `i` is in use. */
  datatype Blocks = Blocks(bits: seq<bool>, used: Counter)

  function Count(bits: seq<bool>): (n: nat)
    ensures n <= |bits|
  {
    if bits == [] then 0 else Count(bits[..|bits|-1]) + (if bits[|bits|-1] then 1 else 0)
  }

  /** The counter is right. */
  predicate Counting(p: Blocks) { 0 < |p.bits| <= MAX_BLOCKS && p.used == Count(p.bits) }

  /** And block 0 is in use, as pmm_init leaves it. */
  predicate Counted(p: Blocks) { Counting(p) && p.bits[0] }

  /** The counter is `extra` too small, modulo 2^32. */
  ghost predicate Off(p: Blocks, extra: int) {
    |p.bits| <= MAX_BLOCKS && 0 - MAX_BLOCKS <= extra < RANGE && p.used == Wrap(Count(p.bits) - extra)
  }

  /** So small a deviation shows. */
  lemma OffShows(p: Blocks, extra: int)
    requires Off(p, extra)
    ensures p.used == Count(p.bits) <==> extra == 0
  {
  }

  /** The least free block from `i` on among the first `n`, or -1: a plain
      bit-by-bit scan. */
  function LeastFree(bits: seq<bool>, i: nat, n: nat): (r: int)
    requires i <= n <= |bits|
    ensures r == -1 || (i <= r < n && !bits[r])
    ensures forall k :: i <= k < (if r == -1 then n else r) ==> bits[k]
    decreases n - i
  {
    if i == n then -1 else if !bits[i] then i else LeastFree(bits, i + 1, n)
  }

  /** The search looks at whole words only. */
  function Searched(p: Blocks): (n: nat)
    ensures n % 32 == 0 && n <= |p.bits| < n + 32
  {
    32 * (|p.bits| / 32)
  }

  /** pmm_alloc_block: the new state and the address handed out, 0 for none. */
  function Alloc(p: Blocks): (r: (Blocks, nat)) {
    if p.used >= |p.bits| then (p, 0)
    else
      var frame := LeastFree(p.bits, 0, Searched(p));
      if frame == -1 then (p, 0)
      else (Blocks(p.bits[frame := true], Wrap(p.used + 1)), frame * BLOCK_SIZE)
  }

  /** pmm_free_block of an address inside the managed memory. */
  function Free(p: Blocks, addr: nat): Blocks
    requires addr / BLOCK_SIZE < |p.bits|
  {
    var frame := addr / BLOCK_SIZE;
    if p.bits[frame] then Blocks(p.bits[frame := false], Wrap(p.used - 1)) else p
  }

  lemma {:induction false} CountUpdate(bits: seq<bool>, i: nat, b: bool)
    requires i < |bits|
    ensures Count(bits[i := b]) == Count(bits) - (if bits[i] then 1 else 0) + (if b then 1 else 0)
  {
    var n := |bits| - 1;
    if i < n {
      CountUpdate(bits[..n], i, b);
      assert bits[i := b][..n] == bits[..n][i := b];
    } else {
      assert bits[i := b][..n] == bits[..n];
    }
  }

  lemma {:induction false} CountFull(bits: seq<bool>)
    ensures Count(bits) == |bits| <==> forall k :: 0 <= k < |bits| ==> bits[k]
  {
    if bits != [] {
      var n := |bits| - 1;
      CountFull(bits[..n]);
      assert forall k :: 0 <= k < n ==> bits[k] == bits[..n][k];
    }
  }

  /** It counts the marked blocks. */
  lemma {:induction false} CountIsSize(bits: seq<bool>)
    ensures Count(bits) == |set i | 0 <= i < |bits| && bits[i]|
  {
    var marked := set i | 0 <= i < |bits| && bits[i];
    if bits != [] {
      var n := |bits| - 1;
      CountIsSize(bits[..n]);
      var below := set i | 0 <= i < |bits[..n]| && bits[..n][i];
      assert marked == below + (if bits[n] then {n} else {});
    }
  }

  /** Every free block that the search can reach is among those it takes from,
      the least one first. */
  lemma AllocTakes(p: Blocks)
    requires p.used < |p.bits|
    ensures var (q, addr) := Alloc(p);
            if forall k :: 0 <= k < Searched(p) ==> p.bits[k] then q == p && addr == 0
            else
              var f := addr / BLOCK_SIZE;
              && addr == f * BLOCK_SIZE && f < Searched(p) && !p.bits[f]
              && (forall k :: 0 <= k < f ==> p.bits[k])
              && q.bits == p.bits[f := true] && q.used == Wrap(p.used + 1)
  {
  }

  /** Whatever the state, the counter stays as wrong as it is. */
  lemma AllocKeepsOff(p: Blocks, extra: int)
    requires Off(p, extra)
    ensures Off(Alloc(p).0, extra) && |Alloc(p).0.bits| == |p.bits|
  {
    var frame := LeastFree(p.bits, 0, Searched(p));
    if frame != -1 { CountUpdate(p.bits, frame, true); }
  }

  lemma FreeKeepsOff(p: Blocks, addr: nat, extra: int)
    requires Off(p, extra) && addr / BLOCK_SIZE < |p.bits|
    ensures Off(Free(p, addr), extra) && |Free(p, addr).bits| == |p.bits|
  {
    CountUpdate(p.bits, addr / BLOCK_SIZE, false);
  }

  /** Allocation keeps the counter right. It takes the least free block that the
      search can reach, and none exactly if there is none. While block 0 is
      marked it returns 0 exactly then; and if block 0 is the one taken, the
      caller gets 0 for it. */
  lemma AllocCorrect(p: Blocks)
    requires Counting(p)
    ensures var (q, addr) := Alloc(p);
            && Counting(q) && |q.bits| == |p.bits|
            && (q == p <==> forall k :: 0 <= k < Searched(p) ==> p.bits[k])
            && (q == p ==> addr == 0)
            && (q != p ==>
                  var f := addr / BLOCK_SIZE;
                  && addr == f * BLOCK_SIZE && f < Searched(p) && !p.bits[f]
                  && (forall k :: 0 <= k < f ==> p.bits[k])
                  && q.bits == p.bits[f := true])
            && (Counted(p) ==> Counted(q) && (addr == 0 <==> q == p))
  {
    CountFull(p.bits);
    AllocKeepsOff(p, 0);
    if p.used < |p.bits| { AllocTakes(p); }
  }

  /** Freeing keeps the counter right and clears one flag. Only block 0 has to
      stay marked: otherwise the next allocation returns address 0, and marks
      it again. */
  lemma FreeCorrect(p: Blocks, addr: nat)
    requires Counting(p) && addr / BLOCK_SIZE < |p.bits|
    ensures var q := Free(p, addr);
            && Counting(q) && q.bits == p.bits[addr / BLOCK_SIZE := false]
            && (Counted(q) <==> Counted(p) && BLOCK_SIZE <= addr)
            && (addr < BLOCK_SIZE && |p.bits| >= 32 ==>
                  Alloc(q) == (Blocks(p.bits[0 := true], Wrap(q.used + 1)), 0))
  {
    FreeKeepsOff(p, addr, 0);
    if addr < BLOCK_SIZE && |p.bits| >= 32 {
      var q := Free(p, addr);
      assert !q.bits[0] && q.bits[0 := true] == p.bits[0 := true];
      CountFull(q.bits);
      AllocTakes(q);
    }
  }

  // ----- The memory map -----

  datatype Region = Region(base: nat, len: nat, kind: nat)

  function BlocksIn(r: Region): (n: nat)
    ensures r.len <= 4096 * n < r.len + 4096
  {
    (r.len + BLOCK_SIZE - 1) / BLOCK_SIZE
  }

  /** Block `i` is one of those that the freeing loop visits for `r`. */
  predicate Visits(r: Region, i: nat) {
    r.kind == 1 && r.base / BLOCK_SIZE <= i < r.base / BLOCK_SIZE + BlocksIn(r)
  }

  /** A step of the freeing loop for `r` is at block `i`. */
  ghost predicate StepsOn(r: Region, i: nat) {
    r.kind == 1 && exists t: nat :: Reaches(r, t, i)
  }

  predicate Reaches(r: Region, t: nat, i: nat) { 4096 * t < r.len && (r.base + 4096 * t) / 4096 == i }

  lemma VisitsAreSteps(r: Region, i: nat)
    ensures Visits(r, i) <==> StepsOn(r, i)
  {
    if Visits(r, i) { assert Reaches(r, i - r.base / BLOCK_SIZE, i); }
  }

  ghost predicate Stepped(mmap: seq<Region>, i: nat) {
    exists k :: 0 <= k < |mmap| && StepsOn(mmap[k], i)
  }

  lemma UsableIsStepped(mmap: seq<Region>, i: nat)
    ensures Usable(mmap, i) <==> Stepped(mmap, i)
  {
    forall k | 0 <= k < |mmap| ensures Visits(mmap[k], i) <==> StepsOn(mmap[k], i) { VisitsAreSteps(mmap[k], i); }
  }

  predicate Usable(mmap: seq<Region>, i: nat) {
    exists k :: 0 <= k < |mmap| && Visits(mmap[k], i)
  }

  /** Highest end of a usable region. */
  function Top(mmap: seq<Region>): nat {
    if mmap == [] then 0
    else
      var r, t := mmap[|mmap|-1], Top(mmap[..|mmap|-1]);
      if r.kind == 1 && r.base + r.len > t then r.base + r.len else t
  }

  lemma {:induction false} TopBounds(mmap: seq<Region>, k: nat)
    requires k < |mmap| && mmap[k].kind == 1
    ensures mmap[k].base + mmap[k].len <= Top(mmap)
  {
    if k < |mmap| - 1 { TopBounds(mmap[..|mmap|-1], k); }
  }

  /** And it is attained. */
  lemma {:induction false} TopAttained(mmap: seq<Region>)
    ensures Top(mmap) == 0
            || exists k :: 0 <= k < |mmap| && mmap[k].kind == 1 && mmap[k].base + mmap[k].len == Top(mmap)
  {
    if mmap != [] {
      var before := mmap[..|mmap|-1];
      TopAttained(before);
      if Top(mmap) == Top(before) && Top(mmap) != 0 {
        var k :| 0 <= k < |before| && before[k].kind == 1 && before[k].base + before[k].len == Top(before);
        assert mmap[k] == before[k];
      }
    }
  }

  function TotalBlocks(mmap: seq<Region>): nat { Top(mmap) / BLOCK_SIZE }

  /** The greatest end of a usable region lies `blocks` whole blocks up. */
  predicate EndsAfter(mmap: seq<Region>, blocks: nat) {
    && (forall k :: 0 <= k < |mmap| && mmap[k].kind == 1 ==> mmap[k].base + mmap[k].len < 4096 * (blocks + 1))
    && (blocks == 0 || exists k :: 0 <= k < |mmap| && mmap[k].kind == 1 && 4096 * blocks <= mmap[k].base + mmap[k].len)
  }

  lemma TotalIsLast(mmap: seq<Region>, blocks: nat)
    ensures EndsAfter(mmap, blocks) <==> blocks == TotalBlocks(mmap)
  {
    TopAttained(mmap);
    forall k | 0 <= k < |mmap| && mmap[k].kind == 1 ensures mmap[k].base + mmap[k].len <= Top(mmap) {
      TopBounds(mmap, k);
    }
  }

  /** The first byte behind the bitmap that follows the kernel. */
  function BitmapEnd(mmap: seq<Region>, kernelEnd: nat): nat { kernelEnd + TotalBlocks(mmap) / 8 }

  /** The blocks that pmm_init takes back: the whole ones below that byte. */
  function Reserved(mmap: seq<Region>, kernelEnd: nat): nat { BitmapEnd(mmap, kernelEnd) / BLOCK_SIZE }

  /** The blocks that the kernel and its bitmap reach into. */
  function Occupied(mmap: seq<Region>, kernelEnd: nat): nat {
    (BitmapEnd(mmap, kernelEnd) + BLOCK_SIZE - 1) / BLOCK_SIZE
  }

  /** What pmm_init needs of the machine: not too much memory, a map that fits
      where the boot loader puts it, and a kernel and bitmap in managed memory. */
  predicate MapFits(mmap: seq<Region>, kernelEnd: nat) {
    && TotalBlocks(mmap) <= MAX_BLOCKS && |mmap| < MAX_REGIONS
    && BLOCK_SIZE <= kernelEnd && Reserved(mmap, kernelEnd) <= TotalBlocks(mmap)
  }

  /** Only the first `n` blocks are visited. */
  ghost predicate Within(mmap: seq<Region>, n: nat) {
    forall k, i: nat :: 0 <= k < |mmap| && Visits(mmap[k], i) ==> i < n
  }

  /** No usable region reaches into a part of a block behind the managed ones. */
  ghost predicate Managed(mmap: seq<Region>) { Within(mmap, TotalBlocks(mmap)) }

  /** No block is visited for two regions. */
  ghost predicate VisitedOnce(mmap: seq<Region>) {
    forall j, k, i: nat :: 0 <= j < k < |mmap| && Visits(mmap[j], i) ==> !Visits(mmap[k], i)
  }

  /** The flags that pmm_init should leave behind: they mark exactly the blocks
      that it takes back and those that are not usable. */
  ghost predicate InitialBits(bits: seq<bool>, mmap: seq<Region>, kernelEnd: nat) {
    && |bits| == TotalBlocks(mmap)
    && forall i :: 0 <= i < |bits| ==> (bits[i] <==> i < Reserved(mmap, kernelEnd) || !Usable(mmap, i))
  }

  /** Two regions that have no byte in common, one right behind the other: they
      fit, and still a block is visited twice. */
  lemma SharedBlock()
    ensures var mmap := [Region(0, 0x1800, 1), Region(0x1800, 0x7F_E800, 1)];
            MapFits(mmap, 0x10_0000) && Managed(mmap) && !VisitedOnce(mmap)
  {
    var a, b := Region(0, 0x1800, 1), Region(0x1800, 0x7F_E800, 1);
    var mmap := [a, b];
    assert mmap[..1] == [a] && [a][..0] == [];
    assert Top([]) == 0;
    assert Top([a]) == 0x1800;
    assert Top(mmap) == 0x80_0000;
    assert Visits(mmap[0], 1) && Visits(mmap[1], 1);
  }

  /** One region whose last block is a part of one: the block visited last is
      no managed one. */
  lemma BlockBehindEnd()
    ensures var mmap := [Region(0, 0x80_0800, 1)];
            MapFits(mmap, 0x10_0000) && VisitedOnce(mmap) && !Managed(mmap)
  {
    var r := Region(0, 0x80_0800, 1);
    assert [r][..0] == [] && Top([]) == 0 && Top([r]) == 0x80_0800;
    assert Visits([r][0], 0x800);
  }

  // ----- The block that holds the end of the bitmap -----

  /** The reservation rounds down, so the last block that the bitmap reaches
      into is safe only if it is not a part of one, or is not usable anyway. */
  ghost predicate TailSafe(mmap: seq<Region>, kernelEnd: nat) {
    BitmapEnd(mmap, kernelEnd) % BLOCK_SIZE == 0 || !Usable(mmap, Reserved(mmap, kernelEnd))
  }

  lemma OccupiedIs(mmap: seq<Region>, kernelEnd: nat)
    ensures Occupied(mmap, kernelEnd) ==
            Reserved(mmap, kernelEnd) + if BitmapEnd(mmap, kernelEnd) % BLOCK_SIZE == 0 then 0 else 1
  {
    var end := BitmapEnd(mmap, kernelEnd);
    assert end == end / BLOCK_SIZE * BLOCK_SIZE + end % BLOCK_SIZE;
  }

  /** All blocks of kernel and bitmap start out marked if and only if the last
      one is safe. */
  lemma OccupiedMarkedWhen(bits: seq<bool>, mmap: seq<Region>, kernelEnd: nat)
    requires InitialBits(bits, mmap, kernelEnd) && Occupied(mmap, kernelEnd) <= |bits|
    ensures (forall i :: 0 <= i < Occupied(mmap, kernelEnd) ==> bits[i]) <==> TailSafe(mmap, kernelEnd)
  {
    OccupiedIs(mmap, kernelEnd);
    var r := Reserved(mmap, kernelEnd);
    assert r < Occupied(mmap, kernelEnd) ==> (bits[r] <==> !Usable(mmap, r));
  }

  /** Otherwise it is the first block that the allocator hands out. */
  lemma TailHandedOutFirst(p: Blocks, mmap: seq<Region>, kernelEnd: nat)
    requires Counted(p) && InitialBits(p.bits, mmap, kernelEnd) && |p.bits| % 32 == 0
    requires Occupied(mmap, kernelEnd) <= |p.bits| && !TailSafe(mmap, kernelEnd)
    ensures var r := Reserved(mmap, kernelEnd);
            && Alloc(p) == (Blocks(p.bits[r := true], p.used + 1), r * BLOCK_SIZE)
            && r * BLOCK_SIZE < BitmapEnd(mmap, kernelEnd) < (r + 1) * BLOCK_SIZE
  {
    OccupiedIs(mmap, kernelEnd);
    AllocCorrect(p);
    var r := Reserved(mmap, kernelEnd);
    assert !p.bits[r] && forall k :: 0 <= k < r ==> p.bits[k];
  }
}
