/** map_page, unmap_page and paging_install on values, and whole runs that mix
    them with the physical memory manager. */
module VirtualMemory {
  import opened PageTables
  import opened PhysicalBlocks
  import Pmm

  datatype Flags = Flags(present: bool, rw: bool, user: bool)

  /** Writes the four fields that map_page writes; bits 3 to 11 stay. */
  function SetFields(w: Word, frame: FrameNo, fl: Flags): Word {
    Word(fl.present, fl.rw, fl.user, w.rest, frame)
  }

  datatype Sys = Sys(mem: Memory, blocks: Blocks)

  /** A new table from the allocator, or None when the kernel halts. */
  function NewTable(s: Sys, slot: nat): (r: Option<Sys>)
    requires slot < 1024 && Counted(s.blocks)
  {
    AllocCorrect(s.blocks);
    var addr := Alloc(s.blocks).1;
    if addr == 0 then None
    else Some(Sys(AddTable(s.mem, slot, addr / BLOCK_SIZE), Alloc(s.blocks).0))
  }

  /** map_page of page `v`. */
  function Map(s: Sys, frame: FrameNo, v: FrameNo, fl: Flags): (r: Option<Sys>)
    requires Counted(s.blocks)
  {
    var t := if s.mem[DIR][v / 1024].present then Some(s) else NewTable(s, v / 1024);
    if t == None then None
    else Some(Sys(SetPte(t.value.mem, v, SetFields(Pte(t.value.mem, v), frame, fl)), t.value.blocks))
  }

  datatype Unmapped = Fault | Done(mem: Memory)

  /** unmap_page of page `v`. It uses the physical address of the table as a
      virtual one. */
  function Unmap(mem: Memory, v: FrameNo): Unmapped {
    if !mem[DIR][v / 1024].present then Done(mem)
    else
      match Walk(mem, mem[DIR][v / 1024].frame)
      case None => Fault
      case Some(g) => Done(Put(mem, g, v % 1024, ZERO))
  }

  /** Every table frame is in use according to the bitmap, and so are the
      reserved blocks, which include the boot directory and table; the other
      tables lie behind them. */
  ghost predicate TablesInUse(s: Sys, reserved: nat) {
    && FIRST_TABLE < reserved <= |s.blocks.bits|
    && (forall i :: 0 <= i < reserved ==> s.blocks.bits[i])
    && (forall i :: IsTable(s.mem, i) ==>
          && s.mem[DIR][i].frame < |s.blocks.bits| && s.blocks.bits[s.mem[DIR][i].frame]
          && (i > 0 ==> reserved <= s.mem[DIR][i].frame))
  }

  ghost predicate Ok(s: Sys, reserved: nat) {
    Counted(s.blocks) && Recursive(s.mem) && TablesInUse(s, reserved)
  }

  /** A block that the allocator hands out is nobody's table. */
  lemma FreshIsUnused(s: Sys, reserved: nat)
    requires Ok(s, reserved) && Alloc(s.blocks).1 != 0
    ensures var f := Alloc(s.blocks).1 / BLOCK_SIZE;
            reserved <= f < FRAMES && Unused(s.mem, f)
  {
    AllocCorrect(s.blocks);
  }

  lemma NewTableOk(s: Sys, reserved: nat, slot: nat)
    requires Ok(s, reserved) && slot < 1023 && !s.mem[DIR][slot].present
    ensures NewTable(s, slot).Some? ==>
              var r := NewTable(s, slot).value;
              && Ok(r, reserved) && r.mem[DIR][slot].present && reserved <= r.mem[DIR][slot].frame
              && r.blocks == Alloc(s.blocks).0 && r.mem[DIR][slot].frame * BLOCK_SIZE == Alloc(s.blocks).1
              && !s.blocks.bits[r.mem[DIR][slot].frame]
              && forall u: FrameNo ::
                   Mapping(r.mem, u) == if u == WINDOW + slot
                                        then Some(Leaf(r.mem[DIR][slot].frame, true, true))
                                        else Mapping(s.mem, u)
  {
    AllocCorrect(s.blocks);
    if Alloc(s.blocks).1 != 0 {
      var f := Alloc(s.blocks).1 / BLOCK_SIZE;
      FreshIsUnused(s, reserved);
      AddTableMaps(s.mem, slot, f);
      assert forall i :: 0 <= i < 1024 && i != slot ==> AddTable(s.mem, slot, f)[DIR][i] == s.mem[DIR][i];
    }
  }

  /** map_page sets exactly one key of the abstract map, even when it allocates
      and zeroes a new table; that table also appears at its window page. */
  lemma MapSetsOneKey(s: Sys, reserved: nat, frame: FrameNo, v: FrameNo, fl: Flags)
    requires Ok(s, reserved) && v < WINDOW && v != DIR
    ensures Map(s, frame, v, fl).Some? ==>
              var r := Map(s, frame, v, fl).value;
              && Ok(r, reserved) && r.mem[DIR][v / 1024].present
              && (forall u: FrameNo :: u != v && u != WINDOW + v / 1024 ==> Mapping(r.mem, u) == Mapping(s.mem, u))
              && Mapping(r.mem, v) == (if fl.present then Some(Leaf(frame, fl.rw, fl.user)) else None)
              && (if s.mem[DIR][v / 1024].present
                  then r.blocks == s.blocks && Mapping(r.mem, WINDOW + v / 1024) == Mapping(s.mem, WINDOW + v / 1024)
                  else r.blocks == Alloc(s.blocks).0
                       && Mapping(r.mem, WINDOW + v / 1024) == Some(Leaf(r.mem[DIR][v / 1024].frame, true, true))
                       && r.mem[DIR][v / 1024].frame * BLOCK_SIZE == Alloc(s.blocks).1)
  {
    var slot := v / 1024;
    var t := if s.mem[DIR][slot].present then Some(s) else NewTable(s, slot);
    if !s.mem[DIR][slot].present { NewTableOk(s, reserved, slot); }
    if t.Some? {
      SetPteMaps(t.value.mem, v, SetFields(Pte(t.value.mem, v), frame, fl));
    }
  }

  /** It writes to no reserved frame but those of the directory and the first
      table. */
  lemma MapLeavesReserved(s: Sys, reserved: nat, frame: FrameNo, v: FrameNo, fl: Flags, g: FrameNo)
    requires Ok(s, reserved) && v < WINDOW && Map(s, frame, v, fl).Some?
    requires g < reserved && g != DIR && g != FIRST_TABLE
    ensures Map(s, frame, v, fl).value.mem[g] == s.mem[g]
  {
    if s.mem[DIR][v / 1024].present {
      assert IsTable(s.mem, v / 1024);
    } else {
      FreshIsUnused(s, reserved);
    }
  }

  /** It fails only when a table is needed and no block is free. */
  lemma MapFailsWhen(s: Sys, frame: FrameNo, v: FrameNo, fl: Flags)
    requires Counted(s.blocks)
    ensures Map(s, frame, v, fl) == None <==>
            !s.mem[DIR][v / 1024].present && forall k :: 0 <= k < Searched(s.blocks) ==> s.blocks.bits[k]
  {
    AllocCorrect(s.blocks);
  }

  /** unmap_page changes one word at most. */
  lemma UnmapTouches(mem: Memory, v: FrameNo, g: FrameNo, i: nat)
    requires i < 1024 && Unmap(mem, v).Done?
    ensures Unmap(mem, v).mem[g][i] ==
            if mem[DIR][v / 1024].present && Walk(mem, mem[DIR][v / 1024].frame) == Some(g) && i == v % 1024
            then Word(false, false, false, 0, 0) else mem[g][i]
  {
  }

  /** The table of `v` can be reached at its own physical address. */
  predicate IdentityMapped(mem: Memory, v: FrameNo) {
    Walk(mem, mem[DIR][v / 1024].frame) == Some(mem[DIR][v / 1024].frame)
  }

  ghost predicate RemovesOnly(mem: Memory, v: FrameNo, r: Unmapped) {
    r.Done? && forall u: FrameNo :: Mapping(r.mem, u) == if u == v then None else Mapping(mem, u)
  }

  /** unmap_page removes exactly one key. */
  lemma UnmapRemovesOneKey(mem: Memory, v: FrameNo)
    requires Recursive(mem) && v < WINDOW && v != DIR
    requires mem[DIR][v / 1024].present ==> IdentityMapped(mem, v)
    ensures RemovesOnly(mem, v, Unmap(mem, v)) && Recursive(Unmap(mem, v).mem)
    ensures Unmap(mem, v).mem[DIR] == mem[DIR]
  {
    if mem[DIR][v / 1024].present {
      assert Unmap(mem, v) == Done(SetPte(mem, v, ZERO));
      SetPteMaps(mem, v, ZERO);
    }
  }

  /** Frame `g` is the directory or a table, and its word `k` maps something. */
  ghost predicate LiveWord(mem: Memory, g: FrameNo, k: nat)
    requires k < 1024
  {
    (g == DIR || exists i :: IsTable(mem, i) && mem[DIR][i].frame == g) && mem[g][k].present
  }

  /** The store of unmap_page hits the table, or does no harm to a page that was
      not mapped anyway. */
  ghost predicate StoreWorks(mem: Memory, v: FrameNo) {
    match Walk(mem, mem[DIR][v / 1024].frame)
    case None => false
    case Some(g) => g == mem[DIR][v / 1024].frame || (Mapping(mem, v) == None && !LiveWord(mem, g, v % 1024))
  }

  /** unmap_page removes exactly its key if and only if there is no table, or the
      address it takes for the table's translates to the table or, for a page
      that is not mapped, to a word that maps nothing. */
  lemma UnmapWorksWhen(mem: Memory, v: FrameNo)
    requires Recursive(mem) && v < WINDOW && v != DIR
    ensures RemovesOnly(mem, v, Unmap(mem, v)) <==> !mem[DIR][v / 1024].present || StoreWorks(mem, v)
    ensures Mapping(mem, v).Some? ==> (RemovesOnly(mem, v, Unmap(mem, v)) <==> IdentityMapped(mem, v))
  {
    if !mem[DIR][v / 1024].present || IdentityMapped(mem, v) {
      UnmapRemovesOneKey(mem, v);
    } else if Walk(mem, mem[DIR][v / 1024].frame).Some? {
      var t, k := mem[DIR][v / 1024].frame, v % 1024;
      var g := Walk(mem, t).value;
      assert IsTable(mem, v / 1024) && Unmap(mem, v) == Done(Put(mem, g, k, ZERO));
      if LiveWord(mem, g, k) {
        var u := LiveWordMaps(mem, g, k);
        assert u != v;
      } else {
        DeadWordMapsNothing(mem, g, k);
      }
    }
  }

  /** Clearing a live word takes a page away: one of the window if the word is in
      the directory, one of its own if it is in a table. */
  lemma LiveWordMaps(mem: Memory, g: FrameNo, k: nat) returns (u: FrameNo)
    requires Recursive(mem) && k < 1024 && LiveWord(mem, g, k)
    ensures Mapping(mem, u).Some? && Mapping(Put(mem, g, k, ZERO), u) == None
    ensures if g == DIR then u == WINDOW + k else u < WINDOW && IsTable(mem, u / 1024) && mem[DIR][u / 1024].frame == g
  {
    if g == DIR {
      u := WINDOW + k;
      assert u / 1024 == 1023 && u % 1024 == k;
    } else {
      var i :| IsTable(mem, i) && mem[DIR][i].frame == g;
      u := 1024 * i + k;
      assert u / 1024 == i && u % 1024 == k;
    }
  }

  lemma DeadWordMapsNothing(mem: Memory, g: FrameNo, k: nat)
    requires Recursive(mem) && k < 1024 && !LiveWord(mem, g, k)
    ensures forall u: FrameNo :: Mapping(Put(mem, g, k, ZERO), u) == Mapping(mem, u)
  {
    var after := Put(mem, g, k, ZERO);
    forall u: FrameNo ensures Mapping(after, u) == Mapping(mem, u) {
      if u / 1024 < 1023 && mem[DIR][u / 1024].present { assert IsTable(mem, u / 1024); }
    }
  }

  // ----- Installation -----

  function BootDirectory(): (p: Page)
    ensures forall i :: 0 < i < 1023 ==> p[i] == ZERO
    ensures p[0] == Word(true, true, false, 0, FIRST_TABLE) && p[1023] == Word(true, true, false, 0, DIR)
  {
    ZeroPage()[0 := Word(true, true, false, 0, FIRST_TABLE)][1023 := Word(true, true, false, 0, DIR)]
  }

  function BootTable(): Page {
    seq(1024, i requires 0 <= i < 1024 => Word(true, true, false, 0, i))
  }

  /** What paging_install leaves in memory. */
  function Install(mem: Memory): Memory {
    PutFrame(PutFrame(mem, DIR, BootDirectory()), FIRST_TABLE, BootTable())
  }

  /** It identity-maps the first 4 MB, and maps nothing else but the window
      pages of the first table and of the directory. */
  lemma InstallMaps(mem: Memory, u: FrameNo)
    ensures Recursive(Install(mem))
    ensures Mapping(Install(mem), u) ==
            if u < 1024 then Some(Leaf(u, true, false))
            else if u == WINDOW then Some(Leaf(FIRST_TABLE, true, false))
            else if u == WINDOW + 1023 then Some(Leaf(DIR, true, false))
            else None
  {
    var m := Install(mem);
    assert m[DIR] == BootDirectory() && m[FIRST_TABLE] == BootTable();
    assert forall i :: IsTable(m, i) ==> i == 0;
    if u / 1024 == 1023 { assert u == WINDOW + u % 1024; }
  }

  /** It writes frames 0x90 and 0x91 only, and no bits of an entry but the
      fields. */
  lemma InstallTouches(mem: Memory, g: FrameNo, i: nat)
    requires i < 1024
    ensures g != 0x90 && g != 0x91 ==> Install(mem)[g] == mem[g]
    ensures Install(mem)[0x90][i] == if i == 0 then Word(true, true, false, 0, 0x91)
                                     else if i == 1023 then Word(true, true, false, 0, 0x90)
                                     else Word(false, false, false, 0, 0)
    ensures Install(mem)[0x91][i] == Word(true, true, false, 0, i)
  {
  }

  // ----- Runs -----

  datatype Op =
    | AllocBlock
    | FreeBlock(addr: nat)
    | MapPage(frame: FrameNo, page: FrameNo, flags: Flags)
    | UnmapPage(page: FrameNo)

  /** `outstanding` are the blocks handed to callers of pmm_alloc_block and not
      freed since; table frames taken by map_page are not among them. */
  datatype State = State(sys: Sys, outstanding: set<nat>)

  /** Reserved blocks and table frames are never freed; the directory's page and
      the window are left alone; unmapping is done where it works. */
  ghost predicate Allowed(s: State, reserved: nat, op: Op) {
    match op
    case AllocBlock => true
    case FreeBlock(addr) =>
      && reserved <= addr / BLOCK_SIZE < |s.sys.blocks.bits|
      && forall i :: IsTable(s.sys.mem, i) ==> s.sys.mem[DIR][i].frame != addr / BLOCK_SIZE
    case MapPage(_, v, _) => v < WINDOW && v != DIR
    case UnmapPage(v) => v < WINDOW && v != DIR && (s.sys.mem[DIR][v / 1024].present ==> IdentityMapped(s.sys.mem, v))
  }

  ghost predicate Inv(s: State, reserved: nat) {
    && Ok(s.sys, reserved)
    && forall b :: b in s.outstanding ==>
         && reserved <= b < |s.sys.blocks.bits| && s.sys.blocks.bits[b]
         && forall i :: IsTable(s.sys.mem, i) ==> s.sys.mem[DIR][i].frame != b
  }

  ghost function Step(s: State, reserved: nat, op: Op): (r: State)
    requires Inv(s, reserved) && Allowed(s, reserved, op)
  {
    match op
    case AllocBlock =>
      var (blocks, addr) := Alloc(s.sys.blocks);
      if addr == 0 then s
      else State(s.sys.(blocks := blocks), s.outstanding + {addr / BLOCK_SIZE})
    case FreeBlock(addr) =>
      FreeCorrect(s.sys.blocks, addr);
      State(s.sys.(blocks := Free(s.sys.blocks, addr)), s.outstanding - {addr / BLOCK_SIZE})
    case MapPage(frame, v, fl) =>
      var r := Map(s.sys, frame, v, fl);
      if r == None then s else s.(sys := r.value)
    case UnmapPage(v) =>
      UnmapRemovesOneKey(s.sys.mem, v);
      s.(sys := s.sys.(mem := Unmap(s.sys.mem, v).mem))
  }

  lemma AllocInv(s: State, reserved: nat)
    requires Inv(s, reserved)
    ensures Inv(Step(s, reserved, AllocBlock), reserved)
  {
    AllocCorrect(s.sys.blocks);
    if Alloc(s.sys.blocks).1 != 0 { FreshIsUnused(s.sys, reserved); }
  }

  lemma FreeInv(s: State, reserved: nat, addr: nat)
    requires Inv(s, reserved) && Allowed(s, reserved, FreeBlock(addr))
    ensures Inv(Step(s, reserved, FreeBlock(addr)), reserved)
  {
    FreeCorrect(s.sys.blocks, addr);
  }

  lemma MapInv(s: State, reserved: nat, frame: FrameNo, v: FrameNo, fl: Flags)
    requires Inv(s, reserved) && Allowed(s, reserved, MapPage(frame, v, fl))
    ensures Inv(Step(s, reserved, MapPage(frame, v, fl)), reserved)
  {
    MapSetsOneKey(s.sys, reserved, frame, v, fl);
    if Map(s.sys, frame, v, fl).Some? { MapKeepsOutstanding(s, reserved, frame, v, fl); }
  }

  lemma MapKeepsOutstanding(s: State, reserved: nat, frame: FrameNo, v: FrameNo, fl: Flags)
    requires Inv(s, reserved) && v < WINDOW && v != DIR && Map(s.sys, frame, v, fl).Some?
    ensures var r := Map(s.sys, frame, v, fl).value;
            forall b :: b in s.outstanding ==>
              && b < |r.blocks.bits| && r.blocks.bits[b]
              && forall i :: IsTable(r.mem, i) ==> r.mem[DIR][i].frame != b
  {
    var slot := v / 1024;
    var sys := s.sys;
    if sys.mem[DIR][slot].present {
      SetPteMaps(sys.mem, v, SetFields(Pte(sys.mem, v), frame, fl));
    } else {
      AllocCorrect(sys.blocks);
      FreshIsUnused(sys, reserved);
      var f := Alloc(sys.blocks).1 / BLOCK_SIZE;
      AddTableMaps(sys.mem, slot, f);
      var m := AddTable(sys.mem, slot, f);
      SetPteMaps(m, v, SetFields(Pte(m, v), frame, fl));
      assert forall i :: 0 <= i < 1024 && i != slot ==> m[DIR][i] == sys.mem[DIR][i];
    }
  }

  lemma UnmapInv(s: State, reserved: nat, v: FrameNo)
    requires Inv(s, reserved) && Allowed(s, reserved, UnmapPage(v))
    ensures Inv(Step(s, reserved, UnmapPage(v)), reserved)
  {
    UnmapRemovesOneKey(s.sys.mem, v);
  }

  lemma StepInv(s: State, reserved: nat, op: Op)
    requires Inv(s, reserved) && Allowed(s, reserved, op)
    ensures Inv(Step(s, reserved, op), reserved)
  {
    match op
    case AllocBlock => AllocInv(s, reserved);
    case FreeBlock(addr) => FreeInv(s, reserved, addr);
    case MapPage(frame, v, fl) => MapInv(s, reserved, frame, v, fl);
    case UnmapPage(v) => UnmapInv(s, reserved, v);
  }

  /** What pmm_init leaves if it gets everything right. */
  ghost predicate Started(blocks: Blocks, mmap: seq<Region>, kernelEnd: nat) {
    Counted(blocks) && InitialBits(blocks.bits, mmap, kernelEnd) && Occupied(mmap, kernelEnd) <= |blocks.bits|
  }

  /** And the kernel is loaded at 1 MB, and the end of the bitmap lies in a block
      that is safe. */
  ghost predicate Booted(blocks: Blocks, mmap: seq<Region>, kernelEnd: nat) {
    Started(blocks, mmap, kernelEnd) && 0x10_0000 <= kernelEnd && TailSafe(mmap, kernelEnd)
  }

  /** It does so if and only if no block is visited twice. */
  lemma InitStarts(start: seq<bool>, mmap: seq<Region>, kernelEnd: nat)
    requires MapFits(mmap, kernelEnd) && |start| == TotalBlocks(mmap) && Occupied(mmap, kernelEnd) <= |start|
    requires Pmm.NoStray(start, mmap) && Managed(mmap)
    ensures var p := Pmm.Initial(start, mmap, kernelEnd);
            && InitialBits(p.bits, mmap, kernelEnd)
            && (p.used == Count(p.bits) <==> VisitedOnce(mmap))
            && (VisitedOnce(mmap) <==> Started(p, mmap, kernelEnd))
  {
    Pmm.InitialCorrect(start, mmap, kernelEnd);
  }

  /** The machine after pmm_init and paging_install. All blocks that the kernel
      and its bitmap reach into are reserved. */
  ghost function Boot(mem: Memory, blocks: Blocks, mmap: seq<Region>, kernelEnd: nat): (s: State)
    requires Booted(blocks, mmap, kernelEnd)
    ensures Inv(s, Occupied(mmap, kernelEnd))
  {
    InstallMaps(mem, DIR);
    BootTables(mem);
    OccupiedMarkedWhen(blocks.bits, mmap, kernelEnd);
    State(Sys(Install(mem), blocks), {})
  }

  /** A machine on which pmm_init gets everything right: its counter and its
      flags (see `Pmm.InitialCorrect`), and the end of the bitmap lies in a block
      that is safe. `start` is what the memory of the bitmap held before. */
  ghost predicate StartsSafely(start: seq<bool>, mmap: seq<Region>, kernelEnd: nat) {
    && MapFits(mmap, kernelEnd) && |start| == TotalBlocks(mmap)
    && Pmm.NoStray(start, mmap) && VisitedOnce(mmap) && Managed(mmap)
    && 0x10_0000 <= kernelEnd && Occupied(mmap, kernelEnd) <= |start| && TailSafe(mmap, kernelEnd)
  }

  lemma InitBoots(start: seq<bool>, mmap: seq<Region>, kernelEnd: nat)
    requires StartsSafely(start, mmap, kernelEnd)
    ensures Booted(Pmm.Initial(start, mmap, kernelEnd), mmap, kernelEnd)
  {
    InitStarts(start, mmap, kernelEnd);
  }

  /** pmm_init, then paging_install. */
  ghost function Start(mem: Memory, start: seq<bool>, mmap: seq<Region>, kernelEnd: nat): (s: State)
    requires StartsSafely(start, mmap, kernelEnd)
    ensures Inv(s, Occupied(mmap, kernelEnd))
  {
    InitBoots(start, mmap, kernelEnd);
    Boot(mem, Pmm.Initial(start, mmap, kernelEnd), mmap, kernelEnd)
  }

  lemma BootTables(mem: Memory)
    ensures Install(mem)[DIR] == BootDirectory()
    ensures forall i :: IsTable(Install(mem), i) ==> i == 0
  {
  }

  /** The states of a run, or None once an operation is not allowed. */
  ghost function Run(start: State, reserved: nat, ops: seq<Op>): (r: Option<State>)
    requires Inv(start, reserved)
    ensures r.Some? ==> Inv(r.value, reserved)
  {
    if ops == [] then Some(start)
    else
      var before := Run(start, reserved, ops[..|ops|-1]);
      var op := ops[|ops|-1];
      if before == None || !Allowed(before.value, reserved, op) then None
      else
        StepInv(before.value, reserved, op);
        Some(Step(before.value, reserved, op))
  }

  /** What each operation changes. */
  lemma StepMeans(s: State, reserved: nat, op: Op)
    requires Inv(s, reserved) && Allowed(s, reserved, op)
    ensures var r, bits := Step(s, reserved, op).sys, s.sys.blocks.bits;
            match op
            case AllocBlock =>
              && r.mem == s.sys.mem
              && if forall k :: 0 <= k < Searched(s.sys.blocks) ==> bits[k] then r == s.sys
                 else exists f: nat :: LeastClear(bits, f) && r.blocks.bits == bits[f := true]
            case FreeBlock(addr) => r.mem == s.sys.mem && r.blocks.bits == bits[addr / 4096 := false]
            case MapPage(frame, v, fl) =>
              if !s.sys.mem[DIR][v / 1024].present && forall k :: 0 <= k < Searched(s.sys.blocks) ==> bits[k]
              then r == s.sys
              else
                && (forall u: FrameNo ::
                      u != v && u != WINDOW + v / 1024 ==> Mapping(r.mem, u) == Mapping(s.sys.mem, u))
                && Mapping(r.mem, v) == if fl.present then Some(Leaf(frame, fl.rw, fl.user)) else None
            case UnmapPage(v) =>
              && r.blocks == s.sys.blocks
              && forall u: FrameNo :: Mapping(r.mem, u) == if u == v then None else Mapping(s.sys.mem, u)
  {
    match op
    case AllocBlock =>
      AllocCorrect(s.sys.blocks);
      var f := Alloc(s.sys.blocks).1 / BLOCK_SIZE;
      assert Alloc(s.sys.blocks).1 != 0 ==> LeastClear(s.sys.blocks.bits, f);
    case FreeBlock(addr) => FreeCorrect(s.sys.blocks, addr);
    case MapPage(frame, v, fl) =>
      MapFailsWhen(s.sys, frame, v, fl);
      MapSetsOneKey(s.sys, reserved, frame, v, fl);
    case UnmapPage(v) => UnmapRemovesOneKey(s.sys.mem, v);
  }

  predicate LeastClear(bits: seq<bool>, f: nat) {
    f < |bits| && !bits[f] && forall k :: 0 <= k < f ==> bits[k]
  }

  /** Call `k` of the run handed out block `b`. */
  ghost predicate HandedOut(start: State, reserved: nat, ops: seq<Op>, k: nat, b: nat)
    requires Inv(start, reserved) && k < |ops|
  {
    var before := Run(start, reserved, ops[..k]);
    && ops[k] == AllocBlock && before.Some? && Alloc(before.value.sys.blocks).1 != 0
    && Alloc(before.value.sys.blocks).1 / 4096 == b
  }

  predicate FreesBlock(op: Op, b: nat) { op.FreeBlock? && op.addr / 4096 == b }

  ghost predicate FreedFrom(ops: seq<Op>, k: nat, b: nat) {
    exists j :: k <= j < |ops| && FreesBlock(ops[j], b)
  }

  /** Call `k` handed the block out, and it was not freed since. */
  ghost predicate HeldFrom(start: State, reserved: nat, ops: seq<Op>, k: nat, b: nat)
    requires Inv(start, reserved) && k < |ops|
  {
    HandedOut(start, reserved, ops, k, b) && !FreedFrom(ops, k, b)
  }

  /** Some call did so. */
  ghost predicate Held(start: State, reserved: nat, ops: seq<Op>, b: nat)
    requires Inv(start, reserved)
  {
    exists k: nat :: k < |ops| && HeldFrom(start, reserved, ops, k, b)
  }

  lemma FreedNext(ops: seq<Op>, k: nat, b: nat)
    requires k < |ops|
    ensures var n := |ops| - 1;
            FreedFrom(ops, k, b) <==> FreedFrom(ops[..n], k, b) || FreesBlock(ops[n], b)
  {
    var n := |ops| - 1;
    if FreedFrom(ops, k, b) {
      var j :| k <= j < |ops| && FreesBlock(ops[j], b);
      assert j < n ==> ops[..n][j] == ops[j];
    }
  }

  lemma HandedOutBefore(start: State, reserved: nat, ops: seq<Op>, k: nat, b: nat)
    requires Inv(start, reserved) && k < |ops| - 1
    ensures HandedOut(start, reserved, ops, k, b) <==> HandedOut(start, reserved, ops[..|ops|-1], k, b)
  {
    assert ops[..|ops|-1][..k] == ops[..k];
  }

  lemma HeldFromNext(start: State, reserved: nat, ops: seq<Op>, k: nat, b: nat)
    requires Inv(start, reserved) && k < |ops|
    ensures var n := |ops| - 1;
            HeldFrom(start, reserved, ops, k, b) <==>
            if k == n then HandedOut(start, reserved, ops, n, b)
            else HeldFrom(start, reserved, ops[..n], k, b) && !FreesBlock(ops[n], b)
  {
    FreedNext(ops, k, b);
    if k < |ops| - 1 { HandedOutBefore(start, reserved, ops, k, b); }
  }

  lemma HeldNext(start: State, reserved: nat, ops: seq<Op>, b: nat)
    requires Inv(start, reserved) && ops != []
    ensures var n := |ops| - 1;
            Held(start, reserved, ops, b) <==>
            HandedOut(start, reserved, ops, n, b) || (Held(start, reserved, ops[..n], b) && !FreesBlock(ops[n], b))
  {
    var n := |ops| - 1;
    HeldFromNext(start, reserved, ops, n, b);
    if k: nat :| k < |ops| && HeldFrom(start, reserved, ops, k, b) {
      HeldFromNext(start, reserved, ops, k, b);
    }
    if k: nat :| k < n && HeldFrom(start, reserved, ops[..n], k, b) {
      HeldFromNext(start, reserved, ops, k, b);
    }
  }

  lemma OutstandingNext(s: State, reserved: nat, op: Op, b: nat)
    requires Inv(s, reserved) && Allowed(s, reserved, op)
    ensures b in Step(s, reserved, op).outstanding <==>
            || (op == AllocBlock && Alloc(s.sys.blocks).1 != 0 && Alloc(s.sys.blocks).1 / 4096 == b)
            || (b in s.outstanding && !FreesBlock(op, b))
  {
  }

  /** The outstanding blocks are exactly these. */
  lemma {:induction false} OutstandingAreHeld(start: State, reserved: nat, ops: seq<Op>, b: nat)
    requires Inv(start, reserved) && start.outstanding == {} && Run(start, reserved, ops).Some?
    ensures b in Run(start, reserved, ops).value.outstanding <==> Held(start, reserved, ops, b)
  {
    if ops != [] {
      var n := |ops| - 1;
      OutstandingAreHeld(start, reserved, ops[..n], b);
      OutstandingNext(Run(start, reserved, ops[..n]).value, reserved, ops[n], b);
      HeldNext(start, reserved, ops, b);
    }
  }

  /** In every state that a run from pmm_init on can reach: the counter is right;
      outstanding blocks are in use, lie behind the kernel and its bitmap and
      are nobody's table; and the block handed out next is the least free one,
      if there is one, and none of those. */
  lemma ReachableBlocks(mem: Memory, start: seq<bool>, mmap: seq<Region>, kernelEnd: nat, ops: seq<Op>)
    requires StartsSafely(start, mmap, kernelEnd)
    requires Run(Start(mem, start, mmap, kernelEnd), Occupied(mmap, kernelEnd), ops).Some?
    ensures var s := Run(Start(mem, start, mmap, kernelEnd), Occupied(mmap, kernelEnd), ops).value;
            var bits, next := s.sys.blocks.bits, Alloc(s.sys.blocks).1;
            && s.sys.blocks.used == Count(bits)
            && (forall b :: b in s.outstanding ==>
                  BitmapEnd(mmap, kernelEnd) <= b * BLOCK_SIZE && b < |bits| && bits[b])
            && (forall b, i :: b in s.outstanding && IsTable(s.sys.mem, i) ==> s.sys.mem[DIR][i].frame != b)
            && (next == 0 <==> forall k :: 0 <= k < Searched(s.sys.blocks) ==> bits[k])
            && (next != 0 ==>
                  && BitmapEnd(mmap, kernelEnd) <= next && next / BLOCK_SIZE !in s.outstanding
                  && next / BLOCK_SIZE < |bits| && !bits[next / BLOCK_SIZE]
                  && (forall k :: 0 <= k < next / BLOCK_SIZE ==> bits[k])
                  && forall i :: IsTable(s.sys.mem, i) ==> s.sys.mem[DIR][i].frame != next / BLOCK_SIZE)
  {
    var reserved := Occupied(mmap, kernelEnd);
    var s := Run(Start(mem, start, mmap, kernelEnd), reserved, ops).value;
    AllocCorrect(s.sys.blocks);
    BehindBitmap(mmap, kernelEnd);
    if Alloc(s.sys.blocks).1 != 0 { FreshIsUnused(s.sys, reserved); }
  }

  lemma BehindBitmap(mmap: seq<Region>, kernelEnd: nat)
    ensures forall b :: Occupied(mmap, kernelEnd) <= b ==> BitmapEnd(mmap, kernelEnd) <= b * BLOCK_SIZE
  {
    OccupiedIs(mmap, kernelEnd);
  }

  /** Page tables have frames of their own, apart from the boot directory and
      table and behind the first `end` bytes; page i of the window is table i;
      and get_phys_addr agrees with the hardware on every address. */
  ghost predicate TablesRight(mem: Memory, end: nat) {
    && Recursive(mem)
    && (forall i :: IsTable(mem, i) && i > 0 ==>
          && mem[DIR][i].frame != DIR && mem[DIR][i].frame != FIRST_TABLE
          && end <= mem[DIR][i].frame * BLOCK_SIZE)
    && (forall i, j :: IsTable(mem, i) && IsTable(mem, j) && i != j ==> mem[DIR][i].frame != mem[DIR][j].frame)
    && (forall i :: 0 <= i < 1024 ==>
          Walk(mem, WINDOW + i) == if mem[DIR][i].present then Some(mem[DIR][i].frame) else None)
    && (forall addr: nat :: addr < U32 ==>
          GetPhysAddr(mem, addr) == if HwWalk(mem, addr).Some? then HwWalk(mem, addr).value else 0)
  }

  lemma TablesRightWhen(mem: Memory, end: nat)
    requires Recursive(mem)
    requires forall i :: IsTable(mem, i) && i > 0 ==> end <= mem[DIR][i].frame * BLOCK_SIZE
    ensures TablesRight(mem, end)
  {
    assert IsTable(mem, 0);
    forall i | 0 <= i < 1024
      ensures Walk(mem, WINDOW + i) == if mem[DIR][i].present then Some(mem[DIR][i].frame) else None
    {
      WindowWalk(mem, i);
    }
    forall addr: nat | addr < U32
      ensures GetPhysAddr(mem, addr) == if HwWalk(mem, addr).Some? then HwWalk(mem, addr).value else 0
    {
      GetPhysAddrIsWalk(mem, addr);
    }
  }

  /** In every such state the tables are right, and behind kernel and bitmap. */
  lemma ReachableTables(mem: Memory, start: seq<bool>, mmap: seq<Region>, kernelEnd: nat, ops: seq<Op>)
    requires StartsSafely(start, mmap, kernelEnd)
    requires Run(Start(mem, start, mmap, kernelEnd), Occupied(mmap, kernelEnd), ops).Some?
    ensures TablesRight(Run(Start(mem, start, mmap, kernelEnd), Occupied(mmap, kernelEnd), ops).value.sys.mem,
                        BitmapEnd(mmap, kernelEnd))
  {
    BehindBitmap(mmap, kernelEnd);
    TablesRightWhen(Run(Start(mem, start, mmap, kernelEnd), Occupied(mmap, kernelEnd), ops).value.sys.mem,
                    BitmapEnd(mmap, kernelEnd));
  }

  // ----- Where unmap_page goes wrong -----

  /** map_page, or a halt that changes nothing. */
  function MapOrHalt(s: Sys, frame: FrameNo, v: FrameNo, fl: Flags): Sys
    requires Counted(s.blocks)
  {
    if Map(s, frame, v, fl).Some? then Map(s, frame, v, fl).value else s
  }

  /** Mapping the page whose number is the frame of `v`'s table elsewhere takes
      the identity mapping of that table away. */
  lemma RemapHidesTable(s: Sys, reserved: nat, v: FrameNo, other: FrameNo, fl: Flags)
    requires Ok(s, reserved) && v < WINDOW && v != DIR && Mapping(s.mem, v).Some? && fl.present
    requires s.mem[DIR][v / 1024].frame < WINDOW && other != s.mem[DIR][v / 1024].frame
    ensures var r := MapOrHalt(s, other, s.mem[DIR][v / 1024].frame, fl);
            Recursive(r.mem) && Mapping(r.mem, v).Some? && !IdentityMapped(r.mem, v)
  {
    var slot := v / 1024;
    var f := s.mem[DIR][slot].frame;
    assert IsTable(s.mem, slot);
    MapSetsOneKey(s, reserved, other, f, fl);
    var r := MapOrHalt(s, other, f, fl);
    WindowWalk(s.mem, slot);
    WindowWalk(r.mem, slot);
    assert Mapping(r.mem, WINDOW + slot) == Mapping(s.mem, WINDOW + slot);
  }

  /** The failing family of unmap_page is within reach: map a page that needs a
      table, then map the page whose number is the table's frame to another
      frame. Unmapping the first page then does not remove just that page. */
  lemma UnmapCanFail(mem: Memory, start: seq<bool>, mmap: seq<Region>, kernelEnd: nat, frame: FrameNo, other: FrameNo)
    requires StartsSafely(start, mmap, kernelEnd) && Alloc(Pmm.Initial(start, mmap, kernelEnd)).1 != 0
    requires other != Alloc(Pmm.Initial(start, mmap, kernelEnd)).1 / BLOCK_SIZE < FRAMES
    ensures var f, fl := Alloc(Pmm.Initial(start, mmap, kernelEnd)).1 / BLOCK_SIZE, Flags(true, true, true);
            var r := Run(Start(mem, start, mmap, kernelEnd), Occupied(mmap, kernelEnd),
                         [MapPage(frame, 1024, fl), MapPage(other, f, fl)]);
            && r.Some? && Mapping(r.value.sys.mem, 1024).Some?
            && !RemovesOnly(r.value.sys.mem, 1024, Unmap(r.value.sys.mem, 1024))
  {
    var reserved, fl := Occupied(mmap, kernelEnd), Flags(true, true, true);
    var f := Alloc(Pmm.Initial(start, mmap, kernelEnd)).1 / BLOCK_SIZE;
    var s0 := Start(mem, start, mmap, kernelEnd);
    BootTables(mem);
    var s1 := FirstMap(s0, reserved, frame, 1024, fl);
    RemapHidesTable(s1.sys, reserved, 1024, other, fl);
    RunTwo(s0, reserved, MapPage(frame, 1024, fl), MapPage(other, f, fl));
    UnmapWorksWhen(MapOrHalt(s1.sys, other, f, fl).mem, 1024);
  }

  /** 8 MB of usable memory, and the end of a kernel whose bitmap then ends on a
      block boundary. */
  const EIGHT_MB: seq<Region> := [Region(0, 0x80_0000, 1)]
  const SAFE_END: nat := 0x10_0F00

  lemma EightMegabytes()
    ensures TotalBlocks(EIGHT_MB) == 2048 && VisitedOnce(EIGHT_MB) && Managed(EIGHT_MB)
    ensures forall i :: 0 <= i < 2048 ==> Usable(EIGHT_MB, i)
  {
    var r := EIGHT_MB[0];
    assert EIGHT_MB[..0] == [] && Top([]) == 0 && Top(EIGHT_MB) == 0x80_0000;
    forall i | 0 <= i < 2048 ensures Usable(EIGHT_MB, i) { assert Visits(EIGHT_MB[0], i); }
  }

  /** That machine starts safely, whatever its memory held, and its first free
      block is the one behind the bitmap. */
  lemma SafeMachine(start: seq<bool>)
    requires |start| == 2048
    ensures StartsSafely(start, EIGHT_MB, SAFE_END) && Occupied(EIGHT_MB, SAFE_END) == 0x101
    ensures Alloc(Pmm.Initial(start, EIGHT_MB, SAFE_END)).1 == 0x101 * BLOCK_SIZE
  {
    EightMegabytes();
    InitBoots(start, EIGHT_MB, SAFE_END);
    var p := Pmm.Initial(start, EIGHT_MB, SAFE_END);
    assert !p.bits[0x101] && forall i :: 0 <= i < 0x101 ==> p.bits[i];
    AllocCorrect(p);
  }

  /** So unmap_page fails on it after two calls of map_page. */
  lemma UnmapFailsThere(mem: Memory, start: seq<bool>)
    requires |start| == 2048
    ensures StartsSafely(start, EIGHT_MB, SAFE_END)
    ensures exists ops ::
              var r := Run(Start(mem, start, EIGHT_MB, SAFE_END), Occupied(EIGHT_MB, SAFE_END), ops);
              && r.Some? && Mapping(r.value.sys.mem, 1024).Some?
              && !RemovesOnly(r.value.sys.mem, 1024, Unmap(r.value.sys.mem, 1024))
  {
    SafeMachine(start);
    UnmapCanFail(mem, start, EIGHT_MB, SAFE_END, 0, 0);
  }

  /** map_page of a page that needs a table, when there is a block for it. */
  lemma FirstMap(s: State, reserved: nat, frame: FrameNo, v: FrameNo, fl: Flags) returns (r: State)
    requires Inv(s, reserved) && v < WINDOW && v != DIR && fl.present
    requires !s.sys.mem[DIR][v / 1024].present && Alloc(s.sys.blocks).1 != 0
    ensures r == Step(s, reserved, MapPage(frame, v, fl)) && Inv(r, reserved)
    ensures Mapping(r.sys.mem, v).Some? && r.sys.mem[DIR][v / 1024].frame == Alloc(s.sys.blocks).1 / BLOCK_SIZE
    ensures reserved <= Alloc(s.sys.blocks).1 / BLOCK_SIZE < WINDOW
  {
    AllocCorrect(s.sys.blocks);
    FreshIsUnused(s.sys, reserved);
    MapSetsOneKey(s.sys, reserved, frame, v, fl);
    MapFailsWhen(s.sys, frame, v, fl);
    StepInv(s, reserved, MapPage(frame, v, fl));
    r := Step(s, reserved, MapPage(frame, v, fl));
  }

  lemma RunTwo(s: State, reserved: nat, a: Op, b: Op)
    requires Inv(s, reserved) && Allowed(s, reserved, a)
    requires Inv(Step(s, reserved, a), reserved) && Allowed(Step(s, reserved, a), reserved, b)
    ensures Run(s, reserved, [a, b]) == Some(Step(Step(s, reserved, a), reserved, b))
  {
    assert [a, b][..1] == [a] && [a][..0] == [];
    assert Run(s, reserved, []) == Some(s);
    assert Run(s, reserved, [a]) == Some(Step(s, reserved, a));
  }
}
