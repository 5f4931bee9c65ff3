/** The paging functions and the allocator as they run once paging is on: every
    access, those to the bitmap included, goes through a virtual address and the
    walk of the moment, in the one memory. */
module Paging {
  import opened PageTables
  import opened PhysicalBlocks
  import opened VirtualMemory
  import opened KernelMemory
  import Pmm

  /** What keeps the directory visible at its own address. */
  predicate DirectoryVisible(mem: Memory) {
    && mem[DIR][0].present && mem[DIR][0].frame == FIRST_TABLE
    && mem[FIRST_TABLE][DIR].present && mem[FIRST_TABLE][DIR].frame == DIR
  }

  /** What keeps frame `f` visible as table `slot` in the window. */
  predicate TableVisible(mem: Memory, slot: nat, f: FrameNo)
    requires slot < 1024
  {
    && mem[DIR][1023].present && mem[DIR][1023].frame == DIR
    && mem[DIR][slot].present && mem[DIR][slot].frame == f
  }

  /** The low three bits of the `flags` argument. */
  function FlagsOf(flags: nat): Flags {
    Flags(flags % 2 == 1, flags / 2 % 2 == 1, flags / 4 % 2 == 1)
  }

  /** The directory and the bitmap can be reached, and neither the directory's
      block nor block 0 is free. */
  ghost predicate Running(mem: Memory, b: Bitmap) {
    && Recursive(mem) && Visible(mem, b)
    && DIR < b.total && StoredBit(mem, b, 0) && StoredBit(mem, b, DIR)
  }

  /** What the allocator does in terms of the search. */
  lemma AllocFindsNone(m: Machine, b: Bitmap)
    requires m.used >= b.total || LeastFree(StoredBits(m.mem, b), 0, b.total) == -1
    ensures AllocIn(m, b) == (m, 0)
  {
    assert Searched(BlocksOf(m, b)) == b.total;
    assert Alloc(BlocksOf(m, b)) == (BlocksOf(m, b), 0);
  }

  lemma AllocFinds(m: Machine, b: Bitmap, frame: nat)
    requires m.used < b.total && LeastFree(StoredBits(m.mem, b), 0, b.total) == frame
    ensures AllocIn(m, b) == (Machine(StoreBit(m.mem, b, frame, true), Wrap(m.used + 1)), frame * BLOCK_SIZE)
  {
    var bits := StoredBits(m.mem, b);
    assert Searched(BlocksOf(m, b)) == b.total;
    assert Alloc(BlocksOf(m, b)) == (Blocks(bits[frame := true], Wrap(m.used + 1)), frame * BLOCK_SIZE);
    TookIs(m, b, frame, Wrap(m.used + 1));
  }

  lemma StoreBitKeepsTables(mem: Memory, b: Bitmap, i: nat, v: bool)
    requires i < b.total
    ensures StoreBit(mem, b, i, v)[DIR] == mem[DIR] && StoreBit(mem, b, i, v)[FIRST_TABLE] == mem[FIRST_TABLE]
  {
    FrameInBitmap(b, i);
    BitmapFrames(b, FrameOf(b, i));
  }

  /** A block other than the directory's was handed out, or none and nothing has
      changed; the directory and the first table are as they were. */
  predicate Handed(m: Machine, t: Machine, addr: nat) {
    && addr / BLOCK_SIZE < FRAMES && addr == addr / BLOCK_SIZE * BLOCK_SIZE
    && addr / BLOCK_SIZE != DIR && (addr == 0 ==> t == m)
    && t.mem[DIR] == m.mem[DIR] && t.mem[FIRST_TABLE] == m.mem[FIRST_TABLE]
  }

  lemma HandedBlock(m: Machine, b: Bitmap, frame: nat, used: Counter)
    requires 0 < frame < b.total && frame != DIR
    ensures Handed(m, Machine(StoreBit(m.mem, b, frame, true), used), frame * BLOCK_SIZE)
  {
    StoreBitKeepsTables(m.mem, b, frame, true);
    assert frame * BLOCK_SIZE / BLOCK_SIZE == frame;
  }

  lemma FoundFrame(bits: seq<bool>, n: nat, frame: nat)
    requires n <= |bits| && LeastFree(bits, 0, n) == frame
    ensures frame < n && !bits[frame]
  {
  }

  lemma AllocRunning(m: Machine, b: Bitmap)
    requires DIR < b.total && StoredBit(m.mem, b, 0) && StoredBit(m.mem, b, DIR)
    ensures Handed(m, AllocIn(m, b).0, AllocIn(m, b).1)
  {
    var frame := LeastFree(StoredBits(m.mem, b), 0, b.total);
    if m.used >= b.total || frame == -1 {
      AllocFindsNone(m, b);
    } else {
      AllocFinds(m, b, frame);
      FoundFrame(StoredBits(m.mem, b), b.total, frame);
      HandedBlock(m, b, frame, Wrap(m.used + 1));
    }
  }

  /** And map_page in terms of the entry it writes. */
  lemma MapWrites(m: Machine, b: Bitmap, frame: FrameNo, v: FrameNo, fl: Flags)
    requires m.mem[DIR][v / 1024].present
    ensures var f := m.mem[DIR][v / 1024].frame;
            MapIn(m, b, frame, v, fl)
            == Some(m.(mem := Put(m.mem, f, v % 1024, SetFields(m.mem[f][v % 1024], frame, fl))))
  {
  }

  lemma MapWritesNew(m: Machine, b: Bitmap, frame: FrameNo, v: FrameNo, fl: Flags)
    requires !m.mem[DIR][v / 1024].present && AllocIn(m, b).1 != 0 && AllocIn(m, b).1 / BLOCK_SIZE < FRAMES
    ensures var (t, addr) := AllocIn(m, b);
            var f, mem := addr / BLOCK_SIZE, AddTable(t.mem, v / 1024, addr / BLOCK_SIZE);
            f != DIR ==> MapIn(m, b, frame, v, fl)
                         == Some(t.(mem := Put(mem, f, v % 1024, SetFields(mem[f][v % 1024], frame, fl))))
  {
  }

  /** It writes to the directory, the bitmap and the page's table only. */
  lemma MapTouches(m: Machine, b: Bitmap, frame: FrameNo, v: FrameNo, fl: Flags, g: FrameNo)
    requires MapIn(m, b, frame, v, fl).Some? && AllocIn(m, b).1 / BLOCK_SIZE != DIR
    requires AllocIn(m, b).1 / BLOCK_SIZE < FRAMES
    requires m.mem[DIR][v / 1024].present ==> m.mem[DIR][v / 1024].frame != DIR
    requires var f := MapIn(m, b, frame, v, fl).value.mem[DIR][v / 1024].frame;
             g != DIR && !InBitmap(b, g) && g != f
    ensures MapIn(m, b, frame, v, fl).value.mem[g] == m.mem[g]
  {
    FrameInBitmap(b, AllocIn(m, b).1 / BLOCK_SIZE);
  }

  /** The bits that callers combine for the `flags` argument. */
  const PTE_PRESENT: nat := 1
  const PTE_RW: nat := 2
  const PTE_USER: nat := 4

  /** Whatever else is in the argument, exactly these bits count. */
  lemma FlagsOfMask(p: bool, r: bool, u: bool, k: nat)
    ensures FlagsOf(Flag(p) * PTE_PRESENT + Flag(r) * PTE_RW + Flag(u) * PTE_USER + 8 * k) == Flags(p, r, u)
  {
    var b := 2 * k + Flag(u);
    var a := 2 * b + Flag(r);
    Halve(k, Flag(u));
    Halve(b, Flag(r));
    Halve(a, Flag(p));
    var flags := Flag(p) * PTE_PRESENT + Flag(r) * PTE_RW + Flag(u) * PTE_USER + 8 * k;
    assert flags == 2 * a + Flag(p) && flags / 2 == a && flags / 4 == b;
  }

  /** After map_page the page is mapped to the frame with the rights that bits 1
      and 2 of the flags give, if bit 0 is set; and the bits of the entry that are
      no fields are as they were, or zero in a new table, and as they were in the
      directory. */
  lemma MapPageMaps(m: Machine, b: Bitmap, frame: FrameNo, v: FrameNo, flags: nat)
    requires Running(m.mem, b) && v < WINDOW && MapIn(m, b, frame, v, FlagsOf(flags)).Some?
    ensures var r := MapIn(m, b, frame, v, FlagsOf(flags)).value.mem;
            && Mapping(r, v) == (if flags % 2 == 1 then Some(Leaf(frame, flags / 2 % 2 == 1, flags / 4 % 2 == 1))
                                 else None)
            && Pte(r, v).rest == (if m.mem[DIR][v / 1024].present then Pte(m.mem, v).rest else 0)
            && r[DIR][v / 1024].rest == m.mem[DIR][v / 1024].rest
  {
    AllocRunning(m, b);
    if m.mem[DIR][v / 1024].present {
      assert IsTable(m.mem, v / 1024);
      MapWrites(m, b, frame, v, FlagsOf(flags));
    } else {
      MapWritesNew(m, b, frame, v, FlagsOf(flags));
    }
  }

  class Mmu {
    var mem: Memory
    var used: Counter
    const bitmap: Bitmap

    constructor (m: Machine, bitmap: Bitmap)
      ensures View() == m && this.bitmap == bitmap
    {
      this.mem, this.used, this.bitmap := m.mem, m.used, bitmap;
    }

    function View(): Machine
      reads this
    {
      Machine(mem, used)
    }

    // ----- The allocator -----

    /** A load of word `i` of the bitmap. */
    method LoadWord(i: nat) returns (w: Pmm.Word)
      requires i < bitmap.total / 32 && Visible(mem, bitmap)
      ensures forall k :: 32 * i <= k < 32 * i + 32 ==> StoredBits(mem, bitmap)[k] == w[k - 32 * i]
    {
      StoredBitsAreWords(mem, bitmap);
      Pmm.WordIsSlice(BitmapWords(mem, bitmap), bitmap.total, i);
      FrameInBitmap(bitmap, 32 * i);
      w := BitsOfWord(Load(mem, FrameOf(bitmap, 32 * i), IndexOf(bitmap, 32 * i)));
    }

    /** set_block and clear_block. */
    method StoreFlag(i: nat, v: bool)
      requires i < bitmap.total && Visible(mem, bitmap)
      modifies this`mem
      ensures mem == StoreBit(old(mem), bitmap, i, v)
    {
      FrameInBitmap(bitmap, i);
      var page, index := FrameOf(bitmap, i), IndexOf(bitmap, i);
      mem := Store(mem, page, index, SetBit(Load(mem, page, index), i % 32, v));
    }

    method TestBlock(i: nat) returns (b: bool)
      requires i < bitmap.total && Visible(mem, bitmap)
      ensures b == StoredBit(mem, bitmap, i)
    {
      var w := LoadWord(i / 32);
      Pmm.TestBit(w, i % 32);
      b := Pmm.NonZero(Pmm.And(w, Pmm.Mask(i % 32)));
      assert StoredBits(mem, bitmap)[i] == w[i % 32];
    }

    /** The first clear bit of word `i`, or 32: a full word is skipped. */
    method SearchWord(i: nat) returns (j: nat)
      requires i < bitmap.total / 32 && Visible(mem, bitmap)
      ensures j <= 32 && forall k :: 32 * i <= k < 32 * i + j ==> StoredBits(mem, bitmap)[k]
      ensures j < 32 ==> !StoredBits(mem, bitmap)[32 * i + j]
    {
      var w := LoadWord(i);
      j := 32;
      if w != Pmm.ALL_ONES {
        j := Pmm.FirstClear(w);
      }
    }

    method FindFirstFree() returns (r: int)
      requires Visible(mem, bitmap)
      ensures r == LeastFree(StoredBits(mem, bitmap), 0, bitmap.total)
    {
      ghost var bits := StoredBits(mem, bitmap);
      for i := 0 to bitmap.total / 32
        invariant LeastFree(bits, 0, bitmap.total) == LeastFree(bits, 32 * i, bitmap.total)
      {
        var j := SearchWord(i);
        Pmm.SkipUsed(bits, 32 * i, 32 * i + j, bitmap.total);
        if j < 32 {
          return 32 * i + j;
        }
      }
      return -1;
    }

    method AllocBlock() returns (addr: nat)
      requires Visible(mem, bitmap)
      modifies this
      ensures (View(), addr) == AllocIn(old(View()), bitmap)
    {
      if used >= bitmap.total {
        AllocFindsNone(View(), bitmap);
        return 0;
      }
      var frame := FindFirstFree();
      if frame == -1 {
        AllocFindsNone(View(), bitmap);
        return 0;
      }
      AllocFinds(View(), bitmap, frame);
      StoreFlag(frame, true);
      used := Wrap(used + 1);
      addr := frame * BLOCK_SIZE;
    }

    method FreeBlock(block: nat)
      requires block / BLOCK_SIZE < bitmap.total && Visible(mem, bitmap)
      modifies this
      ensures View() == FreeIn(old(View()), bitmap, block)
    {
      var frame := block / BLOCK_SIZE;
      var isUsed := TestBlock(frame);
      if isUsed {
        StoreFlag(frame, false);
        used := Wrap(used - 1);
      }
    }

    // ----- Paging -----

    /** paging_install up to the interrupt and CR writes; paging is still off. */
    method Install()
      modifies this`mem
      ensures mem == VirtualMemory.Install(old(mem))
    {
      mem := PutFrame(mem, DIR, ZeroPage());
      mem := PutFrame(mem, FIRST_TABLE, ZeroPage());
      ghost var before := mem;
      for i := 0 to 1024
        invariant forall f :: 0 <= f < FRAMES && f != FIRST_TABLE ==> mem[f] == before[f]
        invariant forall k :: 0 <= k < i ==> mem[FIRST_TABLE][k] == BootTable()[k]
        invariant forall k :: i <= k < 1024 ==> mem[FIRST_TABLE][k] == ZERO
      {
        mem := Put(mem, FIRST_TABLE, i, SetFields(mem[FIRST_TABLE][i], i, Flags(true, true, false)));
      }
      assert mem[FIRST_TABLE] == BootTable();
      mem := Put(mem, DIR, 0, SetFields(mem[DIR][0], FIRST_TABLE, Flags(true, true, false)));
      mem := Put(mem, DIR, 1023, SetFields(mem[DIR][1023], DIR, Flags(true, true, false)));
      assert mem[DIR] == BootDirectory();
    }

    /** A store to the directory at its virtual address. */
    method StorePde(slot: nat, w: Word)
      requires slot < 1024 && DirectoryVisible(mem)
      modifies this`mem
      ensures mem == Put(old(mem), DIR, slot, w)
    {
      mem := Store(mem, DIR, slot, w);
    }

    /** A store to table `slot` through the window. */
    method StorePte(slot: nat, ghost f: FrameNo, i: nat, w: Word)
      requires slot < 1024 && i < 1024 && TableVisible(mem, slot, f)
      modifies this`mem
      ensures mem == Put(old(mem), f, i, w)
    {
      assert (WINDOW + slot) / 1024 == 1023 && (WINDOW + slot) % 1024 == slot;
      mem := Store(mem, WINDOW + slot, i, w);
    }

    /** The field assignments to a new directory entry, one after the other. */
    method FillPde(slot: nat, f: FrameNo)
      requires 0 < slot < 1023 && DirectoryVisible(mem)
      modifies this`mem
      ensures mem == Put(old(mem), DIR, slot, Word(true, true, true, old(mem)[DIR][slot].rest, f))
    {
      StorePde(slot, Load(mem, DIR, slot).(present := true));
      StorePde(slot, Load(mem, DIR, slot).(rw := true));
      StorePde(slot, Load(mem, DIR, slot).(user := true));
      StorePde(slot, Load(mem, DIR, slot).(frame := f));
      assert mem[DIR] == old(mem)[DIR][slot := Word(true, true, true, old(mem)[DIR][slot].rest, f)];
    }

    /** memset of a new table through the window. */
    method ClearTable(slot: nat, ghost f: FrameNo)
      requires slot < 1023 && f != DIR && TableVisible(mem, slot, f)
      modifies this`mem
      ensures mem == PutFrame(old(mem), f, ZeroPage())
    {
      for i := 0 to 1024
        invariant forall g :: 0 <= g < FRAMES && g != f ==> mem[g] == old(mem)[g]
        invariant forall k :: 0 <= k < i ==> mem[f][k] == ZERO
      {
        StorePte(slot, f, i, ZERO);
      }
      assert mem[f] == ZeroPage();
    }

    /** The field assignments to the page table entry. */
    method FillPte(slot: nat, ghost f: FrameNo, i: nat, frame: FrameNo, fl: Flags)
      requires slot < 1023 && i < 1024 && f != DIR && TableVisible(mem, slot, f)
      modifies this`mem
      ensures mem == Put(old(mem), f, i, SetFields(old(mem)[f][i], frame, fl))
    {
      assert (WINDOW + slot) / 1024 == 1023 && (WINDOW + slot) % 1024 == slot;
      StorePte(slot, f, i, Load(mem, WINDOW + slot, i).(present := fl.present));
      StorePte(slot, f, i, Load(mem, WINDOW + slot, i).(rw := fl.rw));
      StorePte(slot, f, i, Load(mem, WINDOW + slot, i).(user := fl.user));
      StorePte(slot, f, i, Load(mem, WINDOW + slot, i).(frame := frame));
      assert mem[f] == old(mem)[f][i := SetFields(old(mem)[f][i], frame, fl)];
    }

    /** map_page; `ok` is false where the kernel would halt. It writes to the
        directory, the bitmap and the page's table only. */
    method MapPage(physAddr: nat, virtAddr: nat, flags: nat) returns (ok: bool)
      requires Running(mem, bitmap)
      requires physAddr < U32 && virtAddr < U32 && virtAddr / 4096 < WINDOW && virtAddr / 4096 != DIR
      modifies this
      ensures ok == MapIn(old(View()), bitmap, physAddr / 4096, virtAddr / 4096, FlagsOf(flags)).Some?
      ensures View() == if ok then MapIn(old(View()), bitmap, physAddr / 4096, virtAddr / 4096, FlagsOf(flags)).value
                        else old(View())
      ensures forall g: FrameNo :: g != DIR && !InBitmap(bitmap, g) && g != mem[DIR][virtAddr / 4096 / 1024].frame ==>
                mem[g] == old(mem)[g]
      ensures ok ==> Mapping(mem, virtAddr / 4096) ==
                     if flags % 2 == 1 then Some(Leaf(physAddr / 4096, flags / 2 % 2 == 1, flags / 4 % 2 == 1))
                     else None
    {
      var pdIdx, ptIdx := virtAddr / 4096 / 1024, virtAddr / 4096 % 1024;
      ghost var m := View();
      AllocRunning(m, bitmap);
      if !Load(mem, DIR, pdIdx).present {
        ok := AddTableAt(pdIdx);
        if !ok {
          return;
        }
        MapWritesNew(m, bitmap, physAddr / 4096, virtAddr / 4096, FlagsOf(flags));
      } else {
        assert IsTable(mem, pdIdx);
        MapWrites(View(), bitmap, physAddr / 4096, virtAddr / 4096, FlagsOf(flags));
      }
      FillPte(pdIdx, mem[DIR][pdIdx].frame, ptIdx, physAddr / 4096, FlagsOf(flags));
      ok := true;
      forall g: FrameNo | g != DIR && !InBitmap(bitmap, g) && g != mem[DIR][pdIdx].frame ensures mem[g] == m.mem[g] {
        MapTouches(m, bitmap, physAddr / 4096, virtAddr / 4096, FlagsOf(flags), g);
      }
      MapPageMaps(m, bitmap, physAddr / 4096, virtAddr / 4096, flags);
    }

    /** The branch of map_page that creates a table. */
    method AddTableAt(slot: nat) returns (ok: bool)
      requires Running(mem, bitmap) && slot < 1023 && !mem[DIR][slot].present
      modifies this
      ensures ok <==> AllocIn(old(View()), bitmap).1 != 0
      ensures var (t, addr) := AllocIn(old(View()), bitmap);
              && View() == (if ok then t.(mem := AddTable(t.mem, slot, addr / BLOCK_SIZE)) else old(View()))
              && (ok ==> TableVisible(mem, slot, addr / BLOCK_SIZE) && addr / BLOCK_SIZE != DIR)
    {
      AllocRunning(View(), bitmap);
      var addr := AllocBlock();
      if addr == 0 {
        return false;
      }
      FillPde(slot, addr / 4096);
      ClearTable(slot, addr / 4096);
      ok := true;
    }

    /** unmap_page; `ok` is false where the access faults. */
    method UnmapPage(virtAddr: nat) returns (ok: bool)
      requires virtAddr < U32 && Recursive(mem)
      modifies this`mem
      ensures ok == Unmap(old(mem), virtAddr / 4096).Done?
      ensures mem == if ok then Unmap(old(mem), virtAddr / 4096).mem else old(mem)
    {
      var pdIdx, ptIdx := virtAddr / 4096 / 1024, virtAddr / 4096 % 1024;
      var pde := Load(mem, DIR, pdIdx);
      if !pde.present {
        return true;
      }
      if Walk(mem, pde.frame) == None {
        return false;
      }
      mem := Store(mem, pde.frame, ptIdx, ZERO);
      ok := true;
    }

    /** get_phys_addr agrees with the hardware. */
    method GetPhys(virtAddr: nat) returns (addr: nat)
      requires virtAddr < U32 && Recursive(mem)
      ensures addr == if HwWalk(mem, virtAddr).Some? then HwWalk(mem, virtAddr).value else 0
    {
      GetPhysAddrIsWalk(mem, virtAddr);
      addr := GetPhysAddr(mem, virtAddr);
    }
  }
}
