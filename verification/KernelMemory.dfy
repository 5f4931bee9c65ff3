/** The machine with one memory: the bitmap of the physical memory manager lies
    in the frames right behind the kernel, among the frames that the page tables
    are taken from. It behaves like the machine with the bitmap kept apart if
    and only if the block that holds the end of the bitmap is safe. */
module KernelMemory {
  import opened PageTables
  import opened PhysicalBlocks
  import opened VirtualMemory
  import Pmm

  // ----- Bits of a word -----

  predicate BitOf(n: nat, k: nat)
    decreases k
  {
    if k == 0 then n % 2 == 1 else BitOf(n / 2, k - 1)
  }

  function WithBit(n: nat, k: nat, b: bool): nat
    decreases k
  {
    if k == 0 then 2 * (n / 2) + Flag(b) else 2 * WithBit(n / 2, k - 1, b) + n % 2
  }

  lemma {:induction false} BitOfWithBit(n: nat, k: nat, b: bool, j: nat)
    ensures BitOf(WithBit(n, k, b), j) == if j == k then b else BitOf(n, j)
    decreases j
  {
    if k > 0 { Halve(WithBit(n / 2, k - 1, b), n % 2); } else { Halve(n / 2, Flag(b)); }
    if j > 0 && k > 0 { BitOfWithBit(n / 2, k - 1, b, j - 1); }
  }

  function Power(m: nat): (r: nat)
    ensures r > 0
  {
    if m == 0 then 1 else 2 * Power(m - 1)
  }

  lemma PowerOfWord()
    ensures Power(32) == U32
  {
    assert Power(8) == 0x100;
    assert Power(16) == 0x1_0000;
    assert Power(24) == 0x100_0000;
  }

  lemma {:induction false} WithBitFits(n: nat, k: nat, b: bool, m: nat)
    requires n < Power(m) && k < m
    ensures WithBit(n, k, b) < Power(m)
  {
    assert Power(m) == 2 * Power(m - 1);
    Half(n, Power(m - 1));
    if k > 0 { WithBitFits(n / 2, k - 1, b, m - 1); }
  }

  lemma Half(n: nat, q: nat)
    requires n < 2 * q
    ensures n / 2 < q
  {
  }

  lemma {:induction false} NoBitOfZero(k: nat)
    ensures !BitOf(0, k)
  {
    if k > 0 { NoBitOfZero(k - 1); }
  }

  function SetBit(w: Word, k: nat, b: bool): Word
    requires k < 32
  {
    UnpackPack(w);
    PowerOfWord();
    WithBitFits(Pack(w), k, b, 32);
    Unpack(WithBit(Pack(w), k, b))
  }

  lemma BitAfterSet(w: Word, k: nat, b: bool, j: nat)
    requires k < 32
    ensures BitOf(Pack(SetBit(w, k, b)), j) == if j == k then b else BitOf(Pack(w), j)
  {
    UnpackPack(w);
    PowerOfWord();
    WithBitFits(Pack(w), k, b, 32);
    PackUnpack(WithBit(Pack(w), k, b));
    BitOfWithBit(Pack(w), k, b, j);
  }

  /** The bits of a memory word, as the manager's masks see them. */
  function BitsOfWord(w: Word): Pmm.Word { seq(32, k requires 0 <= k < 32 => BitOf(Pack(w), k)) }

  /** Setting and clearing a bit is what the masks do. */
  lemma SetBitIsMask(w: Word, k: nat)
    requires k < 32
    ensures BitsOfWord(SetBit(w, k, true)) == Pmm.Or(BitsOfWord(w), Pmm.Mask(k))
    ensures BitsOfWord(SetBit(w, k, false)) == Pmm.And(BitsOfWord(w), Pmm.Not(Pmm.Mask(k)))
  {
    forall j | 0 <= j < 32
      ensures BitsOfWord(SetBit(w, k, true))[j] == (BitsOfWord(w)[j] || j == k)
      ensures BitsOfWord(SetBit(w, k, false))[j] == (BitsOfWord(w)[j] && j != k)
    {
      BitAfterSet(w, k, true, j);
      BitAfterSet(w, k, false, j);
    }
  }

  // ----- The bitmap in memory -----

  /** Where the bitmap starts and how many blocks it covers. */
  datatype Spot = Spot(base: nat, total: nat)

  /** The linker aligns the end of the kernel, the kernel is at 1 MB, and the
      first 4 MB are identity-mapped. */
  predicate SpotOk(b: Spot) {
    && b.base % 4 == 0 && 0x10_0000 <= b.base && b.base + b.total / 8 <= 0x40_0000
    && 0 < b.total <= MAX_BLOCKS && b.total % 32 == 0
  }

  type Bitmap = b: Spot | SpotOk(b) witness Spot(0x10_0000, 32)

  /** Number of the memory word that holds the flag of block `i`. */
  function WordNo(b: Bitmap, i: nat): (w: nat)
    requires i < b.total
    ensures b.base / 4 <= w < b.base / 4 + b.total / 32 <= 0x10_0000
  {
    b.base / 4 + i / 32
  }

  function FrameOf(b: Bitmap, i: nat): FrameNo
    requires i < b.total
  {
    WordNo(b, i) / 1024
  }

  function IndexOf(b: Bitmap, i: nat): (k: nat)
    requires i < b.total
    ensures k < 1024
  {
    WordNo(b, i) % 1024
  }

  /** The first block behind the bitmap. */
  function Behind(b: Bitmap): nat { (b.base + b.total / 8 + 4095) / 4096 }

  /** Block `g` holds a part of the bitmap. */
  predicate InBitmap(b: Bitmap, g: nat) { b.base / 4096 <= g < Behind(b) }

  lemma FrameInBitmap(b: Bitmap, i: nat)
    requires i < b.total
    ensures InBitmap(b, FrameOf(b, i))
  {
  }

  lemma BitmapFrames(b: Bitmap, g: nat)
    requires InBitmap(b, g)
    ensures 0x100 <= g < 1024
  {
  }

  predicate StoredBit(mem: Memory, b: Bitmap, i: nat)
    requires i < b.total
  {
    BitOf(Pack(mem[FrameOf(b, i)][IndexOf(b, i)]), i % 32)
  }

  function StoredBits(mem: Memory, b: Bitmap): (s: seq<bool>)
    ensures |s| == b.total && forall i :: 0 <= i < b.total ==> s[i] == StoredBit(mem, b, i)
  {
    seq(b.total, i requires 0 <= i < b.total => StoredBit(mem, b, i))
  }

  /** The words of the bitmap, as the manager's array holds them. */
  function BitmapWords(mem: Memory, b: Bitmap): (words: seq<Pmm.Word>)
    ensures |words| == b.total / 32
  {
    seq<Pmm.Word>(b.total / 32, i requires 0 <= i < b.total / 32 => BitmapWord(mem, b, i))
  }

  function BitmapWord(mem: Memory, b: Bitmap, i: nat): Pmm.Word
    requires i < b.total / 32
  {
    BitsOfWord(mem[FrameOf(b, 32 * i)][IndexOf(b, 32 * i)])
  }

  /** The bitmap in memory is the manager's bitmap. */
  lemma StoredBitsAreWords(mem: Memory, b: Bitmap)
    ensures StoredBits(mem, b) == Pmm.BitsOf(BitmapWords(mem, b), b.total)
  {
    var words := BitmapWords(mem, b);
    forall i | 0 <= i < b.total ensures StoredBits(mem, b)[i] == Pmm.BitsOf(words, b.total)[i] {
      SameWord(b, i, 32 * (i / 32));
      assert words[i / 32] == BitmapWord(mem, b, i / 32);
    }
  }

  /** The 32-bit word at a physical address. */
  function WordAt(mem: Memory, addr: nat): nat
    requires addr < 4096 * FRAMES
  {
    Pack(mem[addr / 4096][addr % 4096 / 4])
  }

  /** The flag of block `i` is bit i % 32 of word i / 32 of the bitmap. */
  lemma StoredBitIs(mem: Memory, b: Bitmap, i: nat)
    requires i < b.total
    ensures StoredBit(mem, b, i) <==> WordAt(mem, b.base + 4 * (i / 32)) / Power(i % 32) % 2 == 1
  {
    var addr := b.base + 4 * (i / 32);
    assert addr / 4 == WordNo(b, i) && addr / 4096 == FrameOf(b, i) && addr % 4096 / 4 == IndexOf(b, i);
    BitOfPower(WordAt(mem, addr), i % 32);
  }

  lemma {:induction false} BitOfPower(n: nat, k: nat)
    ensures BitOf(n, k) <==> n / Power(k) % 2 == 1
  {
    if k > 0 {
      BitOfPower(n / 2, k - 1);
      DivTwice(n, Power(k - 1));
    }
  }

  lemma DivTwice(n: nat, q: nat)
    requires q > 0
    ensures n / 2 / q == n / (2 * q)
  {
    var d, r := n / 2 / q, n / 2 % q;
    assert n / 2 == q * d + r && n == 2 * (n / 2) + n % 2;
    QuotientIs(n, 2 * q, d, 2 * r + n % 2);
  }

  lemma QuotientIs(n: nat, m: nat, d: nat, r: nat)
    requires r < m && n == m * d + r
    ensures n / m == d
  {
    var e := n / m;
    assert n == m * e + n % m;
    if d > e {
      Grows(m, e + 1, d);
    } else if d < e {
      Grows(m, d + 1, e);
    }
  }

  lemma Grows(m: nat, a: nat, b: nat)
    requires a <= b
    ensures m * a <= m * b
  {
  }

  /** set_block and clear_block. */
  function StoreBit(mem: Memory, b: Bitmap, i: nat, v: bool): Memory
    requires i < b.total
  {
    var f, k := FrameOf(b, i), IndexOf(b, i);
    Put(mem, f, k, SetBit(mem[f][k], i % 32, v))
  }

  lemma SameWord(b: Bitmap, i: nat, j: nat)
    requires i < b.total && j < b.total
    ensures FrameOf(b, i) == FrameOf(b, j) && IndexOf(b, i) == IndexOf(b, j) <==> i / 32 == j / 32
  {
  }

  lemma StoreBitAt(mem: Memory, b: Bitmap, i: nat, v: bool, j: nat)
    requires i < b.total && j < b.total
    ensures StoredBit(StoreBit(mem, b, i, v), b, j) == if j == i then v else StoredBit(mem, b, j)
  {
    SameWord(b, i, j);
    BitAfterSet(mem[FrameOf(b, i)][IndexOf(b, i)], i % 32, v, j % 32);
    assert i == j <==> i / 32 == j / 32 && i % 32 == j % 32;
  }

  lemma StoreBitStores(mem: Memory, b: Bitmap, i: nat, v: bool)
    requires i < b.total
    ensures StoredBits(StoreBit(mem, b, i, v), b) == StoredBits(mem, b)[i := v]
    ensures forall g: FrameNo :: !InBitmap(b, g) ==> StoreBit(mem, b, i, v)[g] == mem[g]
  {
    FrameInBitmap(b, i);
    var after := StoreBit(mem, b, i, v);
    forall j | 0 <= j < b.total ensures StoredBit(after, b, j) == if j == i then v else StoredBit(mem, b, j) {
      StoreBitAt(mem, b, i, v, j);
    }
  }

  /** The bitmap depends on its own frames only. */
  lemma StoredBitsSame(m1: Memory, m2: Memory, b: Bitmap)
    requires forall g: FrameNo :: InBitmap(b, g) ==> m1[g] == m2[g]
    ensures StoredBits(m1, b) == StoredBits(m2, b)
  {
    forall i | 0 <= i < b.total ensures StoredBit(m1, b, i) == StoredBit(m2, b, i) { FrameInBitmap(b, i); }
  }

  // ----- The machine -----

  datatype Machine = Machine(mem: Memory, used: Counter)

  /** What the manager's variables and its bitmap say. */
  function BlocksOf(m: Machine, b: Bitmap): Blocks { Blocks(StoredBits(m.mem, b), m.used) }

  /** Brings the manager from what it was to `p`, taking the block at `addr`. */
  function Took(m: Machine, b: Bitmap, p: Blocks, addr: nat): Machine
    requires addr / BLOCK_SIZE < b.total
  {
    if p.bits == StoredBits(m.mem, b) then m else Machine(StoreBit(m.mem, b, addr / BLOCK_SIZE, true), p.used)
  }

  /** pmm_alloc_block. */
  function AllocIn(m: Machine, b: Bitmap): (r: (Machine, nat))
    ensures r.1 / BLOCK_SIZE < b.total
  {
    var (p, addr) := Alloc(BlocksOf(m, b));
    (Took(m, b, p, addr), addr)
  }

  /** pmm_free_block. */
  function FreeIn(m: Machine, b: Bitmap, addr: nat): Machine
    requires addr / BLOCK_SIZE < b.total
  {
    var frame := addr / BLOCK_SIZE;
    if StoredBit(m.mem, b, frame) then Machine(StoreBit(m.mem, b, frame, false), Wrap(m.used - 1)) else m
  }

  /** map_page: as with the bitmap kept apart, but in the one memory. */
  function MapIn(m: Machine, b: Bitmap, frame: FrameNo, v: FrameNo, fl: Flags): Option<Machine> {
    var slot := v / 1024;
    if m.mem[DIR][slot].present then Some(m.(mem := SetPte(m.mem, v, SetFields(Pte(m.mem, v), frame, fl))))
    else
      var (t, addr) := AllocIn(m, b);
      if addr == 0 then None
      else
        var mem := AddTable(t.mem, slot, addr / BLOCK_SIZE);
        Some(t.(mem := SetPte(mem, v, SetFields(Pte(mem, v), frame, fl))))
  }

  /** As before; and the pages of the bitmap are left alone. */
  ghost predicate Permitted(m: Machine, b: Bitmap, op: Op) {
    match op
    case AllocBlock => true
    case FreeBlock(addr) =>
      && Behind(b) <= addr / BLOCK_SIZE < b.total
      && forall i :: IsTable(m.mem, i) ==> m.mem[DIR][i].frame != addr / BLOCK_SIZE
    case MapPage(_, v, _) => v < WINDOW && v != DIR && !InBitmap(b, v)
    case UnmapPage(v) =>
      v < WINDOW && v != DIR && !InBitmap(b, v) && (m.mem[DIR][v / 1024].present ==> IdentityMapped(m.mem, v))
  }

  /** One operation; None if it is not permitted, or faults. */
  ghost function StepIn(m: Machine, b: Bitmap, op: Op): (r: Option<Machine>) {
    if !Permitted(m, b, op) then None
    else
      match op
      case AllocBlock => Some(AllocIn(m, b).0)
      case FreeBlock(addr) => Some(FreeIn(m, b, addr))
      case MapPage(frame, v, fl) =>
        var r := MapIn(m, b, frame, v, fl);
        if r == None then Some(m) else r
      case UnmapPage(v) =>
        var r := Unmap(m.mem, v);
        if r.Fault? then None else Some(m.(mem := r.mem))
  }

  ghost function RunIn(start: Machine, b: Bitmap, ops: seq<Op>): Option<Machine> {
    if ops == [] then Some(start)
    else
      var before := RunIn(start, b, ops[..|ops|-1]);
      if before == None then None else StepIn(before.value, b, ops[|ops|-1])
  }

  // ----- It simulates the machine with the bitmap kept apart -----

  /** Same memory outside the bitmap, and the bitmap in memory is the one kept
      apart. */
  ghost predicate Same(m: Machine, b: Bitmap, s: Sys) {
    && (forall g: FrameNo :: !InBitmap(b, g) ==> m.mem[g] == s.mem[g])
    && BlocksOf(m, b) == s.blocks
  }

  /** The pages of the bitmap can be reached at their own addresses. */
  ghost predicate Visible(mem: Memory, b: Bitmap) {
    forall g: FrameNo :: InBitmap(b, g) ==> Walk(mem, g) == Some(g)
  }

  ghost predicate Simulates(m: Machine, b: Bitmap, s: State) {
    Same(m, b, s.sys) && Inv(s, Behind(b)) && Visible(s.sys.mem, b)
  }

  lemma TablesOutside(s: Sys, b: Bitmap, v: FrameNo)
    requires Ok(s, Behind(b)) && s.mem[DIR][v / 1024].present
    ensures !InBitmap(b, s.mem[DIR][v / 1024].frame) && !InBitmap(b, DIR)
  {
    if v / 1024 < 1023 { assert IsTable(s.mem, v / 1024); }
  }

  predicate AlikeAt(m1: Memory, m2: Memory, v: FrameNo) {
    && m1[DIR] == m2[DIR] && Walk(m1, v) == Walk(m2, v)
    && (m2[DIR][v / 1024].present ==> Pte(m1, v) == Pte(m2, v))
  }

  /** So both translate every page alike. */
  lemma SameWalk(m: Machine, b: Bitmap, s: Sys, v: FrameNo)
    requires Same(m, b, s) && Ok(s, Behind(b))
    ensures AlikeAt(m.mem, s.mem, v)
  {
    assert !InBitmap(b, DIR);
    if s.mem[DIR][v / 1024].present { TablesOutside(s, b, v); }
  }

  lemma SamePut(m: Machine, b: Bitmap, s: Sys, f: FrameNo, p: Page)
    requires Same(m, b, s) && !InBitmap(b, f)
    ensures Same(m.(mem := PutFrame(m.mem, f, p)), b, s.(mem := PutFrame(s.mem, f, p)))
  {
    StoredBitsSame(m.mem, PutFrame(m.mem, f, p), b);
  }

  lemma SameAlloc(m: Machine, b: Bitmap, s: Sys)
    requires Same(m, b, s)
    ensures AllocIn(m, b).1 == Alloc(s.blocks).1 && Same(AllocIn(m, b).0, b, s.(blocks := Alloc(s.blocks).0))
  {
    var (p, addr) := Alloc(s.blocks);
    if p != s.blocks { StoreBitStores(m.mem, b, addr / BLOCK_SIZE, true); }
  }

  lemma SameFree(m: Machine, b: Bitmap, s: Sys, addr: nat)
    requires Same(m, b, s) && addr / BLOCK_SIZE < b.total
    ensures Same(FreeIn(m, b, addr), b, s.(blocks := Free(s.blocks, addr)))
  {
    if StoredBit(m.mem, b, addr / BLOCK_SIZE) { StoreBitStores(m.mem, b, addr / BLOCK_SIZE, false); }
  }

  lemma SamePte(m: Machine, b: Bitmap, s: Sys, v: FrameNo, frame: FrameNo, fl: Flags)
    requires Same(m, b, s) && s.mem[DIR][v / 1024].present && m.mem[DIR] == s.mem[DIR]
    requires !InBitmap(b, s.mem[DIR][v / 1024].frame)
    ensures Same(m.(mem := SetPte(m.mem, v, SetFields(Pte(m.mem, v), frame, fl))), b,
                 s.(mem := SetPte(s.mem, v, SetFields(Pte(s.mem, v), frame, fl))))
  {
    var f := s.mem[DIR][v / 1024].frame;
    SamePut(m, b, s, f, s.mem[f][v % 1024 := SetFields(Pte(s.mem, v), frame, fl)]);
  }

  lemma SameTable(m: Machine, b: Bitmap, s: Sys, slot: nat, f: FrameNo)
    requires Same(m, b, s) && slot < 1024 && !InBitmap(b, f) && m.mem[DIR] == s.mem[DIR]
    ensures Same(m.(mem := AddTable(m.mem, slot, f)), b, s.(mem := AddTable(s.mem, slot, f)))
  {
    assert !InBitmap(b, DIR);
    var d := s.mem[DIR][slot := Word(true, true, true, s.mem[DIR][slot].rest, f)];
    SamePut(m, b, s, DIR, d);
    SamePut(m.(mem := PutFrame(m.mem, DIR, d)), b, s.(mem := PutFrame(s.mem, DIR, d)), f, ZeroPage());
  }

  lemma SameMap(m: Machine, b: Bitmap, s: Sys, frame: FrameNo, v: FrameNo, fl: Flags)
    requires Same(m, b, s) && Ok(s, Behind(b)) && v < WINDOW
    ensures MapIn(m, b, frame, v, fl).Some? == Map(s, frame, v, fl).Some?
    ensures Map(s, frame, v, fl).Some? ==> Same(MapIn(m, b, frame, v, fl).value, b, Map(s, frame, v, fl).value)
  {
    var slot := v / 1024;
    SameWalk(m, b, s, v);
    if s.mem[DIR][slot].present {
      TablesOutside(s, b, v);
      SamePte(m, b, s, v, frame, fl);
    } else {
      SameAlloc(m, b, s);
      if Alloc(s.blocks).1 != 0 {
        FreshIsUnused(s, Behind(b));
        var f, m1, s1 := Alloc(s.blocks).1 / BLOCK_SIZE, AllocIn(m, b).0, s.(blocks := Alloc(s.blocks).0);
        assert !InBitmap(b, DIR);
        SameTable(m1, b, s1, slot, f);
        SamePte(m1.(mem := AddTable(m1.mem, slot, f)), b, s1.(mem := AddTable(s1.mem, slot, f)), v, frame, fl);
      }
    }
  }

  lemma VisibleSame(m1: Memory, m2: Memory, b: Bitmap, v: FrameNo)
    requires Visible(m1, b) && !InBitmap(b, v)
    requires forall u: FrameNo :: u != v && u < WINDOW ==> Mapping(m2, u) == Mapping(m1, u)
    ensures Visible(m2, b)
  {
    forall g: FrameNo | InBitmap(b, g) ensures Walk(m2, g) == Some(g) {
      assert Mapping(m2, g) == Mapping(m1, g);
    }
  }

  function MapInOrHalt(m: Machine, b: Bitmap, frame: FrameNo, v: FrameNo, fl: Flags): Machine {
    if MapIn(m, b, frame, v, fl).Some? then MapIn(m, b, frame, v, fl).value else m
  }

  lemma StepIsMapOrHalt(m: Machine, b: Bitmap, s: State, frame: FrameNo, v: FrameNo, fl: Flags)
    requires Inv(s, Behind(b)) && Permitted(m, b, MapPage(frame, v, fl))
    ensures StepIn(m, b, MapPage(frame, v, fl)) == Some(MapInOrHalt(m, b, frame, v, fl))
    ensures Step(s, Behind(b), MapPage(frame, v, fl)) == s.(sys := MapOrHalt(s.sys, frame, v, fl))
  {
  }

  lemma SimulatesMap(m: Machine, b: Bitmap, s: State, frame: FrameNo, v: FrameNo, fl: Flags)
    requires Simulates(m, b, s) && Permitted(m, b, MapPage(frame, v, fl))
    ensures StepIn(m, b, MapPage(frame, v, fl)).Some?
    ensures Simulates(StepIn(m, b, MapPage(frame, v, fl)).value, b, Step(s, Behind(b), MapPage(frame, v, fl)))
  {
    StepIsMapOrHalt(m, b, s, frame, v, fl);
    SameMap(m, b, s.sys, frame, v, fl);
    StepInv(s, Behind(b), MapPage(frame, v, fl));
    MapKeepsVisible(s.sys, b, frame, v, fl);
  }

  lemma MapKeepsVisible(s: Sys, b: Bitmap, frame: FrameNo, v: FrameNo, fl: Flags)
    requires Ok(s, Behind(b)) && Visible(s.mem, b) && v < WINDOW && v != DIR && !InBitmap(b, v)
    ensures Map(s, frame, v, fl).Some? ==> Visible(Map(s, frame, v, fl).value.mem, b)
  {
    MapSetsOneKey(s, Behind(b), frame, v, fl);
    if Map(s, frame, v, fl).Some? { VisibleSame(s.mem, Map(s, frame, v, fl).value.mem, b, v); }
  }

  lemma SimulatesUnmap(m: Machine, b: Bitmap, s: State, v: FrameNo)
    requires Simulates(m, b, s) && Permitted(m, b, UnmapPage(v))
    ensures StepIn(m, b, UnmapPage(v)).Some? && Allowed(s, Behind(b), UnmapPage(v))
    ensures Simulates(StepIn(m, b, UnmapPage(v)).value, b, Step(s, Behind(b), UnmapPage(v)))
  {
    SameUnmap(m, b, s.sys, v);
    UnmapRemovesOneKey(s.sys.mem, v);
    VisibleSame(s.sys.mem, Unmap(s.sys.mem, v).mem, b, v);
    StepInv(s, Behind(b), UnmapPage(v));
  }

  lemma SameUnmap(m: Machine, b: Bitmap, s: Sys, v: FrameNo)
    requires Same(m, b, s) && Ok(s, Behind(b)) && (m.mem[DIR][v / 1024].present ==> IdentityMapped(m.mem, v))
    ensures s.mem[DIR][v / 1024].present ==> IdentityMapped(s.mem, v)
    ensures Unmap(m.mem, v).Done? && Unmap(s.mem, v).Done?
    ensures Same(m.(mem := Unmap(m.mem, v).mem), b, s.(mem := Unmap(s.mem, v).mem))
  {
    SameWalk(m, b, s, v);
    if s.mem[DIR][v / 1024].present {
      var f := s.mem[DIR][v / 1024].frame;
      SameWalk(m, b, s, f);
      TablesOutside(s, b, v);
      SamePut(m, b, s, f, s.mem[f][v % 1024 := ZERO]);
    }
  }

  /** Every step of the one is a step of the other. */
  lemma StepSimulates(m: Machine, b: Bitmap, s: State, op: Op)
    requires Simulates(m, b, s) && Permitted(m, b, op)
    ensures StepIn(m, b, op).Some? && Allowed(s, Behind(b), op)
    ensures Simulates(StepIn(m, b, op).value, b, Step(s, Behind(b), op))
  {
    match op
    case AllocBlock =>
      SameAlloc(m, b, s.sys);
      AllocCorrect(s.sys.blocks);
      StepInv(s, Behind(b), op);
    case FreeBlock(addr) =>
      SameWalk(m, b, s.sys, 0);
      SameFree(m, b, s.sys, addr);
      StepInv(s, Behind(b), op);
    case MapPage(frame, v, fl) => SimulatesMap(m, b, s, frame, v, fl);
    case UnmapPage(v) => SimulatesUnmap(m, b, s, v);
  }

  lemma {:induction false} RunSimulates(m: Machine, b: Bitmap, s: State, ops: seq<Op>)
    requires Simulates(m, b, s) && RunIn(m, b, ops).Some?
    ensures Run(s, Behind(b), ops).Some? && Simulates(RunIn(m, b, ops).value, b, Run(s, Behind(b), ops).value)
  {
    if ops != [] {
      var n := |ops| - 1;
      RunInLast(m, b, ops);
      RunSimulates(m, b, s, ops[..n]);
      StepSimulates(RunIn(m, b, ops[..n]).value, b, Run(s, Behind(b), ops[..n]).value, ops[n]);
      RunLast(s, Behind(b), ops);
    }
  }

  lemma RunInLast(m: Machine, b: Bitmap, ops: seq<Op>)
    requires ops != [] && RunIn(m, b, ops).Some?
    ensures var before, op := RunIn(m, b, ops[..|ops|-1]), ops[|ops|-1];
            before.Some? && Permitted(before.value, b, op) && RunIn(m, b, ops) == StepIn(before.value, b, op)
  {
  }

  lemma RunLast(s: State, reserved: nat, ops: seq<Op>)
    requires Inv(s, reserved) && ops != [] && Run(s, reserved, ops[..|ops|-1]).Some?
    requires Allowed(Run(s, reserved, ops[..|ops|-1]).value, reserved, ops[|ops|-1])
    ensures Run(s, reserved, ops) == Some(Step(Run(s, reserved, ops[..|ops|-1]).value, reserved, ops[|ops|-1]))
  {
  }

  // ----- From boot -----

  /** The flags of the first `n` blocks become those of `bits`. */
  function StoreFlags(mem: Memory, b: Bitmap, bits: seq<bool>, n: nat): Memory
    requires n <= b.total == |bits|
    decreases n
  {
    if n == 0 then mem else StoreFlags(StoreBit(mem, b, n - 1, bits[n - 1]), b, bits, n - 1)
  }

  /** The flags from block `n` on are those of `bits`. */
  predicate FlagsFrom(mem: Memory, b: Bitmap, bits: seq<bool>, n: nat) {
    |bits| == b.total && n <= b.total && StoredBits(mem, b)[n..] == bits[n..]
  }

  lemma FlagsFromNext(mem: Memory, b: Bitmap, bits: seq<bool>, n: nat)
    requires n > 0 && FlagsFrom(mem, b, bits, n)
    ensures FlagsFrom(StoreBit(mem, b, n - 1, bits[n - 1]), b, bits, n - 1)
  {
    StoreBitStores(mem, b, n - 1, bits[n - 1]);
    FromNext(StoredBits(mem, b), bits, n);
  }

  lemma FromNext(s: seq<bool>, bits: seq<bool>, n: nat)
    requires 0 < n <= |s| == |bits| && s[n..] == bits[n..]
    ensures s[n - 1 := bits[n - 1]][n-1..] == bits[n-1..]
  {
    assert s[n - 1 := bits[n - 1]][n-1..] == [bits[n - 1]] + s[n..];
  }

  lemma {:induction false} StoreFlagsHold(mem: Memory, b: Bitmap, bits: seq<bool>, n: nat)
    requires n <= b.total && FlagsFrom(mem, b, bits, n)
    ensures FlagsFrom(StoreFlags(mem, b, bits, n), b, bits, 0)
    decreases n
  {
    if n > 0 {
      FlagsFromNext(mem, b, bits, n);
      StoreFlagsHold(StoreBit(mem, b, n - 1, bits[n - 1]), b, bits, n - 1);
    }
  }

  lemma StoreFlagsStores(mem: Memory, b: Bitmap, bits: seq<bool>)
    requires |bits| == b.total
    ensures StoredBits(StoreFlags(mem, b, bits, b.total), b) == bits
  {
    StoreFlagsHold(mem, b, bits, b.total);
    var r := StoredBits(StoreFlags(mem, b, bits, b.total), b);
    assert r[0..] == r && bits[0..] == bits;
  }

  /** A bitmap and a memory map that belong together: it covers the managed
      blocks, it fits, and no region reaches into a part of a block behind them,
      where pmm_init would clear a bit behind the bitmap. */
  ghost predicate Suits(b: Bitmap, mmap: seq<Region>) {
    && b.total == TotalBlocks(mmap) && MapFits(mmap, b.base) && Managed(mmap)
    && Occupied(mmap, b.base) <= b.total
  }

  /** pmm_init, whatever the memory held. */
  function PmmInit(mem: Memory, b: Bitmap, mmap: seq<Region>): Machine
    requires b.total == TotalBlocks(mmap) && MapFits(mmap, b.base)
  {
    var p := Pmm.Initial(StoredBits(mem, b), mmap, b.base);
    Machine(StoreFlags(mem, b, p.bits, b.total), p.used)
  }

  /** The kernel after pmm_init and paging_install. */
  function Kernel(mem: Memory, b: Bitmap, mmap: seq<Region>): Machine
    requires b.total == TotalBlocks(mmap) && MapFits(mmap, b.base)
  {
    var m := PmmInit(mem, b, mmap);
    m.(mem := Install(m.mem))
  }

  /** What pmm_init leaves in memory and in its counter. */
  lemma PmmInitStores(mem: Memory, b: Bitmap, mmap: seq<Region>)
    requires b.total == TotalBlocks(mmap) && MapFits(mmap, b.base)
    ensures BlocksOf(PmmInit(mem, b, mmap), b) == Pmm.Initial(StoredBits(mem, b), mmap, b.base)
  {
    StoreFlagsStores(mem, b, Pmm.Initial(StoredBits(mem, b), mmap, b.base).bits);
  }

  lemma WholeBytes(b: Bitmap, start: seq<bool>, mmap: seq<Region>)
    requires |start| == b.total
    ensures Pmm.NoStray(start, mmap)
  {
  }

  lemma KernelStarts(mem: Memory, b: Bitmap, mmap: seq<Region>)
    requires Suits(b, mmap)
    ensures var m := PmmInit(mem, b, mmap);
            && (CounterRight(m, b) <==> VisitedOnce(mmap))
            && (VisitedOnce(mmap) ==> Started(BlocksOf(m, b), mmap, b.base))
  {
    var start := StoredBits(mem, b);
    PmmInitStores(mem, b, mmap);
    WholeBytes(b, start, mmap);
    InitStarts(start, mmap, b.base);
  }

  lemma InstallKeepsBitmap(mem: Memory, b: Bitmap)
    ensures StoredBits(Install(mem), b) == StoredBits(mem, b) && Visible(Install(mem), b)
  {
    StoredBitsSame(mem, Install(mem), b);
    forall g: FrameNo | InBitmap(b, g) ensures Walk(Install(mem), g) == Some(g) { InstallMaps(mem, g); }
  }

  ghost predicate CounterRight(m: Machine, b: Bitmap) { m.used == Count(StoredBits(m.mem, b)) }

  /** With a safe tail, every run of the one-memory machine from boot is a run of
      the machine with the bitmap apart, so all that is proved of those holds
      with the bitmap in memory; and the bitmap never becomes unreachable. */
  lemma SafeRuns(mem: Memory, b: Bitmap, mmap: seq<Region>, ops: seq<Op>)
    requires Suits(b, mmap) && VisitedOnce(mmap) && TailSafe(mmap, b.base)
    requires RunIn(Kernel(mem, b, mmap), b, ops).Some?
    ensures StartsSafely(StoredBits(mem, b), mmap, b.base)
    ensures var m := RunIn(Kernel(mem, b, mmap), b, ops).value;
            var start := Start(PmmInit(mem, b, mmap).mem, StoredBits(mem, b), mmap, b.base);
            var r := Run(start, Occupied(mmap, b.base), ops);
            && r.Some? && Same(m, b, r.value.sys)
            && CounterRight(m, b) && Visible(m.mem, b) && Recursive(m.mem)
  {
    BootSimulates(mem, b, mmap);
    var start, s := Kernel(mem, b, mmap), Start(PmmInit(mem, b, mmap).mem, StoredBits(mem, b), mmap, b.base);
    RunSimulates(start, b, s, ops);
    SimulationMeans(RunIn(start, b, ops).value, b, Run(s, Behind(b), ops).value);
  }

  /** In every such state the tables are right, and behind kernel and bitmap. */
  lemma SafeTables(mem: Memory, b: Bitmap, mmap: seq<Region>, ops: seq<Op>)
    requires Suits(b, mmap) && VisitedOnce(mmap) && TailSafe(mmap, b.base)
    requires RunIn(Kernel(mem, b, mmap), b, ops).Some?
    ensures TablesRight(RunIn(Kernel(mem, b, mmap), b, ops).value.mem, BitmapEnd(mmap, b.base))
  {
    SafeRuns(mem, b, mmap, ops);
    var m, mem0 := RunIn(Kernel(mem, b, mmap), b, ops).value, PmmInit(mem, b, mmap).mem;
    var s := Run(Start(mem0, StoredBits(mem, b), mmap, b.base), Occupied(mmap, b.base), ops).value;
    ReachableTables(mem0, StoredBits(mem, b), mmap, b.base, ops);
    SameTables(m, b, s.sys, BitmapEnd(mmap, b.base));
  }

  lemma SameTables(m: Machine, b: Bitmap, s: Sys, end: nat)
    requires Same(m, b, s) && Recursive(m.mem) && TablesRight(s.mem, end)
    ensures TablesRight(m.mem, end)
  {
    assert !InBitmap(b, DIR);
    assert forall i :: IsTable(m.mem, i) == IsTable(s.mem, i);
    TablesRightWhen(m.mem, end);
  }

  lemma BootSimulates(mem: Memory, b: Bitmap, mmap: seq<Region>)
    requires Suits(b, mmap) && VisitedOnce(mmap) && TailSafe(mmap, b.base)
    ensures StartsSafely(StoredBits(mem, b), mmap, b.base) && Behind(b) == Occupied(mmap, b.base)
    ensures Simulates(Kernel(mem, b, mmap), b, Start(PmmInit(mem, b, mmap).mem, StoredBits(mem, b), mmap, b.base))
  {
    PmmInitStores(mem, b, mmap);
    WholeBytes(b, StoredBits(mem, b), mmap);
    InstallKeepsBitmap(PmmInit(mem, b, mmap).mem, b);
  }

  lemma SimulationMeans(m: Machine, b: Bitmap, s: State)
    requires Simulates(m, b, s)
    ensures CounterRight(m, b) && Visible(m.mem, b) && Recursive(m.mem)
  {
    SameWalk(m, b, s.sys, DIR);
    forall g: FrameNo | InBitmap(b, g) ensures Walk(m.mem, g) == Some(g) { SameWalk(m, b, s.sys, g); }
  }

  /** The memory once the first table has been made in the tail's frame. */
  function TableInTail(mem: Memory, b: Bitmap, tail: nat, slot: nat): Memory
    requires tail < 1024 && tail < b.total && slot < 1024
  {
    AddTable(StoreBit(Install(mem), b, tail, true), slot, tail)
  }

  lemma TailIs(b: Bitmap, mmap: seq<Region>)
    requires !TailSafe(mmap, b.base) && b.total == TotalBlocks(mmap) && Occupied(mmap, b.base) <= b.total
    ensures var tail := Reserved(mmap, b.base); InBitmap(b, tail) && 0x100 <= tail < 1024 && tail < b.total
  {
    OccupiedIs(mmap, b.base);
    BitmapFrames(b, Reserved(mmap, b.base));
  }

  lemma FirstTable(mem: Memory, used: Counter, b: Bitmap, mmap: seq<Region>, frame: FrameNo, v: FrameNo, fl: Flags)
    requires Started(Blocks(StoredBits(mem, b), used), mmap, b.base) && !TailSafe(mmap, b.base) && 1024 <= v < WINDOW
    ensures var tail := Reserved(mmap, b.base);
            && tail < 1024 && tail < b.total
            && MapIn(Machine(Install(mem), used), b, frame, v, fl)
               == Some(Machine(Put(TableInTail(mem, b, tail, v / 1024), tail, v % 1024, SetFields(ZERO, frame, fl)),
                               Wrap(used + 1)))
  {
    AllocTail(mem, used, b, mmap);
    BootTables(mem);
    var tail := Reserved(mmap, b.base);
    MapInNewTable(Machine(Install(mem), used), b, frame, v, fl, tail,
                  Machine(StoreBit(Install(mem), b, tail, true), Wrap(used + 1)));
  }

  lemma MapInNewTable(m: Machine, b: Bitmap, frame: FrameNo, v: FrameNo, fl: Flags, f: FrameNo, t: Machine)
    requires !m.mem[DIR][v / 1024].present && AllocIn(m, b) == (t, f * BLOCK_SIZE) && f != 0 && f != DIR
    ensures MapIn(m, b, frame, v, fl)
            == Some(Machine(Put(AddTable(t.mem, v / 1024, f), f, v % 1024, SetFields(ZERO, frame, fl)), t.used))
  {
    assert f * BLOCK_SIZE / BLOCK_SIZE == f;
    FreshPte(t.mem, v, f, frame, fl);
  }

  lemma AllocTail(mem: Memory, used: Counter, b: Bitmap, mmap: seq<Region>)
    requires Started(Blocks(StoredBits(mem, b), used), mmap, b.base) && !TailSafe(mmap, b.base)
    ensures var tail := Reserved(mmap, b.base);
            && 0x100 <= tail < 1024 && tail < b.total
            && AllocIn(Machine(Install(mem), used), b)
               == (Machine(StoreBit(Install(mem), b, tail, true), Wrap(used + 1)), tail * BLOCK_SIZE)
  {
    TailIs(b, mmap);
    InstallKeepsBitmap(mem, b);
    TailHandedOutFirst(Blocks(StoredBits(mem, b), used), mmap, b.base);
    TookIs(Machine(Install(mem), used), b, Reserved(mmap, b.base), Wrap(used + 1));
  }

  lemma TookIs(m: Machine, b: Bitmap, f: nat, used: Counter)
    requires f < b.total && !StoredBits(m.mem, b)[f]
    ensures Took(m, b, Blocks(StoredBits(m.mem, b)[f := true], used), f * BLOCK_SIZE)
            == Machine(StoreBit(m.mem, b, f, true), used)
  {
    UpdateShows(StoredBits(m.mem, b), f);
    assert f * BLOCK_SIZE / BLOCK_SIZE == f;
  }

  lemma UpdateShows(bits: seq<bool>, f: nat)
    requires f < |bits| && !bits[f]
    ensures bits[f := true] != bits
  {
    assert bits[f := true][f];
  }

  /** The entry written into a new table. */
  lemma FreshPte(mem: Memory, v: FrameNo, f: FrameNo, frame: FrameNo, fl: Flags)
    requires f != DIR
    ensures var t := AddTable(mem, v / 1024, f);
            && Pte(t, v) == ZERO
            && SetPte(t, v, SetFields(Pte(t, v), frame, fl)) == Put(t, f, v % 1024, SetFields(ZERO, frame, fl))
  {
    var t := AddTable(mem, v / 1024, f);
    assert t[f] == ZeroPage() && t[DIR][v / 1024].frame == f;
  }

  /** A block has been counted, a table for page `v` lies in the frame of the
      tail, and all flags there are clear but for those under the entry of `v`. */
  ghost predicate TailGone(r: Option<Machine>, before: Machine, b: Bitmap, tail: nat, v: FrameNo) {
    && r.Some? && r.value.used == Wrap(before.used + 1) && InBitmap(b, tail)
    && r.value.mem[DIR][v / 1024].present && r.value.mem[DIR][v / 1024].frame == tail
    && forall i :: 0 <= i < b.total && FrameOf(b, i) == tail && IndexOf(b, i) != v % 1024 ==>
         !StoredBit(r.value.mem, b, i)
  }

  lemma TailGoneFrom(m: Machine, b: Bitmap, mmap: seq<Region>, frame: FrameNo, v: FrameNo, fl: Flags)
    requires Started(BlocksOf(m, b), mmap, b.base) && !TailSafe(mmap, b.base) && 1024 <= v < WINDOW
    ensures var after := m.(mem := Install(m.mem));
            TailGone(MapIn(after, b, frame, v, fl), after, b, Reserved(mmap, b.base), v)
  {
    var tail := Reserved(mmap, b.base);
    TailIs(b, mmap);
    FirstTable(m.mem, m.used, b, mmap, frame, v, fl);
    var t := TableInTail(m.mem, b, tail, v / 1024);
    assert t[tail] == ZeroPage() && t[DIR][v / 1024] == Word(true, true, true, t[DIR][v / 1024].rest, tail);
    ZeroesShow(t, b, tail, v % 1024, SetFields(ZERO, frame, fl));
  }

  /** Otherwise the first page table overwrites the end of the bitmap: mapping
      any page that needs a table puts the table into the frame of the tail. */
  lemma TailOverwritten(mem: Memory, b: Bitmap, mmap: seq<Region>, frame: FrameNo, v: FrameNo, fl: Flags)
    requires Suits(b, mmap) && VisitedOnce(mmap) && !TailSafe(mmap, b.base) && 1024 <= v < WINDOW
    ensures var m := Kernel(mem, b, mmap);
            TailGone(MapIn(m, b, frame, v, fl), m, b, Reserved(mmap, b.base), v)
  {
    KernelStarts(mem, b, mmap);
    TailGoneFrom(PmmInit(mem, b, mmap), b, mmap, frame, v, fl);
  }

  lemma ZeroesShow(t: Memory, b: Bitmap, tail: FrameNo, k: nat, w: Word)
    requires t[tail] == ZeroPage() && k < 1024
    ensures forall i :: 0 <= i < b.total && FrameOf(b, i) == tail && IndexOf(b, i) != k ==>
              !StoredBit(Put(t, tail, k, w), b, i)
  {
    forall i | 0 <= i < b.total && FrameOf(b, i) == tail && IndexOf(b, i) != k
      ensures !StoredBit(Put(t, tail, k, w), b, i)
    {
      NoBitOfZero(i % 32);
    }
  }

  /** The last word of the bitmap lies in the tail. */
  lemma LastWord(b: Bitmap, mmap: seq<Region>)
    requires b.total == TotalBlocks(mmap) && !TailSafe(mmap, b.base)
    ensures FrameOf(b, b.total - 32) == Reserved(mmap, b.base)
  {
    assert WordNo(b, b.total - 32) == BitmapEnd(mmap, b.base) / 4 - 1;
  }

  /** A page whose entry in a new table lies over the last word of the bitmap. */
  function SpoilingPage(b: Bitmap): FrameNo { 1024 + IndexOf(b, b.total - 32) }

  /** map_page of it, present or not. */
  function Spoil(m: Machine, b: Bitmap, present: bool): Option<Machine> {
    MapIn(m, b, 0, SpoilingPage(b), Flags(present, false, false))
  }

  /** The two leave bitmaps that differ in one flag, and the same counter. */
  lemma SpoilersDiffer(mem: Memory, used: Counter, b: Bitmap, mmap: seq<Region>)
    requires Started(Blocks(StoredBits(mem, b), used), mmap, b.base) && !TailSafe(mmap, b.base)
    ensures var m := Machine(Install(mem), used);
            DifferInFlag(Spoil(m, b, false), Spoil(m, b, true), b, b.total - 32)
  {
    LastWord(b, mmap);
    TailIs(b, mmap);
    var t := TableInTail(mem, b, Reserved(mmap, b.base), 1);
    SpoilLeaves(mem, used, b, mmap, false);
    SpoilLeaves(mem, used, b, mmap, true);
    NewTableIsZero(StoreBit(Install(mem), b, Reserved(mmap, b.base), true), Reserved(mmap, b.base));
    OverwrittenDiffer(t, used, b);
  }

  lemma OverwrittenDiffer(t: Memory, used: Counter, b: Bitmap)
    requires t[FrameOf(b, b.total - 32)] == ZeroPage()
    ensures DifferInFlag(Some(Overwritten(t, used, b, false)), Some(Overwritten(t, used, b, true)), b, b.total - 32)
  {
    OneFlag(t, b, b.total - 32);
    FlagDiffers(Overwritten(t, used, b, false), Overwritten(t, used, b, true), b, b.total - 32);
  }

  lemma NewTableIsZero(mem: Memory, f: FrameNo)
    ensures AddTable(mem, 1, f)[f] == ZeroPage()
  {
  }

  /** The machine with an entry written over the last word of the bitmap. */
  function Overwritten(t: Memory, used: Counter, b: Bitmap, present: bool): Machine {
    var f, k := FrameOf(b, b.total - 32), IndexOf(b, b.total - 32);
    Machine(Put(t, f, k, Word(present, false, false, 0, 0)), Wrap(used + 1))
  }

  lemma SpoilLeaves(mem: Memory, used: Counter, b: Bitmap, mmap: seq<Region>, present: bool)
    requires Started(Blocks(StoredBits(mem, b), used), mmap, b.base) && !TailSafe(mmap, b.base)
    ensures var tail := Reserved(mmap, b.base);
            && tail < 1024 && tail < b.total
            && Spoil(Machine(Install(mem), used), b, present)
               == Some(Overwritten(TableInTail(mem, b, tail, 1), used, b, present))
  {
    var v := SpoilingPage(b);
    LastWord(b, mmap);
    assert v / 1024 == 1 && v % 1024 == IndexOf(b, b.total - 32);
    FirstTable(mem, used, b, mmap, 0, v, Flags(present, false, false));
  }

  lemma FlagDiffers(m0: Machine, m1: Machine, b: Bitmap, i: nat)
    requires i < b.total && m0.used == m1.used && !StoredBits(m0.mem, b)[i]
    requires StoredBits(m1.mem, b) == StoredBits(m0.mem, b)[i := true]
    ensures DifferInFlag(Some(m0), Some(m1), b, i)
  {
  }

  lemma StepIsMap(m: Machine, b: Bitmap, frame: FrameNo, v: FrameNo, fl: Flags)
    requires 1024 <= v < WINDOW && MapIn(m, b, frame, v, fl).Some?
    ensures StepIn(m, b, MapPage(frame, v, fl)) == MapIn(m, b, frame, v, fl)
  {
    assert !InBitmap(b, v);
  }

  lemma OneFlag(t: Memory, b: Bitmap, i: nat)
    requires i < b.total && i % 32 == 0 && t[FrameOf(b, i)] == ZeroPage()
    ensures var f, k := FrameOf(b, i), IndexOf(b, i);
            && !StoredBits(Put(t, f, k, ZERO), b)[i]
            && StoredBits(Put(t, f, k, Word(true, false, false, 0, 0)), b)
               == StoredBits(Put(t, f, k, ZERO), b)[i := true]
  {
    var f, k := FrameOf(b, i), IndexOf(b, i);
    PutZero(t, f, k);
    assert SetBit(ZERO, 0, true) == Word(true, false, false, 0, 0);
    StoreBitStores(t, b, i, true);
    NoBitOfZero(0);
  }

  lemma PutZero(t: Memory, f: FrameNo, k: nat)
    requires t[f] == ZeroPage() && k < 1024
    ensures Put(t, f, k, ZERO) == t && t[f][k] == ZERO
  {
    assert t[f][k := ZERO] == t[f];
  }

  /** The counter agrees with the bitmap in every state of every run from boot
      if and only if no block is visited twice and the block with the end of the
      bitmap is safe. */
  lemma CounterRightWhen(mem: Memory, b: Bitmap, mmap: seq<Region>)
    requires Suits(b, mmap)
    ensures (forall ops :: var r := RunIn(Kernel(mem, b, mmap), b, ops); r.Some? ==> CounterRight(r.value, b))
            <==> VisitedOnce(mmap) && TailSafe(mmap, b.base)
  {
    var m := Kernel(mem, b, mmap);
    if VisitedOnce(mmap) && TailSafe(mmap, b.base) {
      forall ops | RunIn(m, b, ops).Some? ensures CounterRight(RunIn(m, b, ops).value, b) {
        SafeRuns(mem, b, mmap, ops);
      }
    } else if VisitedOnce(mmap) {
      var op := UnsafeRun(mem, b, mmap);
    } else {
      KernelStarts(mem, b, mmap);
      InstallKeepsBitmap(PmmInit(mem, b, mmap).mem, b);
      assert RunIn(m, b, []) == Some(m);
    }
  }

  /** Without a safe tail a single map_page can make the counter wrong. */
  lemma UnsafeRun(mem: Memory, b: Bitmap, mmap: seq<Region>) returns (op: Op)
    requires Suits(b, mmap) && VisitedOnce(mmap) && !TailSafe(mmap, b.base)
    ensures var r := RunIn(Kernel(mem, b, mmap), b, [op]); r.Some? && !CounterRight(r.value, b)
  {
    var m, m0 := Kernel(mem, b, mmap), PmmInit(mem, b, mmap);
    KernelStarts(mem, b, mmap);
    SpoilersDiffer(m0.mem, m0.used, b, mmap);
    var present := WrongSpoil(m, b);
    op := MapPage(0, SpoilingPage(b), Flags(present, false, false));
    StepIsMap(m, b, 0, SpoilingPage(b), Flags(present, false, false));
    RunOne(m, b, op);
  }

  /** On a machine with 8 MB of usable memory and a kernel that ends where it
      starts, at 1 MB, the bitmap ends inside a block, and the counter goes wrong
      after one call of map_page, whatever the memory held. */
  lemma UnsafeThere(mem: Memory)
    ensures var b := Spot(0x10_0000, 2048);
            && SpotOk(b) && Suits(b, EIGHT_MB) && VisitedOnce(EIGHT_MB) && !TailSafe(EIGHT_MB, b.base)
            && exists op :: var r := RunIn(Kernel(mem, b, EIGHT_MB), b, [op]); r.Some? && !CounterRight(r.value, b)
  {
    EightMegabytes();
    var op := UnsafeRun(mem, Spot(0x10_0000, 2048), EIGHT_MB);
  }

  /** `r1` differs from `r0` in one flag only. */
  ghost predicate DifferInFlag(r0: Option<Machine>, r1: Option<Machine>, b: Bitmap, i: nat)
    requires i < b.total
  {
    && r0.Some? && r1.Some? && r0.value.used == r1.value.used
    && !StoredBits(r0.value.mem, b)[i]
    && StoredBits(r1.value.mem, b) == StoredBits(r0.value.mem, b)[i := true]
  }

  lemma WrongSpoil(m: Machine, b: Bitmap) returns (present: bool)
    requires DifferInFlag(Spoil(m, b, false), Spoil(m, b, true), b, b.total - 32)
    ensures Spoil(m, b, present).Some? && !CounterRight(Spoil(m, b, present).value, b)
  {
    var r0, r1 := Spoil(m, b, false), Spoil(m, b, true);
    OneIsWrong(r0.value, r1.value, b, b.total - 32);
    present := CounterRight(r0.value, b);
  }

  lemma OneIsWrong(m0: Machine, m1: Machine, b: Bitmap, i: nat)
    requires i < b.total && m0.used == m1.used && !StoredBits(m0.mem, b)[i]
    requires StoredBits(m1.mem, b) == StoredBits(m0.mem, b)[i := true]
    ensures !(CounterRight(m0, b) && CounterRight(m1, b))
  {
    CountUpdate(StoredBits(m0.mem, b), i, true);
  }

  lemma RunOne(m: Machine, b: Bitmap, op: Op)
    ensures RunIn(m, b, [op]) == StepIn(m, b, op)
  {
    assert [op][..0] == [];
    assert RunIn(m, b, []) == Some(m);
  }
}
